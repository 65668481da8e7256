# ecs_sharp entity and component stores, in Dafny

This project models the two in-memory structures at the heart of the
ecs_sharp entity-component system and proves properties about them.

- **`EntitySystem`: the entity-id allocator** (`EntitySystem.dfy`, module `Entities`).
  - `entities` is the id list. It always holds 0, 1, ..., Size() - 1, so it works as a high-water mark.
  - `erasedIds` is the FIFO queue of retired ids waiting to be handed out again.
  - Every operation keeps `Valid()`. Valid means: the list is the identity, the free list holds distinct allocated ids, and the top id is never retired.
  - The operations are proved against that state: what `CreateNewEntity`, `CreateNewEntityUnderId`, `Delete` (with its cascading compaction), `Exist`, `EraseLast` and `Clear` return and leave.
  - The built-in self-test is replayed as verified methods.
- **`ComponentSystem`: the component slot map** (`ComponentSystem.dfy`, module `ComponentStore`). It has four structures kept in step:
  - the dense slot array `components`;
  - the FIFO free list of deleted slots, `erasedIds`;
  - the per-entity bucket list `entityComponents`;
  - the per-family map `familyComponents`.
- **Shared components.** A `Component` is a Dafny object shared by those structures, as it is in the source. So the soft-deletion flag set by `ResetComponent` is seen through every reference.
- **The invariant, as values.** The structures are also read as one value `Store`. The representation invariant `Inv(st, ms)` is stated on that value and on the slot flags `ms` as a sequence. `Valid()` applies it to the current store and `Flags(components)`.
- **`Validate`.** It is modelled as `Checks`, whose conjuncts together cover every throw site (some conjuncts cover two). `ValidPassesValidate` shows the invariant implies it.
- **What is proved.** The empty system, `Clear`, `CreateComponent` (append path), `AttachComponent`, `AttachArray`, `DuplicateComponent`, `AppendComponentsByEntity`, `RebuildErasedIDs` and `DeleteComponent` all keep the invariant.
  - Each mutating method is also proved against a function of the old store: `Append`, `AppendAll`, `Installed`, `Retired`, `Compacted`.
- **`Lists.dfy`** (module `Lists`) holds the .NET collection operations the code relies on:
  - `List.Remove(value)` / `LinkedList.Remove(value)` (`RemoveFirst`);
  - the linked-list scan (`Find`);
  - the `ListExt` helpers `Resize`, `PopBack` and `Back`;
  - `CompactedSize` / `Below`, which describe the outcome of both compaction loops.

Where the code differs from what its comments suggest, the model follows the code, with one exception. Each case is listed here and in the doc comments:

- **`Exist`** (the exception) is the corrected test of the Findings row: the class's `Exist` also requires `0 <= id`.
  - As written, a negative id that is not retired exists. So the source's `Delete(-1)` returns true and queues -1, while the class's `Delete(-1)` returns false and changes nothing.
  - `ExistAsWritten` and `DeleteAsWritten` model the code as written. `CreateNewEntityUnderId` rejects ids <= 0 before it tests existence, and `CreateNewEntity` does not test it, so only `Exist` and `Delete` differ.

- **`RefCount`** is 1 for every id below the array size and 0 otherwise.
  - So `Replace` refuses every id that is a slot.
  - So the recycle path of `CreateComponent` dequeues a free id and returns null.
  - This leaves a marked slot off the free list, and `Validate` then fails. `CreateComponent` states this outright.
- **`CreateNewEntityUnderId(Size())`** returns `Size() + 1`.
- **`DuplicateComponent`** copies nothing. It is `CreateComponent` for the new entity.
- **`AttachComponent`** does not renumber its argument. The invariant is claimed only when the argument's id already names the new slot.

## Model

| member | source | states |
|---|---|---|
| `Lists.RemoveFirst` | ECS/EntitySystem.cs:165 | List.Remove(value) drops exactly the first occurrence; without one the list is unchanged |
| `Lists.RemoveFirstDistinct` | ECS/EntitySystem.cs:125 | on a list without repetitions, removal keeps it repetition-free and removes exactly that value |
| `Lists.Find` | ECS/EntitySystem.cs:120-129 | the linked-list scan finds v exactly when it is on the list, at its first position |
| `Lists.Resize` | ECS/ComponentSystem.cs:28-35 | the result has the requested length, keeps the old prefix and pads with the fill value |
| `Lists.Back` | ECS/ComponentSystem.cs:45-51 | the last element: the list is its prefix followed by it |
| `Lists.PopBack` | ECS/ComponentSystem.cs:37-40 | one shorter, and putting Back back restores the list |
| `Lists.CompactedSize` | ECS/EntitySystem.cs:114-133 | the size the compaction loops stop at: never larger, and its top id is not retired |
| `Lists.CompactedSizeRetired` | ECS/EntitySystem.cs:114-133 | every id the compaction drops was retired |
| `Lists.Below` | ECS/EntitySystem.cs:125 | the free list after compaction: exactly the retired ids below the new size |
| `Lists.BelowSnoc` | ECS/EntitySystem.cs:125 | the compaction keeps the order of the free list: an id appended to the list is appended to the ids kept when it is below the size |
| `Lists.BelowDrop` | ECS/EntitySystem.cs:124-125 | one turn of the loop: removing the top id from the ids below n leaves the ids below n - 1 |
| `Lists.BelowDistinct` | ECS/ComponentSystem.cs:582 | compaction keeps the free list repetition-free |
| `Lists.CompactStep` | ECS/EntitySystem.cs:115-131 | one turn of the loop keeps the final size and the free list in step |
| `Entities.EntitySystem.constructor` | ECS/EntitySystem.cs:15-21 | a fresh allocator holds only id 0, nothing retired, and is valid |
| `Entities.EntitySystem.Ordered` | ECS/EntitySystem.cs:12-20 | the id list is 0, 1, ..., Size() - 1 and the free list holds distinct allocated ids |
| `Entities.EntitySystem.Valid` | ECS/EntitySystem.cs:104-138 | Ordered, and the top id is never retired, which Delete's cascade restores |
| `Entities.EntitySystem.Size` | ECS/EntitySystem.cs:99-102 | the number of allocated ids; on a valid allocator the top id exists |
| `Entities.EntitySystem.Exist` | ECS/EntitySystem.cs:140-154 | on a valid allocator: true exactly for an allocated, non-retired id (negative ids excluded, see Findings) |
| `Entities.EntitySystem.CreateNewEntity` | ECS/EntitySystem.cs:29-45 | with no retired id: returns the old size and grows by it; otherwise returns and dequeues the oldest retired id; the result exists and validity is kept |
| `Entities.EntitySystem.CreateNewEntityUnderId` | ECS/EntitySystem.cs:49-98 | 0 and no change for ids <= 0 or live ids; a retired id leaves the free list and is returned; Size() is appended and Size() + 1 returned; past the top the gap is retired in ascending order; the id exists afterwards |
| `Entities.EntitySystem.TakeRetired` | ECS/EntitySystem.cs:61-69 | unlinking the found node removes exactly that id from the free list and keeps validity |
| `Entities.EntitySystem.RetireGap` | ECS/EntitySystem.cs:87-94 | the id list becomes 0 .. id and the free list gains Size() .. id - 1 in order |
| `Entities.GapRetired` | ECS/EntitySystem.cs:87-94 | the extended free list stays repetition-free, in range, and without the new top |
| `Entities.EntitySystem.Delete` | ECS/EntitySystem.cs:104-138 | false and no change for a non-existing id, where existence is the corrected test (a negative id never exists, unlike the code as written); a non-top id is queued; the top id cascades down to CompactedSize, keeping the retired ids below it; the id no longer exists and validity is kept |
| `Entities.EntitySystem.QueueRetired` | ECS/EntitySystem.cs:108-109 | appending a live non-top id to the free list keeps validity |
| `Entities.EntitySystem.EraseTop` | ECS/EntitySystem.cs:110-111 | dropping the top id leaves the id-list prefix and the free list unchanged |
| `Entities.EntitySystem.CompactTop` | ECS/EntitySystem.cs:113-133 | the loop leaves size CompactedSize and the retired ids below it, a valid allocator, and changes nothing when the top is not retired |
| `Entities.EntitySystem.DropTopIfRetired` | ECS/EntitySystem.cs:115-131 | one turn: the top is dropped exactly when it is retired, keeping the loop's invariant |
| `Entities.EntitySystem.DropRetiredTop` | ECS/EntitySystem.cs:122-127 | EraseLast and Remove shrink both lists by the top id |
| `Entities.EntitySystem.EraseLast` | ECS/EntitySystem.cs:161-167 | on the identity list, Remove(Count - 1) drops the last entry |
| `Entities.RemoveTopId` | ECS/EntitySystem.cs:165 | on 0 .. n - 1, removing the value n - 1 removes the last element |
| `Entities.EntitySystem.Clear` | ECS/EntitySystem.cs:155-160 | back to id 0 alone with nothing retired, valid |
| `Entities.EntitySystem.Test` | ECS/EntitySystem.cs:169-207 | every Debug.Assert of the self-test holds, ending with id 0 alone |
| `Entities.EntitySystem.TestReserve` | ECS/EntitySystem.cs:200-205 | after Clear, reserving id 10 retires ids 1 .. 9 and deleting 10 compacts back to id 0 alone |
| `Entities.EntitySystem.TestDeleteAfterReserve` | ECS/EntitySystem.cs:203-205 | deleting id 10 with ids 1 .. 9 retired cascades to id 0 alone |
| `Entities.CompactedSizeOfGap` | ECS/EntitySystem.cs:200-205 | with 1 .. n - 1 retired, compaction from any size falls back to 1 |
| `Entities.ExistAsWritten` | ECS/EntitySystem.cs:140-154 | the as-written test accepts every negative id that is not retired |
| `Entities.DeleteAsWritten` | ECS/EntitySystem.cs:104-138 | as written: success exactly when the as-written test accepts the id; a rejected id changes nothing; otherwise the id is queued or the top dropped, the size falls to CompactedSize with its top not retired, and the free list holds exactly the old retired ids and the deleted id below the new size |
| `Entities.NegativeIdPoisonsFreeList` | ECS/EntitySystem.cs:104-109 | as written, Delete(-1) on a fresh allocator succeeds and queues -1 |
| `ComponentStore.Component.constructor` | ECS/ComponentSystem.cs:10-23 | a new component carries its ids and family and is not marked |
| `ComponentStore.Component.Valid` | ECS/ComponentSystem.cs:17 | a component is valid exactly when it is not marked for deletion |
| `ComponentStore.WithoutUid` | ECS/ComponentSystem.cs:558 | RemoveAll by unique id keeps exactly the entries with other ids |
| `ComponentStore.WithoutMarked` | ECS/ComponentSystem.cs:589 | RemoveAll of marked entries keeps exactly the unmarked ones |
| `ComponentStore.WithoutMarkedNone` | ECS/ComponentSystem.cs:589 | on a bucket without marked entries the sweep changes nothing |
| `ComponentStore.WithFamily` | ECS/ComponentSystem.cs:375 | FindAll by family keeps exactly the members of the family |
| `ComponentStore.WithEntity` | ECS/ComponentSystem.cs:415 | FindAll by entity keeps exactly the members of the entity |
| `ComponentStore.WithFamilySnoc` | ECS/ComponentSystem.cs:535-537 | scanning one more bucket entry extends the filtered list by it exactly when it is of the family |
| `ComponentStore.FirstWithFamily` | ECS/ComponentSystem.cs:437 | Find by family is null exactly when FindAll is empty, and otherwise its first element |
| `ComponentStore.Appended` | ECS/ComponentSystem.cs:150-160 | the entity index grows with null buckets up to e, bucket e gains c at its end, others stay |
| `ComponentStore.AddedToFamily` | ECS/ComponentSystem.cs:160-163 | family f gains c at its end, created if new; other families stay |
| `ComponentStore.DetachedFromEntity` | ECS/ComponentSystem.cs:565-568 | only bucket e changes, losing the entries with the unique id |
| `ComponentStore.DetachedFromFamily` | ECS/ComponentSystem.cs:556-562 | family f loses the entries with the unique id and goes when that leaves it empty; other families stay |
| `ComponentStore.Pruned` | ECS/ComponentSystem.cs:596-605 | a prefix of the index that is empty or ends with a non-empty bucket, having dropped only null or empty buckets |
| `ComponentStore.Flags` | ECS/ComponentSystem.cs:17 | one entry per slot: marked, a null slot counting as unmarked |
| `ComponentStore.MarkedIdsMarked` | ECS/ComponentSystem.cs:494-497 | the rebuilt free list holds only marked slots from 1 on |
| `ComponentStore.MarkedIdsAscending` | ECS/ComponentSystem.cs:494-497 | the rebuilt free list is ascending |
| `ComponentStore.MarkedIdsComplete` | ECS/ComponentSystem.cs:494-497 | the rebuilt free list holds every marked slot from 1 on |
| `ComponentStore.MarkedIdsNext` | ECS/ComponentSystem.cs:494-497 | one more turn of the rebuild loop appends the slot exactly when it is marked |
| `ComponentStore.MarkedIds` | ECS/ComponentSystem.cs:491-498 | the ids RebuildErasedIDs queues: marked slots from 1 on, in ascending order (its meaning is given by `MarkedIdsMarked`, `MarkedIdsAscending` and `MarkedIdsComplete`) |
| `ComponentStore.Checks` | ECS/ComponentSystem.cs:739-832 | none of the throw sites of Validate fires: marked slots are on the free list, free ids are marked slots, marked components are gone from their entity bucket, buckets hold live components of their entity and family; a null dereference or out-of-range index counts as a throw |
| `ComponentStore.Coherent` | ECS/ComponentSystem.cs:739-832 | what every operation keeps: Validate's checks strengthened to every slot set and numbered by its index, the free list exactly the distinct marked slots from 1 on, and the buckets exactly the live slots, with no empty family |
| `ComponentStore.Inv` | ECS/ComponentSystem.cs:577-594 | Coherent, and the last slot is live, which DeleteComponent's compaction loop restores |
| `ComponentStore.CoherentChecks` | ECS/ComponentSystem.cs:739-832 | a coherent store passes every check of Validate |
| `ComponentStore.Append` | ECS/ComponentSystem.cs:117-128 | the store after appending c: slot added, c filed under its entity and family |
| `ComponentStore.AppendKeepsInv` | ECS/ComponentSystem.cs:113-128 | appending a live component numbered by its slot keeps the invariant |
| `ComponentStore.AppendEntityIndex` | ECS/ComponentSystem.cs:152-158 | ... keeps the entity index listing live slots of that entity |
| `ComponentStore.AppendFamilyIndex` | ECS/ComponentSystem.cs:160-163 | ... keeps the family index listing live slots of that family |
| `ComponentStore.AppendLiveFiled` | ECS/ComponentSystem.cs:150-164 | ... keeps every live slot filed under its entity and family |
| `ComponentStore.PoppedPrefix` | ECS/ComponentSystem.cs:579-593 | one turn of the first compaction loop shortens the array prefix and the free list below it, keeping the final size |
| `ComponentStore.Retired` | ECS/ComponentSystem.cs:552-573 | the store after a live slot is marked: its uid leaves its family bucket (an emptied family goes) and its entity bucket, and the slot is popped when last or queued otherwise |
| `ComponentStore.Truncated` | ECS/ComponentSystem.cs:577-594 | the outcome of the first compaction loop: the array cut to CompactedSize and the free list keeping its ids below it, in order |
| `ComponentStore.Compacted` | ECS/ComponentSystem.cs:577-605 | the outcome of both compaction loops: Truncated, then the trailing null or empty entity buckets dropped |
| `ComponentStore.PoppedTop` | ECS/ComponentSystem.cs:577-593 | one turn of the first compaction loop: the last slot popped and its id removed from the free list |
| `ComponentStore.TruncatedSlots` | ECS/ComponentSystem.cs:577-594 | after the first loop the slot and free-list conditions hold and the last slot is live |
| `ComponentStore.LiveBelowTruncated` | ECS/ComponentSystem.cs:577 | the first loop never pops a live slot |
| `ComponentStore.TruncatedIndexes` | ECS/ComponentSystem.cs:577-594 | after the first loop both indexes still list exactly live slots |
| `ComponentStore.TruncatedKeepsInv` | ECS/ComponentSystem.cs:577-594 | the first loop turns a coherent store into one with the full invariant |
| `ComponentStore.PruneStep` | ECS/ComponentSystem.cs:599-602 | one turn of the second loop keeps the store coherent |
| `ComponentStore.PrunedKeepsCoherent` | ECS/ComponentSystem.cs:596-605 | the second loop keeps the store coherent |
| `ComponentStore.CompactedKeepsInv` | ECS/ComponentSystem.cs:577-605 | both loops restore the invariant |
| `ComponentStore.MarkedFlagsPrefix` | ECS/ComponentSystem.cs:571-593 | cutting the flags after a mark commutes with popping slots |
| `ComponentStore.RetireKeepsCoherent` | ECS/ComponentSystem.cs:554-574 | marking and detaching a live slot other than 0 leaves a coherent store |
| `ComponentStore.RetireSlots` | ECS/ComponentSystem.cs:570-573 | ... the marked slot is popped or queued, so marked slots are on the free list |
| `ComponentStore.RetireEntityIndex` | ECS/ComponentSystem.cs:565-568 | ... the entity bucket no longer lists it |
| `ComponentStore.RetireFamilyIndex` | ECS/ComponentSystem.cs:556-562 | ... the family bucket no longer lists it and no family is left empty |
| `ComponentStore.RetireLiveFiled` | ECS/ComponentSystem.cs:554-574 | ... every other live slot stays filed |
| `ComponentStore.DeleteKeepsInv` | ECS/ComponentSystem.cs:542-609 | deleting a live slot other than 0 keeps the invariant |
| `ComponentStore.DeleteUnfiles` | ECS/ComponentSystem.cs:542-609 | afterwards no bucket lists the deleted id, and a surviving slot is on the free list |
| `ComponentStore.FlagsPrefix` | ECS/ComponentSystem.cs:592 | popping slots pops their flags |
| `ComponentStore.FlagsSnoc` | ECS/ComponentSystem.cs:120 | appending a slot appends its flag |
| `ComponentStore.Installed` | ECS/ComponentSystem.cs:220-236 | Replace's store: the array grows with null slots up to the id, which holds the new component |
| `ComponentStore.InstalledAtEnd` | ECS/ComponentSystem.cs:220-236 | installing right at the end is appending |
| `ComponentStore.InstalledKeepsInv` | ECS/ComponentSystem.cs:214-239 | installing a live component in the next slot keeps the invariant |
| `ComponentStore.InstalledPastEndFails` | ECS/ComponentSystem.cs:222-223 | installing past the end leaves a null slot that Validate dereferences |
| `ComponentStore.AppendAll` | ECS/ComponentSystem.cs:172-178 | the store after attaching the first n components: the array gains them in order |
| `ComponentStore.AppendAllNext` | ECS/ComponentSystem.cs:174-175 | one more turn of the attach loop appends the next component |
| `ComponentStore.AppendAllKeepsInv` | ECS/ComponentSystem.cs:172-178 | attaching a batch numbered from the end on keeps the invariant |
| `ComponentStore.AppendAllStep` | ECS/ComponentSystem.cs:174-175 | one more component of the batch keeps the invariant |
| `ComponentStore.Falses` | ECS/ComponentSystem.cs:172-178 | the flags of the attached slots: n unset flags |
| `ComponentStore.FalsesSnoc` | ECS/ComponentSystem.cs:174-175 | one more attached slot adds one unset flag |
| `ComponentStore.FlagsAttached` | ECS/ComponentSystem.cs:172-178 | the flags after an attach are the old ones followed by unset ones |
| `ComponentStore.DequeuedFails` | ECS/ComponentSystem.cs:131-134 | dequeuing a free id of a coherent store without reusing its slot makes Validate fail |
| `ComponentStore.RebuildSameIds` | ECS/ComponentSystem.cs:491-499 | on a coherent store the rebuilt list holds the same ids as the free list |
| `ComponentStore.RebuildKeepsInv` | ECS/ComponentSystem.cs:491-499 | rebuilding the free list keeps the invariant |
| `ComponentStore.SameIndexes` | ECS/ComponentSystem.cs:491-499 | the index conditions do not depend on the free list |
| `ComponentStore.GrownKeepsInv` | ECS/ComponentSystem.cs:343-344 | growing the entity index with null buckets keeps the invariant |
| `ComponentStore.BucketUnmarked` | ECS/ComponentSystem.cs:587-590 | on a coherent store no entity bucket holds a marked entry |
| `ComponentStore.CoherentCompactable` | ECS/ComponentSystem.cs:577-594 | a coherent store meets everything the first compaction loop needs |
| `ComponentStore.ComponentSystem.ValidFrom` | ECS/ComponentSystem.cs:739-832 | the invariant on the current store and flags is validity |
| `ComponentStore.ComponentSystem.CompactedValid` | ECS/ComponentSystem.cs:577-605 | compacting a coherent store yields a valid one |
| `ComponentStore.ComponentSystem.AppendedValid` | ECS/ComponentSystem.cs:113-128 | appending a live component numbered by its slot keeps validity |
| `ComponentStore.ComponentSystem.AttachedValid` | ECS/ComponentSystem.cs:172-178 | attaching a batch numbered from the end on keeps validity |
| `ComponentStore.ComponentSystem.ValidPassesValidate` | ECS/ComponentSystem.cs:739-832 | a valid system passes Validate |
| `ComponentStore.ComponentSystem.Validate` | ECS/ComponentSystem.cs:739-832 | true exactly when `Checks` holds of the current store, that is when no throw site fires |
| `ComponentStore.ComponentSystem.constructor` | ECS/ComponentSystem.cs:57-73 | an empty, valid system with a fresh allocator |
| `ComponentStore.ComponentSystem.Clear` | ECS/ComponentSystem.cs:455-465 | everything emptied and the allocator reset; valid |
| `ComponentStore.ComponentSystem.ValidateEntity` | ECS/ComponentSystem.cs:713-724 | an entity id is valid exactly when it is positive; the throwing form is a precondition |
| `ComponentStore.ComponentSystem.ValidateFamily` | ECS/ComponentSystem.cs:726-737 | a known family of a valid system has a first component |
| `ComponentStore.ComponentSystem.RefCount` | ECS/ComponentSystem.cs:300-310 | 0 exactly for ids at or past the array size, 1 otherwise, negative ids included |
| `ComponentStore.ComponentSystem.GetComponent` | ECS/ComponentSystem.cs:318-324 | on a valid system: null exactly past the end, otherwise the component with that unique id |
| `ComponentStore.ComponentSystem.GetComponentsByEntity` | ECS/ComponentSystem.cs:332-337 | the bucket, whose members are live components of the entity; the list unchanged without one; completeness is `GetComponentsByEntityComplete` |
| `ComponentStore.ComponentSystem.AppendComponentsByEntity` | ECS/ComponentSystem.cs:339-347 | the index grows to cover the entity; the bucket is appended when it exists, otherwise AddRange fails with the list unchanged; validity is kept |
| `ComponentStore.ComponentSystem.GrowEntityIndex` | ECS/ComponentSystem.cs:343-344 | Resize of the entity index with null buckets keeps validity |
| `ComponentStore.ComponentSystem.GetComponentsByFamily` | ECS/ComponentSystem.cs:355-359 | on a valid system: a non-empty list of live components of the family; completeness is `GetComponentsByFamilyComplete` |
| `ComponentStore.ComponentSystem.GetComponentsByEntityAndFamily` | ECS/ComponentSystem.cs:368-379 | appends members of the family from the entity's bucket, after the caller's list; nothing for an invalid entity or unknown family; on a valid system they are live components of the entity; completeness is `GetComponentsByEntityAndFamilyComplete` |
| `ComponentStore.ComponentSystem.GetComponentsByFamilyAndEntity` | ECS/ComponentSystem.cs:410-417 | appends members of the entity from the family's bucket, after the caller's list; nothing for an invalid entity or unknown family; on a valid system they are live components of the family; completeness is `GetComponentsByFamilyAndEntityComplete` |
| `ComponentStore.ComponentSystem.QueriesAgree` | ECS/ComponentSystem.cs:368-417 | on a valid system both queries select the same components |
| `ComponentStore.ComponentSystem.GetComponentsByEntityComplete` | ECS/ComponentSystem.cs:332-337 | on a valid system every live component of a valid entity is in the bucket returned, and the bucket exists |
| `ComponentStore.ComponentSystem.GetComponentsByFamilyComplete` | ECS/ComponentSystem.cs:355-359 | on a valid system the family of every live component is known and its bucket holds that component |
| `ComponentStore.ComponentSystem.GetComponentsByEntityAndFamilyComplete` | ECS/ComponentSystem.cs:368-379 | on a valid system every live component of the valid entity and the family is among those appended |
| `ComponentStore.ComponentSystem.GetComponentsByFamilyAndEntityComplete` | ECS/ComponentSystem.cs:410-417 | on a valid system every live component of the valid entity and the family is among those appended |
| `ComponentStore.ComponentSystem.FindFirstComponentByEntityAndFamily` | ECS/ComponentSystem.cs:428-440 | null exactly when the entity-and-family query is empty, otherwise its first element |
| `ComponentStore.ComponentSystem.FindFirstComponentByFamily` | ECS/ComponentSystem.cs:442-449 | the head of the family's bucket; on a valid system a live member of the family |
| `ComponentStore.ComponentSystem.Get` | ECS/ComponentSystem.cs:477-485 | on a valid system a non-null result is a live component of that entity and family; `GetFindsLive` gives the converse |
| `ComponentStore.ComponentSystem.GetFindsLive` | ECS/ComponentSystem.cs:477-485 | on a valid system Get is non-null whenever the valid entity owns a live component of the family |
| `ComponentStore.ComponentSystem.CountComponentsByEntityAndFamily` | ECS/ComponentSystem.cs:530-540 | the counting loop returns the length of the entity-and-family query |
| `ComponentStore.ComponentSystem.Size` | ECS/ComponentSystem.cs:506-509 | the slot count; on a valid system the last slot is live |
| `ComponentStore.ComponentSystem.EntitySize` | ECS/ComponentSystem.cs:511-514 | the allocator's size |
| `ComponentStore.ComponentSystem.ErasedIDSize` | ECS/ComponentSystem.cs:516-519 | the free-list length; on a valid system zero exactly when no slot is marked |
| `ComponentStore.ComponentSystem.FreeListEmptyIff` | ECS/ComponentSystem.cs:739-764 | on a valid system the free list is empty exactly when no slot is marked |
| `ComponentStore.ComponentSystem.RebuildErasedIDs` | ECS/ComponentSystem.cs:491-499 | the free list becomes the ascending marked slots from 1 on; nothing else changes |
| `ComponentStore.ComponentSystem.RebuiltValid` | ECS/ComponentSystem.cs:491-499 | rebuilding from a valid system keeps it valid and keeps the same ids |
| `ComponentStore.ComponentSystem.CreateNewEntityUnderId` | ECS/ComponentSystem.cs:94-99 | the allocator's reservation: 0 and no change for a live id; a retired id taken off the free list; Size() appended and Size() + 1 returned; past the top the gap retired in ascending order; the id exists afterwards and validity is kept |
| `ComponentStore.ComponentSystem.AddToComponentArray` | ECS/ComponentSystem.cs:150-164 | c is filed under its entity (index grown, bucket created) and its family (bucket created) |
| `ComponentStore.ComponentSystem.AttachComponent` | ECS/ComponentSystem.cs:142-148 | appends c unchanged, returns true; validity kept when c is live and numbered by the new slot |
| `ComponentStore.ComponentSystem.AttachArray` | ECS/ComponentSystem.cs:172-178 | the store after attaching every component in order; validity kept for a live batch numbered from the end on |
| `ComponentStore.ComponentSystem.Replace` | ECS/ComponentSystem.cs:214-239 | null and no change for a slot id; otherwise a new live component installed at the id |
| `ComponentStore.ComponentSystem.AppendNew` | ECS/ComponentSystem.cs:115-129 | with an empty free list: a fresh live component of the family and entity, numbered by the old array size, is appended to the array and filed in both indexes; validity kept |
| `ComponentStore.ComponentSystem.CreateComponent` | ECS/ComponentSystem.cs:111-135 | empty free list: a new live component appended at the old size, validity kept; otherwise the oldest free id is dequeued and, on a valid system, null is returned and Validate fails |
| `ComponentStore.ComponentSystem.DuplicateComponent` | ECS/ComponentSystem.cs:676-698 | a fresh component of the new entity, not the source one, created as CreateComponent does; validity kept |
| `ComponentStore.ComponentSystem.ResetComponent` | ECS/ComponentSystem.cs:700-711 | marks exactly when the slot is in range, not 0 and unmarked, and reports it |
| `ComponentStore.ComponentSystem.PopMarkedTop` | ECS/ComponentSystem.cs:579-593 | one turn of the first compaction loop: the last id leaves the free list and the slot is popped, the sweep changing nothing |
| `ComponentStore.ComponentSystem.PopMarkedTopFrom` | ECS/ComponentSystem.cs:579-593 | the same turn keeps the loop's relation to its starting store |
| `ComponentStore.ComponentSystem.CompactTail` | ECS/ComponentSystem.cs:577-594 | the first loop yields the truncated store |
| `ComponentStore.ComponentSystem.PruneEntityTail` | ECS/ComponentSystem.cs:596-605 | the second loop yields the pruned entity index |
| `ComponentStore.ComponentSystem.Compact` | ECS/ComponentSystem.cs:577-605 | both loops on a coherent store yield the compacted store, which is valid |
| `ComponentStore.ComponentSystem.Detach` | ECS/ComponentSystem.cs:556-573 | the store becomes Retired: unfiled, then popped or queued |
| `ComponentStore.ComponentSystem.Unfile` | ECS/ComponentSystem.cs:556-568 | both indexes lose the entries with the unique id |
| `ComponentStore.ComponentSystem.MarkSlot` | ECS/ComponentSystem.cs:554 | ResetComponent changes only that slot's flag |
| `ComponentStore.ComponentSystem.CoherentPrefix` | ECS/ComponentSystem.cs:570-571 | popping the marked slot keeps coherence with the cut flags |
| `ComponentStore.ComponentSystem.MarkAndDetach` | ECS/ComponentSystem.cs:554-574 | the store is retired exactly when the slot was marked now, and stays coherent |
| `ComponentStore.ComponentSystem.DeleteComponent` | ECS/ComponentSystem.cs:542-609 | true and no change past the end; false and no change for family 0; otherwise true, the compacted (retired when newly marked) store, the component marked when not slot 0, and validity kept |

## Left out

- `DeleteEntity` and `Release` are not modelled: they are private, never called and broken.
  - `Release` passes its `RefCount` gate only for an id at or past the end of the array, and then indexes the array out of range. For every other id it returns false.
  - `DeleteEntity` returns false when the allocator refuses the id. Otherwise it takes the entity's bucket itself (not a copy), queues every id in it, and erases family entries at the wrong index (`i` instead of `u`).
  - It then clears that bucket before its reset loop, so no component is marked. Its compaction loop pops an empty array. When the last slot is live that loop does not run, and it returns true with ids queued whose slots are not marked.
- The container overload of `GetComponentsByEntityAndFamily` is not modelled: its body is commented out.
- The finalizers of both classes are garbage-collector hooks. They are not modelled.
- The driver program (tank demo, random numbers, console output) and the benchmark tester are not part of this model.
- Concurrency is not modelled. The code is single-threaded.
- Returned lists are values. `GetComponentsByEntity` and `GetComponentsByFamily` hand out the bucket itself in the source, so a caller's later changes would alias the index. That aliasing is not modelled.
- Generic component kinds built by reflection are replaced by an integer family tag passed in.
- `Component` ids are fixed at construction. The source assigns them right after `new` and never again.
- Exceptions are preconditions. This covers `ValidateEntity`/`ValidateFamily` throws, indexes out of range (negative ids included) and null dereferences. The calls that throw are thereby excluded rather than modelled.
- `AppendComponentsByEntity` is the exception: the index has already grown when `AddRange(null)` throws. So that case is a `false` result with the grown index kept.
- DeleteComponent: modelled only from valid systems. Its postcondition does not describe a deletion on a store that already breaks the invariant.
- CompactTail: requires what a coherent store gives the first compaction loop: slots numbered by index, the free list equal to the marked slots, and buckets without marked entries.
  - Under those conditions the loop's sweep of marked bucket entries is shown to change nothing.
  - A sweep that removes something is not modelled.
- Replace: has no validity claim of its own. Installing at the next slot keeps the invariant (`InstalledKeepsInv`). Installing past the end makes `Validate` fail (`InstalledPastEndFails`). `CreateComponent` states what that means for its caller.
- `Validate` keeps its own order of checks; which check throws first is not modelled, only whether one does.

## Findings

| source | as written | input that shows it | evidently intended | confidence | as-written member | corrected member |
|---|---|---|---|---|---|---|
| ECS/EntitySystem.cs:140-154 | `Exist` checks only `parentId < Entities.Count`, so a negative id exists unless it is retired | `Delete(-1)` on a fresh allocator returns true and queues -1; the next `CreateNewEntity` writes `Entities[-1]` | ids below 0 never exist | not executed | `Entities.NegativeIdPoisonsFreeList` | `Entities.EntitySystem.Exist` |
