/** The component store of ECS/ComponentSystem.cs.  Components are shared
    objects: the same Component is referenced from its slot of the dense
    array, from the bucket of its entity and from the bucket of its family,
    so marking it for deletion is seen through all three. */
module ComponentStore {
  import opened Lists
  import opened Entities

  /** A component: its slot id, owning entity, family tag and soft-deletion
      flag.  The family tag stands for the component's concrete type.  The
      source assigns the two ids right after construction and never changes
      them afterwards, so they are fixed at construction here; only the
      deletion flag changes in place. */
  class Component {
    const uniqueId: int
    const entityId: int
    const familyId: int
    var markedForDeletion: bool

    /** A component of the given family, not marked. */
    constructor (familyId: int, entityId: int, uniqueId: int)
      ensures this.familyId == familyId && this.entityId == entityId && this.uniqueId == uniqueId
      ensures !markedForDeletion
    {
      this.familyId := familyId;
      this.entityId := entityId;
      this.uniqueId := uniqueId;
      markedForDeletion := false;
    }

    /** Not marked for deletion. */
    predicate Valid()
      reads this
    {
      !markedForDeletion
    }
  }

  /** List<Component>.RemoveAll(com => com.mUniqueId == uid). */
  function WithoutUid(s: seq<Component>, uid: int): (r: seq<Component>)
    ensures |r| <= |s|
    ensures forall k :: 0 <= k < |r| ==> r[k] in s && r[k].uniqueId != uid
    ensures forall k :: 0 <= k < |s| && s[k].uniqueId != uid ==> s[k] in r
  {
    if s == [] then []
    else
      assert s == [s[0]] + s[1..];
      (if s[0].uniqueId == uid then [] else [s[0]]) + WithoutUid(s[1..], uid)
  }

  /** List<Component>.RemoveAll(com => com.MarkedForDeletion). */
  function WithoutMarked(s: seq<Component>): (r: seq<Component>)
    reads s
    ensures |r| <= |s|
    ensures forall k :: 0 <= k < |r| ==> r[k] in s && !r[k].markedForDeletion
    ensures forall k :: 0 <= k < |s| && !s[k].markedForDeletion ==> s[k] in r
  {
    if s == [] then []
    else
      assert s == [s[0]] + s[1..];
      (if s[0].markedForDeletion then [] else [s[0]]) + WithoutMarked(s[1..])
  }

  /** No member of s is marked. */
  ghost predicate Unmarked(s: seq<Component>)
    reads s
  {
    forall k | 0 <= k < |s| :: !s[k].markedForDeletion
  }

  /** Removing the marked members of a list without any is a no-op. */
  lemma {:induction false} WithoutMarkedNone(s: seq<Component>)
    requires Unmarked(s)
    ensures WithoutMarked(s) == s
  {
    if s != [] {
      WithoutMarkedNone(s[1..]);
      assert s == [s[0]] + s[1..];
    }
  }

  /** List<Component>.FindAll(com => com.mFamilyId == familyId). */
  function WithFamily(s: seq<Component>, familyId: int): (r: seq<Component>)
    ensures |r| <= |s|
    ensures forall k :: 0 <= k < |r| ==> r[k] in s && r[k].familyId == familyId
    ensures forall k :: 0 <= k < |s| && s[k].familyId == familyId ==> s[k] in r
  {
    if s == [] then []
    else
      assert s == [s[0]] + s[1..];
      (if s[0].familyId == familyId then [s[0]] else []) + WithFamily(s[1..], familyId)
  }

  /** List<Component>.FindAll(com => com.mEntityId == entityId). */
  function WithEntity(s: seq<Component>, entityId: int): (r: seq<Component>)
    ensures |r| <= |s|
    ensures forall k :: 0 <= k < |r| ==> r[k] in s && r[k].entityId == entityId
    ensures forall k :: 0 <= k < |s| && s[k].entityId == entityId ==> s[k] in r
  {
    if s == [] then []
    else
      assert s == [s[0]] + s[1..];
      (if s[0].entityId == entityId then [s[0]] else []) + WithEntity(s[1..], entityId)
  }

  /** List<Component>.Find(com => com.mFamilyId == familyId): the first
      member of the family, or null. */
  function FirstWithFamily(s: seq<Component>, familyId: int): (r: Component?)
    ensures r == null <==> WithFamily(s, familyId) == []
    ensures r != null ==> r == WithFamily(s, familyId)[0]
  {
    if s == [] then null
    else if s[0].familyId == familyId then s[0]
    else FirstWithFamily(s[1..], familyId)
  }

  /** A bucket's contents; a null bucket holds nothing. */
  function Bucket(b: Option<seq<Component>>): seq<Component>
  {
    if b.Some? then b.value else []
  }

  /** The entity index after AddToComponentArray files c under entity e:
      grown with null buckets up to e, and c appended to bucket e. */
  function Appended(ec: seq<Option<seq<Component>>>, e: nat, c: Component): (r: seq<Option<seq<Component>>>)
    ensures |r| == if e < |ec| then |ec| else e + 1
    ensures r[e] == Some(Bucket(if e < |ec| then ec[e] else None) + [c])
    ensures forall i :: 0 <= i < |r| && i != e ==> r[i] == if i < |ec| then ec[i] else None
  {
    var grown := if e >= |ec| then Resize(ec, e + 1, None) else ec;
    grown[e := Some(Bucket(grown[e]) + [c])]
  }

  /** The family map after AddToComponentArray files c under family f. */
  function AddedToFamily(m: map<int, seq<Component>>, f: int, c: Component): (r: map<int, seq<Component>>)
    ensures r.Keys == m.Keys + {f}
    ensures r[f] == (if f in m then m[f] else []) + [c]
    ensures forall g :: g in m && g != f ==> r[g] == m[g]
  {
    m[f := (if f in m then m[f] else []) + [c]]
  }

  /** The entity index after DeleteComponent removes the entries with
      unique id uid from bucket e (ECS/ComponentSystem.cs:565-568). */
  function DetachedFromEntity(ec: seq<Option<seq<Component>>>, e: int, uid: int): (r: seq<Option<seq<Component>>>)
    ensures |r| == |ec|
    ensures 0 <= e < |ec| && ec[e].Some? ==> r[e] == Some(WithoutUid(ec[e].value, uid))
    ensures forall i :: 0 <= i < |ec| && (i != e || ec[i].None?) ==> r[i] == ec[i]
  {
    if 0 <= e < |ec| && ec[e].Some? then ec[e := Some(WithoutUid(ec[e].value, uid))] else ec
  }

  /** The family map after DeleteComponent removes the entries with unique
      id uid from family f, dropping the family once its bucket is empty
      (ECS/ComponentSystem.cs:556-562). */
  function DetachedFromFamily(m: map<int, seq<Component>>, f: int, uid: int): (r: map<int, seq<Component>>)
    ensures f !in m ==> r == m
    ensures f in m ==> r.Keys == if WithoutUid(m[f], uid) == [] then m.Keys - {f} else m.Keys
    ensures f in r ==> r[f] == WithoutUid(m[f], uid)
    ensures forall g :: g in m && g != f ==> g in r && r[g] == m[g]
  {
    if f in m then
      var b := WithoutUid(m[f], uid);
      if b == [] then m - {f} else m[f := b]
    else m
  }

  /** The entity index after the second loop of DeleteComponent: trailing
      null or empty buckets are dropped. */
  function Pruned(ec: seq<Option<seq<Component>>>): (r: seq<Option<seq<Component>>>)
    ensures |r| <= |ec| && r == ec[..|r|]
    ensures |r| == 0 || (r[|r| - 1].Some? && r[|r| - 1].value != [])
    ensures forall i :: |r| <= i < |ec| ==> ec[i].None? || ec[i].value == []
  {
    if |ec| > 0 && (ec[|ec| - 1].None? || ec[|ec| - 1].value == []) then
      var p := Pruned(ec[..|ec| - 1]);
      assert ec[..|ec| - 1][..|p|] == ec[..|p|];
      p
    else
      ec
  }

  /** The deletion flags of the slots, read through the array; a null slot
      counts as not marked. */
  ghost function Flags(comps: seq<Component?>): (ms: seq<bool>)
    reads comps
    ensures |ms| == |comps|
    ensures forall i :: 0 <= i < |comps| ==> ms[i] == (comps[i] != null && comps[i].markedForDeletion)
  {
    if comps == [] then []
    else
      var n := |comps| - 1;
      Flags(comps[..n]) + [comps[n] != null && comps[n].markedForDeletion]
  }

  /** The ids 1 .. n - 1 whose flag is set, in the order RebuildErasedIDs
      visits them; MarkedIdsMarked, MarkedIdsAscending and
      MarkedIdsComplete state what it holds. */
  function MarkedIds(ms: seq<bool>, n: nat): seq<int>
    requires n <= |ms|
  {
    if n <= 1 then [] else MarkedIds(ms, n - 1) + if ms[n - 1] then [n - 1] else []
  }

  /** The rebuilt free list holds only marked ids from 1 below n. */
  lemma {:induction false} MarkedIdsMarked(ms: seq<bool>, n: nat)
    requires n <= |ms|
    ensures forall k :: 0 <= k < |MarkedIds(ms, n)| ==> 1 <= MarkedIds(ms, n)[k] < n && ms[MarkedIds(ms, n)[k]]
  {
    if n > 1 {
      MarkedIdsMarked(ms, n - 1);
      var p, r := MarkedIds(ms, n - 1), MarkedIds(ms, n);
      assert r == p + if ms[n - 1] then [n - 1] else [];
      forall k | 0 <= k < |r| ensures 1 <= r[k] < n && ms[r[k]] {
        if k < |p| { assert r[k] == p[k]; }
      }
    }
  }

  /** The rebuilt free list is ascending. */
  lemma {:induction false} MarkedIdsAscending(ms: seq<bool>, n: nat)
    requires n <= |ms|
    ensures forall j, k :: 0 <= j < k < |MarkedIds(ms, n)| ==> MarkedIds(ms, n)[j] < MarkedIds(ms, n)[k]
  {
    if n > 1 {
      MarkedIdsAscending(ms, n - 1);
      MarkedIdsMarked(ms, n - 1);
      var p, r := MarkedIds(ms, n - 1), MarkedIds(ms, n);
      assert r == p + if ms[n - 1] then [n - 1] else [];
      forall j, k | 0 <= j < k < |r| ensures r[j] < r[k] {
        assert r[j] == p[j];
        if k < |p| { assert r[k] == p[k]; }
      }
    }
  }

  /** The rebuilt free list holds every marked id from 1 below n. */
  lemma {:induction false} MarkedIdsComplete(ms: seq<bool>, n: nat)
    requires n <= |ms|
    ensures forall i :: 1 <= i < n && ms[i] ==> i in MarkedIds(ms, n)
  {
    if n > 1 {
      MarkedIdsComplete(ms, n - 1);
      var p, r := MarkedIds(ms, n - 1), MarkedIds(ms, n);
      assert r == p + if ms[n - 1] then [n - 1] else [];
      forall i | 1 <= i < n && ms[i] ensures i in r {
        if i < n - 1 { assert i in p; } else { assert r[|r| - 1] == i; }
      }
    }
  }

  /** One more slot for RebuildErasedIDs to look at. */
  lemma MarkedIdsNext(ms: seq<bool>, n: nat)
    requires 1 <= n < |ms|
    ensures MarkedIds(ms, n + 1) == MarkedIds(ms, n) + if ms[n] then [n] else []
  {
  }

  /** The four structures of a ComponentSystem, as values. */
  datatype Store = Store(
    components: seq<Component?>,
    erasedIds: seq<int>,
    entityComponents: seq<Option<seq<Component>>>,
    familyComponents: map<int, seq<Component>>)

  /** Every component reachable from the four structures. */
  ghost function Referenced(st: Store): set<Component>
  {
    (set i | 0 <= i < |st.components| && st.components[i] != null :: st.components[i])
    + (set e, u | 0 <= e < |st.entityComponents| && st.entityComponents[e].Some? &&
                  0 <= u < |st.entityComponents[e].value| :: st.entityComponents[e].value[u])
    + (set f, j | f in st.familyComponents && 0 <= j < |st.familyComponents[f]| ::
         st.familyComponents[f][j])
  }

  /** The checks of Validate (ECS/ComponentSystem.cs:739-832): none of them
      throws.  A null dereference or an index out of range counts as a throw. */
  predicate Checks(st: Store)
    reads Referenced(st)
  {
    // #1: slots from 1 on are set, carry their index as id, and are on
    // the free list when marked
    && (forall i | 1 <= i < |st.components| ::
          st.components[i] != null && (st.components[i].markedForDeletion ==> i in st.erasedIds) &&
          st.components[i].uniqueId == i)
    // #2 and #3: free ids are slots in range, and marked
    && (forall k | 0 <= k < |st.erasedIds| ::
          0 <= st.erasedIds[k] < |st.components| && st.components[st.erasedIds[k]] != null &&
          st.components[st.erasedIds[k]].markedForDeletion)
    // #4: a marked component is gone from its entity bucket
    && (forall i | 1 <= i < |st.components| && st.components[i] != null && st.components[i].markedForDeletion ::
          st.components[i].entityId < |st.entityComponents| ==>
            0 <= st.components[i].entityId &&
            (st.entityComponents[st.components[i].entityId].Some? ==>
               forall u | 0 <= u < |st.entityComponents[st.components[i].entityId].value| ::
                 st.entityComponents[st.components[i].entityId].value[u].uniqueId != st.components[i].uniqueId))
    // #5 and the unnamed entity check: entity buckets hold live
    // components of that entity
    && (forall e, u | 0 <= e < |st.entityComponents| && st.entityComponents[e].Some? &&
                      0 <= u < |st.entityComponents[e].value| ::
          st.entityComponents[e].value[u].entityId == e && !st.entityComponents[e].value[u].markedForDeletion)
    // the two family checks: family buckets hold live components of that
    // family
    && (forall f, j | f in st.familyComponents && 0 <= j < |st.familyComponents[f]| ::
          st.familyComponents[f][j].familyId == f && !st.familyComponents[f][j].markedForDeletion)
  }

  /*
   * The representation invariant is stated on the four structures and the
   * slot flags `ms` as values; Valid() applies it to Flags(components).
   */

  /** c sits in the slot its unique id names. */
  ghost predicate InSlot(st: Store, c: Component)
  {
    0 <= c.uniqueId < |st.components| && st.components[c.uniqueId] == c
  }

  /** c is filed under its entity and its family. */
  ghost predicate Filed(st: Store, c: Component)
  {
    && 0 <= c.entityId < |st.entityComponents|
    && st.entityComponents[c.entityId].Some? && c in st.entityComponents[c.entityId].value
    && c.familyId in st.familyComponents && c in st.familyComponents[c.familyId]
  }

  /** Every slot is set, carries its index as id and a non-negative entity
      id, and is on the free list when marked. */
  ghost predicate SlotsOk(st: Store, ms: seq<bool>)
  {
    && |ms| == |st.components|
    && forall i | 0 <= i < |st.components| ::
         st.components[i] != null && st.components[i].uniqueId == i && st.components[i].entityId >= 0 &&
         (ms[i] ==> i in st.erasedIds)
  }

  /** The free list holds distinct marked slot ids from 1 on. */
  ghost predicate FreeListOk(st: Store, ms: seq<bool>)
    requires |ms| == |st.components|
  {
    && Distinct(st.erasedIds)
    && forall k | 0 <= k < |st.erasedIds| :: 1 <= st.erasedIds[k] < |st.components| && ms[st.erasedIds[k]]
  }

  /** Bucket e of the entity index holds live slots of entity e. */
  ghost predicate EntityIndexOk(st: Store, ms: seq<bool>)
    requires |ms| == |st.components|
  {
    forall e, u | 0 <= e < |st.entityComponents| && st.entityComponents[e].Some? &&
                  0 <= u < |st.entityComponents[e].value| ::
      st.entityComponents[e].value[u].entityId == e && InSlot(st, st.entityComponents[e].value[u]) &&
      !ms[st.entityComponents[e].value[u].uniqueId]
  }

  /** The bucket of family f is not empty and holds live slots of family f. */
  ghost predicate FamilyIndexOk(st: Store, ms: seq<bool>)
    requires |ms| == |st.components|
  {
    && (forall f | f in st.familyComponents :: st.familyComponents[f] != [])
    && forall f, j | f in st.familyComponents && 0 <= j < |st.familyComponents[f]| ::
         st.familyComponents[f][j].familyId == f && InSlot(st, st.familyComponents[f][j]) &&
         !ms[st.familyComponents[f][j].uniqueId]
  }

  /** Every live slot is filed under its entity and its family. */
  ghost predicate LiveFiled(st: Store, ms: seq<bool>)
    requires |ms| == |st.components|
  {
    forall i | 0 <= i < |st.components| && st.components[i] != null && !ms[i] :: Filed(st, st.components[i])
  }

  /** What every operation keeps besides the checks: slot 0 is set as well,
      entity ids are not negative, the free list is the set of marked slots
      without repetitions, the buckets list exactly the live slots, and an
      empty family bucket is dropped from the map. */
  ghost predicate Coherent(st: Store, ms: seq<bool>)
  {
    && SlotsOk(st, ms) && FreeListOk(st, ms) && EntityIndexOk(st, ms) && FamilyIndexOk(st, ms)
    && LiveFiled(st, ms)
  }

  /** Coherent, and the last slot is live: the array never ends with
      deleted components. */
  ghost predicate Inv(st: Store, ms: seq<bool>)
  {
    Coherent(st, ms) && (|ms| > 0 ==> !ms[|ms| - 1])
  }

  /** A listed component's own flag is the flag of its slot. */
  lemma InSlotFlag(st: Store, c: Component)
    requires InSlot(st, c)
    ensures Flags(st.components)[c.uniqueId] == c.markedForDeletion
  {
  }

  /** A coherent store, with the flags its slots carry, passes every check
      of Validate. */
  lemma CoherentChecks(st: Store)
    requires Coherent(st, Flags(st.components))
    ensures Checks(st)
  {
    var ms := Flags(st.components);
    forall i | 1 <= i < |st.components| && st.components[i].markedForDeletion &&
               0 <= st.components[i].entityId < |st.entityComponents| &&
               st.entityComponents[st.components[i].entityId].Some?
      ensures forall u | 0 <= u < |st.entityComponents[st.components[i].entityId].value| ::
        st.entityComponents[st.components[i].entityId].value[u].uniqueId != st.components[i].uniqueId
    {
      var b := st.entityComponents[st.components[i].entityId].value;
      forall u | 0 <= u < |b| ensures b[u].uniqueId != i {
        assert InSlot(st, b[u]) && !ms[b[u].uniqueId];
      }
    }
    forall e, u | 0 <= e < |st.entityComponents| && st.entityComponents[e].Some? &&
                  0 <= u < |st.entityComponents[e].value|
      ensures !st.entityComponents[e].value[u].markedForDeletion
    {
      InSlotFlag(st, st.entityComponents[e].value[u]);
    }
    forall f, j | f in st.familyComponents && 0 <= j < |st.familyComponents[f]|
      ensures !st.familyComponents[f][j].markedForDeletion
    {
      InSlotFlag(st, st.familyComponents[f][j]);
    }
  }

  /** The store after c is appended to the array and filed
      (AttachComponent, and the append path of CreateComponent). */
  function Append(st: Store, c: Component): (st': Store)
    requires c.entityId >= 0
    ensures st'.components == st.components + [c] && st'.erasedIds == st.erasedIds
    ensures st'.entityComponents == Appended(st.entityComponents, c.entityId, c)
    ensures st'.familyComponents == AddedToFamily(st.familyComponents, c.familyId, c)
  {
    Store(st.components + [c], st.erasedIds,
          Appended(st.entityComponents, c.entityId, c),
          AddedToFamily(st.familyComponents, c.familyId, c))
  }

  /** Filing a live component in a new last slot whose index is its unique
      id keeps the invariant: the append path shared by CreateComponent,
      AttachComponent and Replace. */
  lemma AppendKeepsInv(st: Store, ms: seq<bool>, c: Component)
    requires Inv(st, ms)
    requires c.uniqueId == |st.components| && c.entityId >= 0
    ensures Inv(Append(st, c), ms + [false])
  {
    var st', ms' := Append(st, c), ms + [false];
    var n := |st.components|;
    assert forall i | 0 <= i < n :: st'.components[i] == st.components[i] && ms'[i] == ms[i];
    assert st'.components[n] == c && !ms'[n];
    assert SlotsOk(st', ms');
    assert FreeListOk(st', ms');
    AppendEntityIndex(st, ms, c);
    AppendFamilyIndex(st, ms, c);
    AppendLiveFiled(st, ms, c);
  }

  lemma AppendEntityIndex(st: Store, ms: seq<bool>, c: Component)
    requires Inv(st, ms)
    requires c.uniqueId == |st.components| && c.entityId >= 0
    ensures EntityIndexOk(Append(st, c), ms + [false])
  {
    var st', ms' := Append(st, c), ms + [false];
    forall e, u | 0 <= e < |st'.entityComponents| && st'.entityComponents[e].Some? &&
                  0 <= u < |st'.entityComponents[e].value|
      ensures st'.entityComponents[e].value[u].entityId == e && InSlot(st', st'.entityComponents[e].value[u]) &&
              !ms'[st'.entityComponents[e].value[u].uniqueId]
    {
      if e == c.entityId && u == |st'.entityComponents[e].value| - 1 {
        assert st'.entityComponents[e].value[u] == c;
      } else {
        assert e < |st.entityComponents| && st.entityComponents[e].Some?;
        var x := st.entityComponents[e].value[u];
        assert st'.entityComponents[e].value[u] == x;
        assert InSlot(st, x) && !ms[x.uniqueId];
      }
    }
  }

  lemma AppendFamilyIndex(st: Store, ms: seq<bool>, c: Component)
    requires Inv(st, ms)
    requires c.uniqueId == |st.components| && c.entityId >= 0
    ensures FamilyIndexOk(Append(st, c), ms + [false])
  {
    var st', ms' := Append(st, c), ms + [false];
    forall f, j | f in st'.familyComponents && 0 <= j < |st'.familyComponents[f]|
      ensures st'.familyComponents[f][j].familyId == f && InSlot(st', st'.familyComponents[f][j]) &&
              !ms'[st'.familyComponents[f][j].uniqueId]
    {
      if f == c.familyId && j == |st'.familyComponents[f]| - 1 {
        assert st'.familyComponents[f][j] == c;
      } else {
        var x := st.familyComponents[f][j];
        assert st'.familyComponents[f][j] == x;
        assert InSlot(st, x) && !ms[x.uniqueId];
      }
    }
  }

  lemma AppendLiveFiled(st: Store, ms: seq<bool>, c: Component)
    requires Inv(st, ms)
    requires c.uniqueId == |st.components| && c.entityId >= 0
    ensures LiveFiled(Append(st, c), ms + [false])
  {
    var st', ms' := Append(st, c), ms + [false];
    forall i | 0 <= i < |st'.components| && st'.components[i] != null && !ms'[i]
      ensures Filed(st', st'.components[i])
    {
      if i < |st.components| {
        var x := st.components[i];
        assert st'.components[i] == x && !ms[i];
        assert Filed(st, x);
        assert x in st'.entityComponents[x.entityId].value;
        assert x in st'.familyComponents[x.familyId];
      } else {
        assert st'.components[i] == c;
      }
    }
  }

  /** The store after DeleteComponent has marked live slot id
      (ECS/ComponentSystem.cs:551-573): the entries with its unique id
      leave its family bucket (the family goes when its bucket empties) and
      its entity bucket; the slot is popped when it is the last one and
      queued on the free list otherwise. */
  function Retired(st: Store, id: int): Store
    requires 0 <= id < |st.components| && st.components[id] != null
  {
    var c := st.components[id];
    var fam := DetachedFromFamily(st.familyComponents, c.familyId, c.uniqueId);
    var ec := DetachedFromEntity(st.entityComponents, c.entityId, c.uniqueId);
    if id == |st.components| - 1 then Store(PopBack(st.components), st.erasedIds, ec, fam)
    else Store(st.components, st.erasedIds + [id], ec, fam)
  }

  /** The first compaction loop of DeleteComponent
      (ECS/ComponentSystem.cs:577-594): while the last slot is deleted, its
      id leaves the free list and the slot is popped.  Stated by its
      outcome: the array keeps its first CompactedSize slots, the ids the
      free list holds at or above that size are gone from it, and the rest
      keep their order.  The loop also sweeps marked entries out of the
      popped component's entity bucket; on a coherent store there are none,
      so the indexes stay as they are (CompactTail shows the sweep changes
      nothing, and that popping one slot at a time reaches this store). */
  function Truncated(st: Store): Store
  {
    var m := CompactedSize(|st.components|, st.erasedIds);
    Store(st.components[..m], Below(st.erasedIds, m), st.entityComponents, st.familyComponents)
  }

  /** Both compaction loops of DeleteComponent: the deleted tail of the
      array goes, then the null or empty tail of the entity index
      (ECS/ComponentSystem.cs:577-605). */
  function Compacted(st: Store): Store
  {
    var t := Truncated(st);
    Store(t.components, t.erasedIds, Pruned(t.entityComponents), t.familyComponents)
  }

  /** The store after one turn of the first compaction loop. */
  function PoppedTop(st: Store): Store
    requires |st.components| > 0
  {
    Store(PopBack(st.components), RemoveFirst(st.erasedIds, |st.components| - 1),
          st.entityComponents, st.familyComponents)
  }

  /** One turn of the first compaction loop, seen from the store st it
      started on with n slots left: the array stays a prefix of st's, the
      free list the ids of st's below its size, and the size the loop ends
      at stays the same. */
  lemma PoppedPrefix(st: Store, n: nat)
    requires 0 < n <= |st.components| && Distinct(st.erasedIds) && n - 1 in st.erasedIds
    ensures PoppedTop(Store(st.components[..n], Below(st.erasedIds, n), st.entityComponents, st.familyComponents))
         == Store(st.components[..n - 1], Below(st.erasedIds, n - 1), st.entityComponents, st.familyComponents)
    ensures CompactedSize(n - 1, st.erasedIds) == CompactedSize(n, st.erasedIds)
  {
    PrefixOfPrefix(st.components, n, n - 1);
    BelowDrop(st.erasedIds, n);
  }

  /** The first compaction loop keeps the slot and free-list conditions,
      and leaves a live last slot. */
  lemma TruncatedSlots(st: Store, ms: seq<bool>)
    requires SlotsOk(st, ms) && FreeListOk(st, ms)
    ensures var m := |Truncated(st).components|;
      SlotsOk(Truncated(st), ms[..m]) && FreeListOk(Truncated(st), ms[..m]) && (m > 0 ==> !ms[m - 1])
  {
    var e := st.erasedIds;
    var m := CompactedSize(|st.components|, e);
    var st', ms' := Truncated(st), ms[..m];
    BelowDistinct(e, m);
    forall i | 0 <= i < m
      ensures st'.components[i] != null && st'.components[i].uniqueId == i && st'.components[i].entityId >= 0
      ensures ms'[i] ==> i in st'.erasedIds
    {
      assert st'.components[i] == st.components[i] && ms'[i] == ms[i];
    }
    forall k | 0 <= k < |st'.erasedIds|
      ensures 1 <= st'.erasedIds[k] < m && ms'[st'.erasedIds[k]]
    {
      assert st'.erasedIds[k] in e;
    }
  }

  /** A live slot survives the first compaction loop. */
  lemma LiveBelowTruncated(st: Store, ms: seq<bool>, i: int)
    requires |ms| == |st.components| && FreeListOk(st, ms) && 0 <= i < |st.components| && !ms[i]
    ensures i < |Truncated(st).components|
  {
    assert forall k | 0 <= k < |st.erasedIds| :: st.erasedIds[k] != i;
    if i >= |Truncated(st).components| {
      CompactedSizeRetired(|st.components|, st.erasedIds, i);
    }
  }

  /** The first compaction loop keeps the entity and family indexes
      listing exactly the live slots. */
  lemma TruncatedIndexes(st: Store, ms: seq<bool>)
    requires |ms| == |st.components| && FreeListOk(st, ms)
    requires EntityIndexOk(st, ms) && FamilyIndexOk(st, ms) && LiveFiled(st, ms)
    ensures var m := |Truncated(st).components|;
      && EntityIndexOk(Truncated(st), ms[..m]) && FamilyIndexOk(Truncated(st), ms[..m])
      && LiveFiled(Truncated(st), ms[..m])
  {
    var st' := Truncated(st);
    var m := |st'.components|;
    var ms' := ms[..m];
    forall e, u | 0 <= e < |st'.entityComponents| && st'.entityComponents[e].Some? &&
                  0 <= u < |st'.entityComponents[e].value|
      ensures InSlot(st', st'.entityComponents[e].value[u]) && !ms'[st'.entityComponents[e].value[u].uniqueId]
    {
      var c := st.entityComponents[e].value[u];
      assert InSlot(st, c) && !ms[c.uniqueId];
      LiveBelowTruncated(st, ms, c.uniqueId);
    }
    forall f, j | f in st'.familyComponents && 0 <= j < |st'.familyComponents[f]|
      ensures InSlot(st', st'.familyComponents[f][j]) && !ms'[st'.familyComponents[f][j].uniqueId]
    {
      var c := st.familyComponents[f][j];
      assert InSlot(st, c) && !ms[c.uniqueId];
      LiveBelowTruncated(st, ms, c.uniqueId);
    }
    forall i | 0 <= i < m && st'.components[i] != null && !ms'[i] ensures Filed(st', st'.components[i]) {
      assert st'.components[i] == st.components[i] && !ms[i];
      assert Filed(st, st.components[i]);
    }
  }

  /** The first compaction loop leaves a store that keeps the invariant,
      its flags cut to the remaining slots. */
  lemma TruncatedKeepsInv(st: Store, ms: seq<bool>)
    requires Coherent(st, ms)
    ensures Inv(Truncated(st), ms[..|Truncated(st).components|])
  {
    TruncatedSlots(st, ms);
    TruncatedIndexes(st, ms);
  }

  /** Dropping a null or empty last bucket keeps the store coherent. */
  lemma PruneStep(st: Store, ms: seq<bool>)
    requires Coherent(st, ms) && |st.entityComponents| > 0
    requires st.entityComponents[|st.entityComponents| - 1].None? ||
             st.entityComponents[|st.entityComponents| - 1].value == []
    ensures Coherent(Store(st.components, st.erasedIds, st.entityComponents[..|st.entityComponents| - 1],
                           st.familyComponents), ms)
  {
    var st' := Store(st.components, st.erasedIds, st.entityComponents[..|st.entityComponents| - 1],
                     st.familyComponents);
    forall i | 0 <= i < |st.components| && st.components[i] != null && !ms[i]
      ensures Filed(st', st.components[i])
    {
      assert Filed(st, st.components[i]);
    }
  }

  /** The second compaction loop keeps the store coherent. */
  lemma {:induction false} PrunedKeepsCoherent(st: Store, ms: seq<bool>)
    requires Coherent(st, ms)
    ensures Coherent(Store(st.components, st.erasedIds, Pruned(st.entityComponents), st.familyComponents), ms)
    decreases |st.entityComponents|
  {
    var ec := st.entityComponents;
    if |ec| > 0 && (ec[|ec| - 1].None? || ec[|ec| - 1].value == []) {
      PruneStep(st, ms);
      PrunedKeepsCoherent(Store(st.components, st.erasedIds, ec[..|ec| - 1], st.familyComponents), ms);
    }
  }

  /** Both compaction loops together restore the invariant. */
  lemma CompactedKeepsInv(st: Store, ms: seq<bool>)
    requires Coherent(st, ms)
    ensures Inv(Compacted(st), ms[..|Compacted(st).components|])
  {
    var t := Truncated(st);
    TruncatedKeepsInv(st, ms);
    PrunedKeepsCoherent(t, ms[..|t.components|]);
  }

  /** The slot flags after DeleteComponent marks slot id, cut to the slots
      that remain. */
  function MarkedFlags(ms: seq<bool>, id: int, n: nat): seq<bool>
    requires 0 <= id < |ms| && n <= |ms|
  {
    ms[id := true][..n]
  }

  lemma MarkedFlagsPrefix(ms: seq<bool>, id: int, n: nat, k: nat)
    requires 0 <= id < |ms| && k <= n <= |ms|
    ensures MarkedFlags(ms, id, n)[..k] == MarkedFlags(ms, id, k)
  {
  }

  /** Marking and detaching a live slot other than slot 0 leaves the store
      coherent, with that slot's flag set. */
  lemma RetireKeepsCoherent(st: Store, ms: seq<bool>, id: int)
    requires Inv(st, ms) && 0 < id < |st.components| && !ms[id]
    ensures Coherent(Retired(st, id), MarkedFlags(ms, id, |Retired(st, id).components|))
  {
    RetireSlots(st, ms, id);
    RetireEntityIndex(st, ms, id);
    RetireFamilyIndex(st, ms, id);
    RetireLiveFiled(st, ms, id);
  }

  lemma RetireSlots(st: Store, ms: seq<bool>, id: int)
    requires SlotsOk(st, ms) && FreeListOk(st, ms)
    requires 0 < id < |st.components| && !ms[id] && !ms[|ms| - 1]
    ensures SlotsOk(Retired(st, id), MarkedFlags(ms, id, |Retired(st, id).components|))
    ensures FreeListOk(Retired(st, id), MarkedFlags(ms, id, |Retired(st, id).components|))
  {
    var st' := Retired(st, id);
    var ms' := MarkedFlags(ms, id, |st'.components|);
    var n := |st.components|;
    assert id !in st.erasedIds by {
      forall k | 0 <= k < |st.erasedIds| ensures st.erasedIds[k] != id {
        assert ms[st.erasedIds[k]];
      }
    }
    if id == n - 1 {
      assert st'.erasedIds == st.erasedIds;
      forall i | 0 <= i < n - 1 ensures st'.components[i] == st.components[i] && ms'[i] == ms[i] { }
      forall k | 0 <= k < |st.erasedIds| ensures st.erasedIds[k] < n - 1 {
        assert ms[st.erasedIds[k]];
      }
    } else {
      assert st'.erasedIds == st.erasedIds + [id];
      forall j, k | 0 <= j < k < |st'.erasedIds| ensures st'.erasedIds[j] != st'.erasedIds[k] {
        if k == |st.erasedIds| { assert st'.erasedIds[j] in st.erasedIds; }
      }
    }
  }

  lemma RetireEntityIndex(st: Store, ms: seq<bool>, id: int)
    requires SlotsOk(st, ms) && EntityIndexOk(st, ms)
    requires 0 < id < |st.components| && !ms[id]
    ensures EntityIndexOk(Retired(st, id), MarkedFlags(ms, id, |Retired(st, id).components|))
  {
    var st' := Retired(st, id);
    var ms' := MarkedFlags(ms, id, |st'.components|);
    var c := st.components[id];
    forall e, u | 0 <= e < |st'.entityComponents| && st'.entityComponents[e].Some? &&
                  0 <= u < |st'.entityComponents[e].value|
      ensures st'.entityComponents[e].value[u].entityId == e && InSlot(st', st'.entityComponents[e].value[u]) &&
              !ms'[st'.entityComponents[e].value[u].uniqueId]
    {
      var x := st'.entityComponents[e].value[u];
      assert x in st.entityComponents[e].value && x.uniqueId != id by {
        if e == c.entityId { assert x in WithoutUid(st.entityComponents[e].value, id); }
      }
      var v :| 0 <= v < |st.entityComponents[e].value| && st.entityComponents[e].value[v] == x;
      assert InSlot(st, x) && !ms[x.uniqueId];
    }
  }

  lemma RetireFamilyIndex(st: Store, ms: seq<bool>, id: int)
    requires SlotsOk(st, ms) && FamilyIndexOk(st, ms)
    requires 0 < id < |st.components| && !ms[id]
    ensures FamilyIndexOk(Retired(st, id), MarkedFlags(ms, id, |Retired(st, id).components|))
  {
    var st' := Retired(st, id);
    var ms' := MarkedFlags(ms, id, |st'.components|);
    var c := st.components[id];
    forall f | f in st'.familyComponents ensures st'.familyComponents[f] != [] {
      if f != c.familyId { assert st'.familyComponents[f] == st.familyComponents[f]; }
    }
    forall f, j | f in st'.familyComponents && 0 <= j < |st'.familyComponents[f]|
      ensures st'.familyComponents[f][j].familyId == f && InSlot(st', st'.familyComponents[f][j]) &&
              !ms'[st'.familyComponents[f][j].uniqueId]
    {
      var x := st'.familyComponents[f][j];
      assert x in st.familyComponents[f] && x.uniqueId != id by {
        if f == c.familyId { assert x in WithoutUid(st.familyComponents[f], id); }
        else { assert st'.familyComponents[f] == st.familyComponents[f]; }
      }
      var v :| 0 <= v < |st.familyComponents[f]| && st.familyComponents[f][v] == x;
      assert InSlot(st, x) && !ms[x.uniqueId];
    }
  }

  lemma RetireLiveFiled(st: Store, ms: seq<bool>, id: int)
    requires SlotsOk(st, ms) && LiveFiled(st, ms)
    requires 0 < id < |st.components| && !ms[id]
    ensures LiveFiled(Retired(st, id), MarkedFlags(ms, id, |Retired(st, id).components|))
  {
    var st' := Retired(st, id);
    var ms' := MarkedFlags(ms, id, |st'.components|);
    var c := st.components[id];
    forall i | 0 <= i < |st'.components| && st'.components[i] != null && !ms'[i]
      ensures Filed(st', st'.components[i])
    {
      var x := st.components[i];
      assert st'.components[i] == x && i != id && !ms[i];
      assert Filed(st, x) && x.uniqueId != id;
      var b := st.entityComponents[x.entityId].value;
      if x.entityId == c.entityId {
        var u :| 0 <= u < |b| && b[u] == x;
        assert x in WithoutUid(b, id);
      }
      var g := st.familyComponents[x.familyId];
      if x.familyId == c.familyId {
        var j :| 0 <= j < |g| && g[j] == x;
        assert x in WithoutUid(g, id);
      }
    }
  }

  /** DeleteComponent on a live slot other than slot 0 keeps the invariant:
      the slot is marked and detached, and both compaction loops run. */
  lemma DeleteKeepsInv(st: Store, ms: seq<bool>, id: int)
    requires Inv(st, ms) && 0 < id < |st.components| && !ms[id]
    ensures Inv(Compacted(Retired(st, id)), MarkedFlags(ms, id, |Compacted(Retired(st, id)).components|))
  {
    var r := Retired(st, id);
    var k := |Compacted(r).components|;
    RetireKeepsCoherent(st, ms, id);
    CompactedKeepsInv(r, MarkedFlags(ms, id, |r.components|));
    MarkedFlagsPrefix(ms, id, |r.components|, k);
  }

  /** After DeleteComponent on a live slot other than slot 0, no bucket
      lists a component with that unique id any more, and the slot, when it
      is still in the array, is on the free list. */
  lemma DeleteUnfiles(st: Store, ms: seq<bool>, id: int)
    requires Inv(st, ms) && 0 < id < |st.components| && !ms[id]
    ensures var st' := Compacted(Retired(st, id));
      && (forall e, u | 0 <= e < |st'.entityComponents| && st'.entityComponents[e].Some? &&
                        0 <= u < |st'.entityComponents[e].value| ::
            st'.entityComponents[e].value[u].uniqueId != id)
      && (forall f, j | f in st'.familyComponents && 0 <= j < |st'.familyComponents[f]| ::
            st'.familyComponents[f][j].uniqueId != id)
      && (id < |st'.components| ==> id in st'.erasedIds)
  {
    var st' := Compacted(Retired(st, id));
    var ms' := MarkedFlags(ms, id, |st'.components|);
    DeleteKeepsInv(st, ms, id);
    assert id < |st'.components| ==> ms'[id];
  }

  /** The flags of a prefix of the array are a prefix of its flags. */
  lemma FlagsPrefix(comps: seq<Component?>, k: nat)
    requires k <= |comps|
    ensures Flags(comps[..k]) == Flags(comps)[..k]
  {
  }

  /** Appending a slot appends its flag. */
  lemma FlagsSnoc(comps: seq<Component?>, c: Component)
    ensures Flags(comps + [c]) == Flags(comps) + [c.markedForDeletion]
  {
    assert (comps + [c])[..|comps|] == comps;
  }

  /** The store after Replace installs c at slot c.uniqueId, at or past the
      end of the array: the array grows with null slots up to it. */
  function Installed(st: Store, c: Component): (st': Store)
    requires |st.components| <= c.uniqueId && c.entityId >= 0
    ensures |st'.components| == c.uniqueId + 1 && st'.components[c.uniqueId] == c
    ensures forall i | 0 <= i < |st.components| :: st'.components[i] == st.components[i]
    ensures forall i | |st.components| <= i < c.uniqueId :: st'.components[i] == null
  {
    Store(Resize(st.components, c.uniqueId + 1, null)[c.uniqueId := c], st.erasedIds,
          Appended(st.entityComponents, c.entityId, c),
          AddedToFamily(st.familyComponents, c.familyId, c))
  }

  /** Installing right at the end of the array is appending. */
  lemma InstalledAtEnd(st: Store, c: Component)
    requires c.uniqueId == |st.components| && c.entityId >= 0
    ensures Installed(st, c) == Append(st, c)
  {
    assert Installed(st, c).components == st.components + [c];
  }

  /** Installing a live component in the slot right after the end keeps
      the invariant. */
  lemma InstalledKeepsInv(st: Store, ms: seq<bool>, c: Component)
    requires Inv(st, ms)
    requires c.uniqueId == |st.components| && c.entityId >= 0
    ensures Inv(Installed(st, c), ms + [false])
  {
    InstalledAtEnd(st, c);
    AppendKeepsInv(st, ms, c);
  }

  /** Installing past the end of a non-empty array leaves a null slot from
      1 on, which Validate dereferences. */
  lemma InstalledPastEndFails(st: Store, c: Component)
    requires 1 <= |st.components| < c.uniqueId && c.entityId >= 0
    ensures !Checks(Installed(st, c))
  {
    assert Installed(st, c).components[|st.components|] == null;
  }

  /** The store after AttachArray has attached the first n components of
      cs: each in turn appended as by AttachComponent. */
  function AppendAll(st: Store, cs: seq<Component>, n: nat): (st': Store)
    requires n <= |cs| && forall k | 0 <= k < |cs| :: cs[k].entityId >= 0
    ensures st'.components == st.components + cs[..n] && st'.erasedIds == st.erasedIds
  {
    if n == 0 then st
    else
      assert cs[..n] == cs[..n - 1] + [cs[n - 1]];
      Append(AppendAll(st, cs, n - 1), cs[n - 1])
  }

  /** Attaching one more component extends the batch. */
  lemma AppendAllNext(st: Store, cs: seq<Component>, n: nat)
    requires n < |cs| && forall k | 0 <= k < |cs| :: cs[k].entityId >= 0
    ensures AppendAll(st, cs, n + 1) == Append(AppendAll(st, cs, n), cs[n])
  {
  }

  /** Filing a batch of components numbered from the end of the array on,
      one after another, keeps the invariant; their slots are unmarked. */
  lemma {:induction false} AppendAllKeepsInv(st: Store, ms: seq<bool>, cs: seq<Component>, n: nat)
    requires n <= |cs| && Inv(st, ms)
    requires forall k | 0 <= k < |cs| :: cs[k].uniqueId == |st.components| + k && cs[k].entityId >= 0
    ensures Inv(AppendAll(st, cs, n), ms + Falses(n))
  {
    if n > 0 {
      AppendAllKeepsInv(st, ms, cs, n - 1);
      AppendAllStep(st, ms, cs, n);
    }
  }

  /** One more component of the batch keeps the invariant. */
  lemma AppendAllStep(st: Store, ms: seq<bool>, cs: seq<Component>, n: nat)
    requires 0 < n <= |cs|
    requires forall k | 0 <= k < |cs| :: cs[k].uniqueId == |st.components| + k && cs[k].entityId >= 0
    requires Inv(AppendAll(st, cs, n - 1), ms + Falses(n - 1))
    ensures Inv(AppendAll(st, cs, n), ms + Falses(n))
  {
    AppendAllNext(st, cs, n - 1);
    AppendKeepsInv(AppendAll(st, cs, n - 1), ms + Falses(n - 1), cs[n - 1]);
    FalsesSnoc(ms, n - 1);
  }

  /** n unset flags. */
  function Falses(n: nat): (ms: seq<bool>)
    ensures |ms| == n && forall k | 0 <= k < n :: !ms[k]
  {
    seq(n, _ => false)
  }

  lemma FalsesSnoc(ms: seq<bool>, n: nat)
    ensures ms + Falses(n) + [false] == ms + Falses(n + 1)
  {
    assert Falses(n) + [false] == Falses(n + 1);
  }

  /** The flags of a batch of unmarked components follow those of the
      array they are appended to. */
  lemma FlagsAttached(comps: seq<Component?>, cs: seq<Component>, n: int)
    requires Attachable(cs, n)
    ensures Flags(comps + cs) == Flags(comps) + Falses(|cs|)
  {
    var a, b := Flags(comps + cs), Flags(comps) + Falses(|cs|);
    forall k | 0 <= k < |a| ensures a[k] == b[k] {
      if k >= |comps| {
        assert (comps + cs)[k] == cs[k - |comps|];
      }
    }
  }

  /** Components that AttachComponent can append one after another from
      size n on while keeping the invariant: live, numbered n, n + 1, ... */
  predicate Attachable(cs: seq<Component>, n: int)
    reads cs
  {
    forall k | 0 <= k < |cs| :: cs[k].uniqueId == n + k && cs[k].entityId >= 0 && !cs[k].markedForDeletion
  }

  /** On a coherent store, taking the head off the free list without
      reusing its slot (the recycle path of CreateComponent, whose Replace
      then does nothing) leaves a marked slot off the free list, which
      Validate reports as #1. */
  lemma DequeuedFails(st: Store)
    requires Coherent(st, Flags(st.components)) && st.erasedIds != []
    ensures !Checks(Store(st.components, st.erasedIds[1..], st.entityComponents, st.familyComponents))
  {
    var x := st.erasedIds[0];
    assert 1 <= x < |st.components| && st.components[x].markedForDeletion;
    assert x !in st.erasedIds[1..] by {
      forall k | 0 <= k < |st.erasedIds[1..]| ensures st.erasedIds[1..][k] != x {
        assert st.erasedIds[1..][k] == st.erasedIds[k + 1];
      }
    }
  }

  /** The free list RebuildErasedIDs computes holds the same ids as the
      free list of a coherent store. */
  lemma RebuildSameIds(st: Store, ms: seq<bool>)
    requires Coherent(st, ms)
    ensures forall x :: x in MarkedIds(ms, |ms|) <==> x in st.erasedIds
  {
    MarkedIdsMarked(ms, |ms|);
    MarkedIdsComplete(ms, |ms|);
    forall x | x in st.erasedIds ensures x in MarkedIds(ms, |ms|) {
      var k :| 0 <= k < |st.erasedIds| && st.erasedIds[k] == x;
    }
  }

  /** Rebuilding the free list of a store that keeps the invariant keeps
      it. */
  lemma RebuildKeepsInv(st: Store, ms: seq<bool>)
    requires Inv(st, ms)
    ensures Inv(st.(erasedIds := MarkedIds(ms, |ms|)), ms)
  {
    var r := MarkedIds(ms, |ms|);
    var st' := st.(erasedIds := r);
    MarkedIdsMarked(ms, |ms|);
    MarkedIdsAscending(ms, |ms|);
    MarkedIdsComplete(ms, |ms|);
    RebuildSameIds(st, ms);
    assert SlotsOk(st', ms) by {
      forall i | 0 <= i < |ms| && ms[i] ensures i in r {
        assert i in st.erasedIds;
      }
    }
    assert FreeListOk(st', ms) by {
      assert Distinct(r);
    }
    SameIndexes(st, st', ms);
  }

  /** The indexes do not look at the free list. */
  lemma SameIndexes(st: Store, st': Store, ms: seq<bool>)
    requires st'.components == st.components && st'.entityComponents == st.entityComponents
    requires st'.familyComponents == st.familyComponents
    requires |ms| == |st.components| && EntityIndexOk(st, ms) && FamilyIndexOk(st, ms) && LiveFiled(st, ms)
    ensures EntityIndexOk(st', ms) && FamilyIndexOk(st', ms) && LiveFiled(st', ms)
  {
    assert forall c: Component :: InSlot(st', c) == InSlot(st, c) && Filed(st', c) == Filed(st, c);
  }

  /** Growing the entity index with null buckets, as
      AppendComponentsByEntity does for an entity past its end, keeps the
      invariant. */
  lemma GrownKeepsInv(st: Store, ms: seq<bool>, n: nat)
    requires Inv(st, ms) && n >= |st.entityComponents|
    ensures Inv(st.(entityComponents := Resize(st.entityComponents, n, None)), ms)
  {
    var st' := st.(entityComponents := Resize(st.entityComponents, n, None));
    assert forall c: Component :: InSlot(st', c) == InSlot(st, c);
    forall e, u | 0 <= e < |st'.entityComponents| && st'.entityComponents[e].Some? &&
                  0 <= u < |st'.entityComponents[e].value|
      ensures st'.entityComponents[e].value[u].entityId == e && InSlot(st', st'.entityComponents[e].value[u]) &&
              !ms[st'.entityComponents[e].value[u].uniqueId]
    {
      assert e < |st.entityComponents| && st'.entityComponents[e] == st.entityComponents[e];
    }
    forall i | 0 <= i < |st.components| && st.components[i] != null && !ms[i]
      ensures Filed(st', st.components[i])
    {
      assert Filed(st, st.components[i]);
    }
  }

  /** On a coherent store no entity bucket holds a marked component, so
      the sweep of the first compaction loop of DeleteComponent changes
      nothing. */
  lemma BucketUnmarked(st: Store, ms: seq<bool>, e: int)
    requires Coherent(st, ms) && ms == Flags(st.components)
    ensures 0 <= e < |st.entityComponents| && st.entityComponents[e].Some? ==> Unmarked(st.entityComponents[e].value)
  {
    if 0 <= e < |st.entityComponents| && st.entityComponents[e].Some? {
      var b := st.entityComponents[e].value;
      forall k | 0 <= k < |b| ensures !b[k].markedForDeletion {
        assert InSlot(st, b[k]) && !ms[b[k].uniqueId];
      }
    }
  }

  /** On a coherent store with its own flags, the first compaction loop
      finds what it needs: slots carrying their index, the free list being
      exactly the marked slots, and no marked entry in an entity bucket. */
  lemma CoherentCompactable(st: Store, ms: seq<bool>)
    requires Coherent(st, ms) && ms == Flags(st.components)
    ensures Distinct(st.erasedIds) && forall k | 0 <= k < |st.erasedIds| :: st.erasedIds[k] < |st.components|
    ensures forall i | 0 <= i < |st.components| ::
      st.components[i] != null && st.components[i].uniqueId == i && st.components[i].entityId >= 0 &&
      (st.components[i].markedForDeletion <==> i in st.erasedIds)
    ensures forall e | 0 <= e < |st.entityComponents| && st.entityComponents[e].Some? ::
      Unmarked(st.entityComponents[e].value)
  {
    assert SlotsOk(st, ms) && FreeListOk(st, ms);
    forall i | 0 <= i < |st.components| && i in st.erasedIds ensures ms[i] {
      assert st.erasedIds[IndexOf(st.erasedIds, i)] == i;
    }
    forall e | 0 <= e < |st.entityComponents| && st.entityComponents[e].Some?
      ensures Unmarked(st.entityComponents[e].value)
    {
      BucketUnmarked(st, ms, e);
    }
  }

  /** Filtering a list extended by one member extends the filtered list
      when that member is of the family. */
  lemma {:induction false} WithFamilySnoc(s: seq<Component>, x: Component, f: int)
    ensures WithFamily(s + [x], f) == WithFamily(s, f) + if x.familyId == f then [x] else []
  {
    if s == [] {
      assert [x][1..] == [];
    } else {
      assert (s + [x])[1..] == s[1..] + [x];
      WithFamilySnoc(s[1..], x, f);
    }
  }

  /** ComponentSystem: the dense slot array, the FIFO free list of deleted
      slots, the per-entity bucket list and the per-family dictionary, kept
      in step, plus the entity allocator it owns. */
  class ComponentSystem {
    const entitySystem: EntitySystem
    /** mComponentArray: slot i holds the component with unique id i. */
    var components: seq<Component?>
    /** mErasedIds: FIFO queue of slot ids whose component is marked. */
    var erasedIds: seq<int>
    /** mEntityComponentArray: bucket e lists the live components of entity e. */
    var entityComponents: seq<Option<seq<Component>>>
    /** mFamilyComponentMap: the live components of each family. */
    var familyComponents: map<int, seq<Component>>

    ghost function State(): Store
      reads this
    {
      Store(components, erasedIds, entityComponents, familyComponents)
    }

    ghost function Objects(): set<Component>
      reads this
    {
      Referenced(State())
    }

    /** Validate: true exactly when none of its checks would throw. */
    predicate Validate()
      reads this, Objects()
    {
      Checks(Store(components, erasedIds, entityComponents, familyComponents))
    }

    /** The class invariant: a well-formed entity allocator, and the store
        with the flags its slots carry keeps Inv. */
    ghost predicate Valid()
      reads this, entitySystem, components
    {
      entitySystem.Valid() && Inv(State(), Flags(components))
    }

    /** Valid, from the invariant on a store and flags that are the
        current ones. */
    lemma ValidFrom(st: Store, ms: seq<bool>)
      requires entitySystem.Valid() && Inv(st, ms) && st == State() && ms == Flags(components)
      ensures Valid()
    {
    }

    /** The invariant, on the compacted store of a coherent store whose
        flags are still those its slots carry. */
    lemma CompactedValid(st: Store, ms: seq<bool>)
      requires Coherent(st, ms) && ms == Flags(st.components) && State() == Compacted(st)
      ensures Inv(State(), Flags(components))
    {
      CompactedKeepsInv(st, ms);
      FlagsPrefix(st.components, |components|);
    }

    /** Valid after a live component numbered by the new slot was appended
        to a valid store and filed. */
    lemma AppendedValid(st0: Store, ms0: seq<bool>, c: Component)
      requires entitySystem.Valid() && Inv(st0, ms0) && ms0 == Flags(st0.components)
      requires c.uniqueId == |st0.components| && c.entityId >= 0 && !c.markedForDeletion
      requires State() == Append(st0, c)
      ensures Valid()
    {
      AppendKeepsInv(st0, ms0, c);
      FlagsSnoc(st0.components, c);
      ValidFrom(Append(st0, c), ms0 + [false]);
    }

    /** Valid after a batch of live components numbered from the end of a
        valid store on was attached. */
    lemma AttachedValid(st0: Store, ms0: seq<bool>, cs: seq<Component>)
      requires entitySystem.Valid() && Inv(st0, ms0) && ms0 == Flags(st0.components)
      requires Attachable(cs, |st0.components|)
      requires State() == AppendAll(st0, cs, |cs|)
      ensures Valid()
    {
      AppendAllKeepsInv(st0, ms0, cs, |cs|);
      FlagsAttached(st0.components, cs, |st0.components|);
      assert cs[..|cs|] == cs;
      ValidFrom(State(), ms0 + Falses(|cs|));
    }

    /** The invariant implies that Validate passes. */
    lemma ValidPassesValidate()
      requires Valid()
      ensures Validate()
    {
      CoherentChecks(State());
    }

    /** An empty store with a fresh entity allocator. */
    constructor ()
      ensures Valid() && fresh(entitySystem)
      ensures components == [] && erasedIds == [] && entityComponents == [] && familyComponents == map[]
      ensures entitySystem.entities == [0] && entitySystem.erasedIds == []
    {
      entitySystem := new EntitySystem();
      components := [];
      erasedIds := [];
      entityComponents := [];
      familyComponents := map[];
    }

    /** Clear (ECS/ComponentSystem.cs:455-465): everything emptied, the
        entity allocator reset. */
    method Clear()
      modifies this, entitySystem
      ensures Valid()
      ensures components == [] && erasedIds == [] && entityComponents == [] && familyComponents == map[]
      ensures entitySystem.entities == [0] && entitySystem.erasedIds == []
    {
      components := [];
      erasedIds := [];
      entityComponents := [];
      familyComponents := map[];
      entitySystem.Clear();
    }

    /** ValidateEntity with throwException == false; the throwing form is a
        precondition. */
    predicate ValidateEntity(entityId: int)
    {
      entityId > 0
    }

    /** ValidateFamily with throwException == false; the throwing form is a
        precondition.  Under the invariant a known family has a first
        component. */
    predicate ValidateFamily(familyId: int)
      reads this, entitySystem, Objects()
      ensures familyId in familyComponents && Valid() ==> FindFirstComponentByFamily(familyId) != null
    {
      familyId in familyComponents
    }

    /** RefCount (ECS/ComponentSystem.cs:300-310): 1 for every id below the
        array size (negative ids included), 0 otherwise. */
    function RefCount(uniqueId: int): (r: int)
      reads this
      ensures 0 <= r <= 1
      ensures r == 0 <==> uniqueId >= |components|
    {
      if uniqueId < |components| then 1 else 0
    }

    /** GetComponent: the slot, or null past the end; a negative id indexes
        out of range in the source. */
    function GetComponent(uniqueId: int): (r: Component?)
      requires uniqueId < |components| ==> 0 <= uniqueId
      reads this, entitySystem, Objects()
      ensures Valid() ==> (r == null <==> uniqueId >= |components|)
      ensures r != null && Valid() ==> r.uniqueId == uniqueId
    {
      if uniqueId < |components| then components[uniqueId] else null
    }

    /** GetComponentsByEntity: the entity's bucket replaces the caller's
        list when there is one; otherwise the list is left as it was. */
    function GetComponentsByEntity(entityId: int, componentsList: seq<Component>): (r: seq<Component>)
      requires ValidateEntity(entityId)
      reads this, entitySystem, Objects()
      ensures Valid() && r != componentsList ==> forall k :: 0 <= k < |r| ==>
        r[k] in components && !r[k].markedForDeletion && r[k].entityId == entityId
      ensures (entityId >= |entityComponents| || entityComponents[entityId].None?) ==> r == componentsList
    {
      if entityId < |entityComponents| && entityComponents[entityId].Some? then
        entityComponents[entityId].value
      else
        componentsList
    }

    /** GetComponentsByFamily: the family's bucket. */
    function GetComponentsByFamily(familyId: int, componentsList: seq<Component>): (r: seq<Component>)
      requires ValidateFamily(familyId)
      reads this, entitySystem, Objects()
      ensures Valid() ==> r != [] && forall k :: 0 <= k < |r| ==>
        r[k] in components && !r[k].markedForDeletion && r[k].familyId == familyId
    {
      familyComponents[familyId]
    }

    /** GetComponentsByEntityAndFamily: append the members of the entity's
        bucket that belong to the family, in bucket order; nothing when the
        entity or the family is unknown. */
    function GetComponentsByEntityAndFamily(entityId: int, familyId: int, componentsList: seq<Component>): (r: seq<Component>)
      reads this, entitySystem, Objects()
      ensures |componentsList| <= |r| && r[..|componentsList|] == componentsList
      ensures forall k :: |componentsList| <= k < |r| ==> r[k].familyId == familyId
      ensures !ValidateEntity(entityId) || !ValidateFamily(familyId) ==> r == componentsList
      ensures Valid() ==> forall k :: |componentsList| <= k < |r| ==>
        r[k] in components && !r[k].markedForDeletion && r[k].entityId == entityId
    {
      if ValidateEntity(entityId) && ValidateFamily(familyId) &&
         entityId < |entityComponents| && entityComponents[entityId].Some?
      then
        componentsList + WithFamily(entityComponents[entityId].value, familyId)
      else
        componentsList
    }

    /** GetComponentsByFamilyAndEntity: append the members of the family's
        bucket that belong to the entity; nothing when either is unknown. */
    function GetComponentsByFamilyAndEntity(entityId: int, familyId: int, componentsList: seq<Component>): (r: seq<Component>)
      reads this, entitySystem, Objects()
      ensures |componentsList| <= |r| && r[..|componentsList|] == componentsList
      ensures forall k :: |componentsList| <= k < |r| ==> r[k].entityId == entityId
      ensures !ValidateEntity(entityId) || !ValidateFamily(familyId) ==> r == componentsList
      ensures Valid() ==> forall k :: |componentsList| <= k < |r| ==>
        r[k] in components && !r[k].markedForDeletion && r[k].familyId == familyId
    {
      if ValidateEntity(entityId) && ValidateFamily(familyId) then
        componentsList + WithEntity(familyComponents[familyId], entityId)
      else
        componentsList
    }

    /** The two queries select the same components: the live components of
        the entity in the family. */
    lemma QueriesAgree(entityId: int, familyId: int)
      requires Valid()
      ensures forall x :: x in GetComponentsByEntityAndFamily(entityId, familyId, []) <==>
                          x in GetComponentsByFamilyAndEntity(entityId, familyId, [])
    {
      var ms := Flags(components);
      if ValidateEntity(entityId) && ValidateFamily(familyId) {
        var g := familyComponents[familyId];
        forall x | x in WithEntity(g, entityId)
          ensures x in GetComponentsByEntityAndFamily(entityId, familyId, [])
        {
          var j :| 0 <= j < |g| && g[j] == x;
          assert InSlot(State(), x) && !ms[x.uniqueId];
          assert Filed(State(), x);
          var b := entityComponents[entityId].value;
          var u :| 0 <= u < |b| && b[u] == x;
        }
        if entityId < |entityComponents| && entityComponents[entityId].Some? {
          var b := entityComponents[entityId].value;
          forall x | x in WithFamily(b, familyId) ensures x in WithEntity(g, entityId) {
            var u :| 0 <= u < |b| && b[u] == x;
            assert InSlot(State(), x) && !ms[x.uniqueId];
            assert Filed(State(), x);
            var j :| 0 <= j < |g| && g[j] == x;
          }
        }
      }
    }

    /** FindFirstComponentByEntityAndFamily: the first member of the family
        in the entity's bucket, or null.  The source dereferences the bucket
        without a null check, so a known entity needs a bucket. */
    function FindFirstComponentByEntityAndFamily(entityId: int, familyId: int): (r: Component?)
      requires ValidateEntity(entityId) && ValidateFamily(familyId) && entityId < |entityComponents| ==>
        entityComponents[entityId].Some?
      reads this, entitySystem, Objects()
      ensures r == null <==> GetComponentsByEntityAndFamily(entityId, familyId, []) == []
      ensures r != null ==> r == GetComponentsByEntityAndFamily(entityId, familyId, [])[0]
    {
      if ValidateEntity(entityId) && ValidateFamily(familyId) && entityId < |entityComponents| then
        FirstWithFamily(entityComponents[entityId].value, familyId)
      else
        null
    }

    /** FindFirstComponentByFamily: the head of the family's bucket, or null
        when it is empty; an unknown family throws in the source. */
    function FindFirstComponentByFamily(familyId: int): (r: Component?)
      requires familyId in familyComponents
      reads this, entitySystem, Objects()
      ensures r != null ==> |familyComponents[familyId]| > 0 && r == familyComponents[familyId][0]
      ensures Valid() ==> r != null && r.familyId == familyId && !r.markedForDeletion
    {
      if |familyComponents[familyId]| > 0 then familyComponents[familyId][0] else null
    }

    /** Get: the first component of the family owned by the entity. */
    function Get(entityId: int, familyId: int): (r: Component?)
      requires ValidateEntity(entityId) && ValidateFamily(familyId) && entityId < |entityComponents| ==>
        entityComponents[entityId].Some?
      reads this, entitySystem, Objects()
      ensures Valid() && r != null ==>
        r in components && !r.markedForDeletion && r.entityId == entityId && r.familyId == familyId
    {
      FindFirstComponentByEntityAndFamily(entityId, familyId)
    }

    /** On a valid system the entity's bucket holds every live component of
        the entity, so GetComponentsByEntity misses none of them. */
    lemma GetComponentsByEntityComplete(entityId: int, componentsList: seq<Component>, i: int)
      requires Valid() && ValidateEntity(entityId)
      requires 0 <= i < |components| && components[i] != null && !components[i].markedForDeletion
      requires components[i].entityId == entityId
      ensures entityId < |entityComponents| && entityComponents[entityId].Some?
      ensures components[i] in GetComponentsByEntity(entityId, componentsList)
    {
      assert !Flags(components)[i];
      assert Filed(State(), components[i]);
    }

    /** On a valid system the family of every live component is known and
        its bucket holds that component. */
    lemma GetComponentsByFamilyComplete(familyId: int, componentsList: seq<Component>, i: int)
      requires Valid()
      requires 0 <= i < |components| && components[i] != null && !components[i].markedForDeletion
      requires components[i].familyId == familyId
      ensures ValidateFamily(familyId) && components[i] in GetComponentsByFamily(familyId, componentsList)
    {
      assert !Flags(components)[i];
      assert Filed(State(), components[i]);
    }

    /** On a valid system every live component of the entity and the family
        is among those GetComponentsByEntityAndFamily appends. */
    lemma GetComponentsByEntityAndFamilyComplete(entityId: int, familyId: int, componentsList: seq<Component>, i: int)
      requires Valid() && ValidateEntity(entityId)
      requires 0 <= i < |components| && components[i] != null && !components[i].markedForDeletion
      requires components[i].entityId == entityId && components[i].familyId == familyId
      ensures components[i] in GetComponentsByEntityAndFamily(entityId, familyId, componentsList)[|componentsList|..]
    {
      var c := components[i];
      assert !Flags(components)[i];
      assert Filed(State(), c);
      var b := entityComponents[entityId].value;
      var u :| 0 <= u < |b| && b[u] == c;
      var r := GetComponentsByEntityAndFamily(entityId, familyId, componentsList);
      assert r[|componentsList|..] == WithFamily(b, familyId);
    }

    /** On a valid system every live component of the entity and the family
        is among those GetComponentsByFamilyAndEntity appends. */
    lemma GetComponentsByFamilyAndEntityComplete(entityId: int, familyId: int, componentsList: seq<Component>, i: int)
      requires Valid() && ValidateEntity(entityId)
      requires 0 <= i < |components| && components[i] != null && !components[i].markedForDeletion
      requires components[i].entityId == entityId && components[i].familyId == familyId
      ensures components[i] in GetComponentsByFamilyAndEntity(entityId, familyId, componentsList)[|componentsList|..]
    {
      var c := components[i];
      assert !Flags(components)[i];
      assert Filed(State(), c);
      var g := familyComponents[familyId];
      var j :| 0 <= j < |g| && g[j] == c;
      var r := GetComponentsByFamilyAndEntity(entityId, familyId, componentsList);
      assert r[|componentsList|..] == WithEntity(g, entityId);
    }

    /** On a valid system Get finds a component whenever the entity owns a
        live component of the family. */
    lemma GetFindsLive(entityId: int, familyId: int, i: int)
      requires Valid() && ValidateEntity(entityId)
      requires 0 <= i < |components| && components[i] != null && !components[i].markedForDeletion
      requires components[i].entityId == entityId && components[i].familyId == familyId
      ensures entityId < |entityComponents| && entityComponents[entityId].Some? && Get(entityId, familyId) != null
    {
      GetComponentsByEntityAndFamilyComplete(entityId, familyId, [], i);
      assert GetComponentsByEntityAndFamily(entityId, familyId, [])[0..] ==
             GetComponentsByEntityAndFamily(entityId, familyId, []);
    }

    /** CountComponentsByEntityAndFamily: the number of components that
        GetComponentsByEntityAndFamily would append, counted by a scan of
        the entity's bucket.  The source indexes that bucket without a range
        or null check. */
    method CountComponentsByEntityAndFamily(entityId: int, familyId: int) returns (size: nat)
      requires ValidateEntity(entityId) && ValidateFamily(familyId) ==>
        entityId < |entityComponents| && entityComponents[entityId].Some?
      ensures size == |GetComponentsByEntityAndFamily(entityId, familyId, [])|
    {
      size := 0;
      if ValidateEntity(entityId) && ValidateFamily(familyId) {
        var b := entityComponents[entityId].value;
        for i := 0 to |b|
          invariant size == |WithFamily(b[..i], familyId)|
        {
          WithFamilySnoc(b[..i], b[i], familyId);
          assert b[..i + 1] == b[..i] + [b[i]];
          if b[i].familyId == familyId {
            size := size + 1;
          }
        }
        assert b[..|b|] == b;
      }
    }

    /** Size: the number of slots, deleted ones included; under the
        invariant the last one is live. */
    function Size(): (n: nat)
      reads this, entitySystem, Objects()
      ensures n == |components|
      ensures Valid() && n > 0 ==> components[n - 1] != null && components[n - 1].Valid()
    {
      |components|
    }

    /** EntitySize: the size of the entity allocator. */
    function EntitySize(): (n: nat)
      reads this, entitySystem
      ensures n == |entitySystem.entities|
    {
      entitySystem.Size()
    }

    /** ErasedIDSize: the length of the free list; under the invariant it
        is empty exactly when no slot is marked. */
    function ErasedIDSize(): (n: nat)
      reads this, entitySystem, Objects()
      ensures n == |erasedIds|
      ensures Valid() ==> (n == 0 <==> forall i | 0 <= i < |components| :: !components[i].markedForDeletion)
    {
      FreeListEmptyIff();
      |erasedIds|
    }

    lemma FreeListEmptyIff()
      ensures Valid() ==> (erasedIds == [] <==> forall i | 0 <= i < |components| :: !components[i].markedForDeletion)
    {
      if Valid() && erasedIds != [] {
        var ms := Flags(components);
        assert ms[erasedIds[0]];
      }
    }
  
    /** AppendComponentsByEntity: an entity past the end of the index first
        grows it with null buckets; then the entity's bucket is appended to
        the caller's list.  A null bucket makes AddRange throw after the
        index has grown: ok is false, the list is left as it was and the
        grown index stays. */
    method AppendComponentsByEntity(entityId: int, componentsList: seq<Component>) returns (ok: bool, r: seq<Component>)
      requires ValidateEntity(entityId)
      modifies this
      ensures components == old(components) && erasedIds == old(erasedIds)
      ensures familyComponents == old(familyComponents)
      ensures entityComponents == if entityId < old(|entityComponents|) then old(entityComponents)
                                  else Resize(old(entityComponents), entityId + 1, None)
      ensures ok <==> entityId < old(|entityComponents|) && old(entityComponents)[entityId].Some?
      ensures ok ==> r == componentsList + GetComponentsByEntity(entityId, [])
      ensures !ok ==> r == componentsList
      ensures old(Valid()) ==> Valid()
    {
      if entityId >= |entityComponents| {
        GrowEntityIndex(entityId + 1);
      }
      var bucket := entityComponents[entityId];
      if bucket.None? {
        return false, componentsList;
      }
      return true, componentsList + bucket.value;
    }

    /** ListExt.Resize on the entity index, growing it with null buckets
        to n entries. */
    method GrowEntityIndex(n: nat)
      requires n > |entityComponents|
      modifies this
      ensures entityComponents == Resize(old(entityComponents), n, None)
      ensures components == old(components) && erasedIds == old(erasedIds)
      ensures familyComponents == old(familyComponents)
      ensures old(Valid()) ==> Valid()
    {
      ghost var st0, ms0 := State(), Flags(components);
      if Inv(st0, ms0) {
        GrownKeepsInv(st0, ms0, n);
      }
      entityComponents := Resize(entityComponents, n, None);
    }

    /** RebuildErasedIDs: the free list is rebuilt from the flags, listing
        every marked slot from 1 on in ascending order.  The source
        dereferences every slot from 1 on.  RebuiltValid states what this
        means for a valid store. */
    method RebuildErasedIDs()
      requires forall i | 1 <= i < |components| :: components[i] != null
      modifies this
      ensures erasedIds == MarkedIds(Flags(components), |components|)
      ensures components == old(components) && entityComponents == old(entityComponents)
      ensures familyComponents == old(familyComponents)
    {
      ghost var ms := Flags(components);
      erasedIds := [];
      var i := 1;
      while i < |components|
        invariant 1 <= i && (i <= |ms| || |ms| <= 1)
        invariant components == old(components) && |ms| == |components|
        invariant forall j | 1 <= j < |ms| :: ms[j] == !components[j].Valid()
        invariant entityComponents == old(entityComponents) && familyComponents == old(familyComponents)
        invariant erasedIds == MarkedIds(ms, if i <= |ms| then i else |ms|)
      {
        MarkedIdsNext(ms, i);
        if !components[i].Valid() {
          erasedIds := erasedIds + [i];
        }
        i := i + 1;
      }
    }

    /** Rebuilding the free list of a valid store keeps it valid and keeps
        the ids on it. */
    lemma RebuiltValid(st0: Store)
      requires entitySystem.Valid() && Inv(st0, Flags(st0.components))
      requires State() == st0.(erasedIds := MarkedIds(Flags(st0.components), |st0.components|))
      ensures Valid()
      ensures forall x :: x in erasedIds <==> x in st0.erasedIds
    {
      RebuildKeepsInv(st0, Flags(st0.components));
      RebuildSameIds(st0, Flags(st0.components));
    }

    /** CreateNewEntityUnderId: reserve an entity id in the allocator; a
        non-positive id throws. */
    method CreateNewEntityUnderId(entityId: int) returns (r: int)
      requires ValidateEntity(entityId) && entitySystem.Valid()
      modifies entitySystem
      ensures entitySystem.Valid() && entitySystem.Exist(entityId)
      ensures old(Valid()) ==> Valid()
      ensures r == 0 <==> old(entitySystem.Exist(entityId))
      ensures old(entitySystem.Exist(entityId)) ==>
        entitySystem.entities == old(entitySystem.entities) && entitySystem.erasedIds == old(entitySystem.erasedIds)
      ensures entityId in old(entitySystem.erasedIds) ==>
        r == entityId && entitySystem.entities == old(entitySystem.entities) &&
        entitySystem.erasedIds == RemoveFirst(old(entitySystem.erasedIds), entityId)
      ensures entityId == old(|entitySystem.entities|) ==>
        r == entityId + 1 && entitySystem.entities == old(entitySystem.entities) + [entityId] &&
        entitySystem.erasedIds == old(entitySystem.erasedIds)
      ensures entityId > old(|entitySystem.entities|) ==>
        r == entityId && entitySystem.entities == Range(0, entityId + 1) &&
        entitySystem.erasedIds == old(entitySystem.erasedIds) + Range(old(|entitySystem.entities|), entityId)
    {
      r := entitySystem.CreateNewEntityUnderId(entityId);
    }

    /** AddToComponentArray: file c under its entity (growing the index with
        null buckets, creating the bucket if it is null) and under its
        family (creating the bucket if the family is new).  A negative
        entity id indexes out of range in the source. */
    method AddToComponentArray(c: Component)
      requires c.entityId >= 0
      modifies this
      ensures components == old(components) && erasedIds == old(erasedIds)
      ensures entityComponents == Appended(old(entityComponents), c.entityId, c)
      ensures familyComponents == AddedToFamily(old(familyComponents), c.familyId, c)
    {
      if c.entityId >= |entityComponents| {
        entityComponents := Resize(entityComponents, c.entityId + 1, None);
      }
      if entityComponents[c.entityId].None? {
        entityComponents := entityComponents[c.entityId := Some([])];
      }
      entityComponents := entityComponents[c.entityId := Some(entityComponents[c.entityId].value + [c])];
      if !(c.familyId in familyComponents) {
        familyComponents := familyComponents[c.familyId := []];
      }
      familyComponents := familyComponents[c.familyId := familyComponents[c.familyId] + [c]];
    }

    /** AttachComponent: append c as it is (its unique id is not rewritten)
        and file it.  The invariant survives when c is live and its id
        names the new slot. */
    method AttachComponent(c: Component) returns (r: bool)
      requires c.entityId >= 0
      modifies this
      ensures r
      ensures State() == Append(old(State()), c)
      ensures old(Valid()) && !c.markedForDeletion && c.uniqueId == old(|components|) ==> Valid()
    {
      ghost var st0, ms0 := State(), Flags(components);
      ghost var v0 := Valid();
      components := components + [c];
      AddToComponentArray(c);
      if v0 && !c.markedForDeletion && c.uniqueId == |st0.components| {
        AppendedValid(st0, ms0, c);
      }
      r := true;
    }

    /** AttachArray: AttachComponent on each component in turn. */
    method AttachArray(componentArray: seq<Component>)
      requires forall k | 0 <= k < |componentArray| :: componentArray[k].entityId >= 0
      modifies this
      ensures State() == AppendAll(old(State()), componentArray, |componentArray|)
      ensures old(Valid()) && Attachable(componentArray, old(|components|)) ==> Valid()
    {
      ghost var st0, ms0 := State(), Flags(components);
      ghost var v0 := Valid() && Attachable(componentArray, |components|);
      var i := 0;
      while i < |componentArray|
        invariant 0 <= i <= |componentArray|
        invariant State() == AppendAll(st0, componentArray, i)
      {
        AppendAllNext(st0, componentArray, i);
        var _ := AttachComponent(componentArray[i]);
        i := i + 1;
      }
      if v0 {
        AttachedValid(st0, ms0, componentArray);
      }
    }

    /** Replace: install a new component of the family under uniqueId, but
        only when RefCount(uniqueId) is 0, that is, when uniqueId is at or
        past the end of the array; otherwise null. */
    method Replace(familyId: int, uniqueId: int, entityId: int) returns (r: Component?)
      requires ValidateEntity(entityId)
      modifies this
      ensures old(RefCount(uniqueId)) != 0 ==> r == null && State() == old(State())
      ensures old(RefCount(uniqueId)) == 0 ==>
        r != null && fresh(r) && r.uniqueId == uniqueId && r.entityId == entityId && r.familyId == familyId &&
        !r.markedForDeletion && State() == Installed(old(State()), r)
    {
      if RefCount(uniqueId) == 0 {
        if uniqueId >= |components| {
          components := Resize(components, uniqueId + 1, null);
        }
        var c := new Component(familyId, entityId, uniqueId);
        components := components[uniqueId := c];
        AddToComponentArray(c);
        r := c;
        return;
      }
      r := null;
    }

    /** The append path of CreateComponent: a new live component of the
        family for the entity, numbered by the slot it is appended to, and
        filed. */
    method AppendNew(familyId: int, entityId: int) returns (r: Component)
      requires ValidateEntity(entityId)
      modifies this
      ensures fresh(r) && r.uniqueId == old(|components|) && r.entityId == entityId &&
        r.familyId == familyId && !r.markedForDeletion
      ensures State() == Append(old(State()), r)
      ensures old(Valid()) ==> Valid()
    {
      ghost var st0, ms0 := State(), Flags(components);
      ghost var v0 := Valid();
      var c := new Component(familyId, entityId, |components|);
      components := components + [c];
      AddToComponentArray(c);
      r := components[|components| - 1];
      if v0 {
        AppendedValid(st0, ms0, c);
      }
    }

    /** CreateComponent: with an empty free list, append a new live
        component of the family for the entity, numbered by its slot; with
        a non-empty one, take the oldest free id off the list and hand it to
        Replace, which, since every free id of a valid store is a slot,
        returns null and leaves Validate failing. */
    method CreateComponent(familyId: int, entityId: int) returns (r: Component?)
      requires ValidateEntity(entityId)
      modifies this
      ensures old(erasedIds) == [] ==>
        r != null && fresh(r) && r.uniqueId == old(|components|) && r.entityId == entityId &&
        r.familyId == familyId && !r.markedForDeletion && State() == Append(old(State()), r)
      ensures old(erasedIds) != [] ==> erasedIds == old(erasedIds)[1..]
      ensures old(erasedIds) != [] && old(erasedIds)[0] < old(|components|) ==>
        r == null && components == old(components) && entityComponents == old(entityComponents) &&
        familyComponents == old(familyComponents)
      ensures old(erasedIds) != [] && old(erasedIds)[0] >= old(|components|) ==>
        r != null && fresh(r) && r.uniqueId == old(erasedIds)[0] && r.entityId == entityId &&
        r.familyId == familyId && !r.markedForDeletion &&
        State() == Installed(Store(old(components), old(erasedIds)[1..], old(entityComponents), old(familyComponents)), r)
      ensures old(Valid()) && old(erasedIds) == [] ==> Valid()
      ensures old(Valid()) && old(erasedIds) != [] ==> r == null && !Validate()
    {
      if |erasedIds| == 0 {
        r := AppendNew(familyId, entityId);
        return;
      }
      if Valid() {
        DequeuedFails(State());
      }
      var erasedId := erasedIds[0];
      erasedIds := erasedIds[1..];
      r := Replace(familyId, erasedId, entityId);
    }

    /** DuplicateComponent: CreateComponent for the new entity; the source
        component itself is not copied.  The source dereferences the created
        component, so the call must not take the recycle path that yields
        null. */
    method DuplicateComponent(familyId: int, newEntityId: int, sourceComponent: Component) returns (r: Component)
      requires ValidateEntity(newEntityId)
      requires erasedIds == [] || erasedIds[0] >= |components|
      modifies this
      ensures fresh(r) && r != sourceComponent
      ensures r.entityId == newEntityId && r.familyId == familyId && !r.markedForDeletion
      ensures old(erasedIds) == [] ==> r.uniqueId == old(|components|) && State() == Append(old(State()), r)
      ensures old(erasedIds) != [] ==>
        r.uniqueId == old(erasedIds)[0] &&
        State() == Installed(Store(old(components), old(erasedIds)[1..], old(entityComponents), old(familyComponents)), r)
      ensures old(Valid()) ==> Valid()
    {
      ghost var v0 := Valid();
      if v0 {
        assert FreeListOk(State(), Flags(components));
      }
      var created := CreateComponent(familyId, newEntityId);
      r := created;
    }

    /** ResetComponent: mark the component of slot uniqueId, provided the
        slot is in range, is not slot 0, and is not marked yet; report
        whether it did.  Only that component changes. */
    method ResetComponent(uniqueId: int) returns (ok: bool)
      requires 0 < uniqueId < |components| ==> components[uniqueId] != null
      modifies if 0 < uniqueId < |components| then {components[uniqueId]} else {}
      ensures ok <==> 0 < uniqueId < |components| && !old(components[uniqueId].markedForDeletion)
      ensures 0 < uniqueId < |components| ==> components[uniqueId].markedForDeletion
    {
      if 0 < uniqueId < |components| && components[uniqueId].Valid() {
        components[uniqueId].markedForDeletion := true;
        return true;
      }
      return false;
    }

    /** One turn of the first compaction loop of DeleteComponent
        (ECS/ComponentSystem.cs:579-593): the id of the last slot leaves the
        free list, the marked entries of its entity's bucket are swept out,
        and the slot is popped.  Where that bucket holds no marked entry, as
        on a coherent store, the sweep changes nothing. */
    method PopMarkedTop()
      requires |components| > 0 && components[|components| - 1] != null
      requires var c := components[|components| - 1];
        c.uniqueId == |components| - 1 && c.entityId >= 0 &&
        (c.entityId < |entityComponents| && entityComponents[c.entityId].Some? ==>
           Unmarked(entityComponents[c.entityId].value))
      modifies this
      ensures State() == PoppedTop(old(State()))
    {
      ghost var st := State();
      var top := Back(components);
      erasedIds := RemoveFirst(erasedIds, top.uniqueId);
      var eid := top.entityId;
      if eid < |entityComponents| && entityComponents[eid].Some? {
        WithoutMarkedNone(entityComponents[eid].value);
        entityComponents := entityComponents[eid := Some(WithoutMarked(entityComponents[eid].value))];
        assert entityComponents == st.entityComponents;
      }
      components := PopBack(components);
    }

    /** PopMarkedTop, seen from the loop that started on slots c0 with free
        list e0: the array stays a prefix of c0, the free list the ids of e0
        below its size, the indexes stay, and the size the loop ends at
        stays the same. */
    method PopMarkedTopFrom(ghost c0: seq<Component?>, ghost e0: seq<int>)
      requires 0 < |components| <= |c0| && components == c0[..|components|]
      requires Distinct(e0) && erasedIds == Below(e0, |components|) && |components| - 1 in e0
      requires components[|components| - 1] != null
      requires var c := components[|components| - 1];
        c.uniqueId == |components| - 1 && c.entityId >= 0 &&
        (c.entityId < |entityComponents| && entityComponents[c.entityId].Some? ==>
           Unmarked(entityComponents[c.entityId].value))
      modifies this
      ensures |components| == old(|components|) - 1 && components == c0[..|components|]
      ensures erasedIds == Below(e0, |components|)
      ensures entityComponents == old(entityComponents) && familyComponents == old(familyComponents)
      ensures CompactedSize(|components|, e0) == CompactedSize(old(|components|), e0)
    {
      PoppedPrefix(Store(c0, e0, entityComponents, familyComponents), |components|);
      PopMarkedTop();
    }

    /** The first compaction loop of DeleteComponent: pop the marked tail
        of the array.  It needs the slots to carry their index as id, the
        free list to be the marked slots without repetitions, and the
        entity buckets to hold no marked entry; the result is then the
        truncated store. */
    method CompactTail()
      requires Distinct(erasedIds) && forall k | 0 <= k < |erasedIds| :: erasedIds[k] < |components|
      requires forall i | 0 <= i < |components| ::
        components[i] != null && components[i].uniqueId == i && components[i].entityId >= 0 &&
        (components[i].markedForDeletion <==> i in erasedIds)
      requires forall e | 0 <= e < |entityComponents| && entityComponents[e].Some? ::
        Unmarked(entityComponents[e].value)
      modifies this
      ensures State() == Truncated(old(State()))
    {
      ghost var st0 := State();
      ghost var size := CompactedSize(|components|, erasedIds);
      BelowAll(erasedIds, |components|);
      while |components| > 0 && Back(components).markedForDeletion
        invariant |components| <= |st0.components| && components == st0.components[..|components|]
        invariant entityComponents == st0.entityComponents && familyComponents == st0.familyComponents
        invariant erasedIds == Below(st0.erasedIds, |components|)
        invariant CompactedSize(|components|, st0.erasedIds) == size
        decreases |components|
      {
        assert components[|components| - 1] == st0.components[|components| - 1];
        PopMarkedTopFrom(st0.components, st0.erasedIds);
      }
      assert |components| == size by {
        if |components| > 0 {
          assert components[|components| - 1] == st0.components[|components| - 1];
          assert |components| - 1 !in st0.erasedIds;
        }
      }
    }

    /** The second compaction loop of DeleteComponent: drop the null or
        empty buckets at the end of the entity index. */
    method PruneEntityTail()
      modifies this
      ensures entityComponents == Pruned(old(entityComponents))
      ensures components == old(components) && erasedIds == old(erasedIds)
      ensures familyComponents == old(familyComponents)
    {
      while |entityComponents| > 0
        invariant Pruned(entityComponents) == Pruned(old(entityComponents))
        invariant components == old(components) && erasedIds == old(erasedIds)
        invariant familyComponents == old(familyComponents)
        decreases |entityComponents|
      {
        var length := |entityComponents| - 1;
        if (entityComponents[length].Some? && |entityComponents[length].value| == 0) || entityComponents[length].None? {
          entityComponents := entityComponents[..length];
        } else {
          break;
        }
      }
    }

    /** Both compaction loops of DeleteComponent, on a coherent store: the
        result is the compacted store, and it keeps the invariant. */
    method Compact()
      requires Coherent(State(), Flags(components))
      modifies this
      ensures State() == Compacted(old(State()))
      ensures Inv(State(), Flags(components))
    {
      ghost var st, ms := State(), Flags(components);
      CoherentCompactable(st, ms);
      CompactTail();
      PruneEntityTail();
      assert Flags(st.components) == ms;
      CompactedValid(st, ms);
    }

    /** The detaching part of DeleteComponent on slot id once it is marked
        (ECS/ComponentSystem.cs:554-573): the entries with its unique id
        leave the family bucket, which goes once empty, and the entity
        bucket; the slot is then popped when last, or queued as free. */
    method Detach(id: int)
      requires 0 <= id < |components| && components[id] != null && components[id].entityId >= 0
      modifies this
      ensures State() == Retired(old(State()), id)
      ensures |components| <= old(|components|) && components == old(components)[..|components|]
      ensures Flags(old(components)) == old(Flags(components))
    {
      var c := components[id];
      Unfile(c.familyId, c.entityId, c.uniqueId);
      if id == |components| - 1 {
        components := PopBack(components);
      } else {
        erasedIds := erasedIds + [id];
      }
    }

    /** The first half of Detach: the entries with unique id uid leave the
        bucket of family familyId, which goes when it empties, and the
        bucket of entity entityId, when that bucket exists. */
    method Unfile(familyId: int, entityId: int, uniqueId: int)
      requires entityId >= 0
      modifies this
      ensures familyComponents == DetachedFromFamily(old(familyComponents), familyId, uniqueId)
      ensures entityComponents == DetachedFromEntity(old(entityComponents), entityId, uniqueId)
      ensures components == old(components) && erasedIds == old(erasedIds)
    {
      var families, entities := familyComponents, entityComponents;
      if familyId in families {
        families := families[familyId := WithoutUid(families[familyId], uniqueId)];
        if |families[familyId]| == 0 {
          families := families - {familyId};
        }
      }
      if entityId < |entities| && entities[entityId].Some? {
        entities := entities[entityId := Some(WithoutUid(entities[entityId].value, uniqueId))];
      }
      entityComponents, familyComponents := entities, families;
    }

    /** ResetComponent on an array whose slots carry their index as id:
        the slot flags change only at id, and only when it was marked. */
    method MarkSlot(id: int) returns (marked: bool)
      requires 0 <= id < |components|
      requires forall i | 0 <= i < |components| :: components[i] != null && components[i].uniqueId == i
      modifies components[id]
      ensures marked <==> 0 < id && !old(components[id].markedForDeletion)
      ensures 0 < id ==> components[id].markedForDeletion
      ensures Flags(components) == if marked then old(Flags(components))[id := true] else old(Flags(components))
    {
      ghost var ms0 := Flags(components);
      marked := ResetComponent(id);
      ghost var ms1 := if marked then ms0[id := true] else ms0;
      forall i | 0 <= i < |components| ensures Flags(components)[i] == ms1[i] {
        assert components[i].uniqueId == i;
      }
    }

    /** Coherent, from a coherent store that is the current one and holds
        a prefix of slots c0, with the flags c0 still carries. */
    lemma CoherentPrefix(st: Store, ms: seq<bool>, c0: seq<Component?>)
      requires Coherent(st, ms) && State() == st
      requires |st.components| <= |c0| && st.components == c0[..|st.components|]
      requires ms == Flags(c0)[..|st.components|]
      ensures Coherent(State(), Flags(components))
    {
      FlagsPrefix(c0, |components|);
    }

    /** The marking part of DeleteComponent on slot id
        (ECS/ComponentSystem.cs:554-574): ResetComponent, and when it marks
        the slot, Detach.  The store stays coherent, with the slot's flag
        now set. */
    method MarkAndDetach(id: int) returns (marked: bool)
      requires Valid() && 0 <= id < |components|
      modifies this, components[id]
      ensures marked <==> 0 < id && !old(components[id].markedForDeletion)
      ensures 0 < id ==> old(components[id]).markedForDeletion
      ensures State() == if marked then Retired(old(State()), id) else old(State())
      ensures Coherent(State(), Flags(components))
    {
      ghost var st0, ms0 := State(), Flags(components);
      assert SlotsOk(st0, ms0);
      marked := MarkSlot(id);
      if marked {
        RetireKeepsCoherent(st0, ms0, id);
        Detach(id);
        CoherentPrefix(State(), MarkedFlags(ms0, id, |components|), st0.components);
      }
    }

    /** DeleteComponent: an id past the end is ignored (true), a slot of
        family 0 is refused (false); otherwise the component is marked and
        detached if ResetComponent accepts it (a live slot other than slot
        0), and both compaction loops run either way.  The store stays
        valid. */
    method DeleteComponent(componentId: int) returns (r: bool)
      requires Valid() && componentId >= 0
      modifies this, if componentId < |components| then {components[componentId]} else {}
      ensures componentId >= old(|components|) ==> r && State() == old(State())
      ensures componentId < old(|components|) && old(components[componentId].familyId) == 0 ==>
        !r && State() == old(State())
      ensures componentId < old(|components|) && old(components[componentId].familyId) != 0 ==>
        r &&
        State() == (if 0 < componentId && !old(components[componentId].markedForDeletion)
                    then Compacted(Retired(old(State()), componentId))
                    else Compacted(old(State()))) &&
        (0 < componentId ==> old(components[componentId]).markedForDeletion)
      ensures Valid()
    {
      if componentId < |components| {
        var c := components[componentId];
        if c.familyId == 0 {
          return false;
        }
        var marked := MarkAndDetach(componentId);
        Compact();
      }
      return true;
    }
  }
}
