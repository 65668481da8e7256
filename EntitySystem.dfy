/** The entity-id allocator of ECS/EntitySystem.cs.  `entities` is the
    `List<int> Entities` (always 0, 1, ..., Size() - 1, so it acts as a
    high-water mark) and `erasedIds` is the `LinkedList<int> ErasedIds`, the
    FIFO queue of retired ids waiting to be handed out again. */
module Entities {
  import opened Lists

  /** The state Test() (ECS/EntitySystem.cs:200-205) leaves before its last
      Delete: ids 1 .. n - 1 all retired.  From any size m <= n, compaction
      falls back to id 0 alone. */
  lemma {:induction false} CompactedSizeOfGap(m: nat, n: nat)
    requires 1 <= m <= n
    ensures CompactedSize(m, Range(1, n)) == 1
  {
    if m > 1 {
      assert Range(1, n)[m - 2] == m - 1;
      CompactedSizeOfGap(m - 1, n);
    }
  }

  /** List<int>.Remove(Count - 1) on 0, 1, ..., Count - 1 drops the last entry,
      which is why EraseLast removes the top id (ECS/EntitySystem.cs:161-167). */
  lemma RemoveTopId(s: seq<int>)
    requires |s| > 0
    requires forall i :: 0 <= i < |s| ==> s[i] == i
    ensures RemoveFirst(s, |s| - 1) == s[..|s| - 1]
  {
    assert s[|s| - 1] == |s| - 1;
    var i := IndexOf(s, |s| - 1);
    assert s[i] == i;
  }

  /** Exist as written at ECS/EntitySystem.cs:140-154: only the upper bound
      of the id is checked, so a negative id "exists". */
  function ExistAsWritten(size: nat, erased: seq<int>, id: int): (r: bool)
    ensures r ==> id !in erased
    ensures id < 0 && id !in erased ==> r
  {
    id < size && id !in erased
  }

  /** Delete as written at ECS/EntitySystem.cs:104-138, on an id list
      0 .. size - 1, with the as-written existence test.  The result is
      (reported success, new size, new free list). */
  function DeleteAsWritten(size: nat, erased: seq<int>, id: int): (r: (bool, nat, seq<int>))
    requires size > 0
    ensures r.0 <==> ExistAsWritten(size, erased, id)
    ensures !r.0 ==> r.1 == size && r.2 == erased
    ensures r.0 ==> r.1 <= size && (r.1 > 0 ==> r.1 - 1 !in r.2)
    ensures r.0 ==> forall x :: x in r.2 <==> (x in erased || x == id) && x < r.1
    ensures r.0 && id != size - 1 ==> r.1 == CompactedSize(size, erased + [id]) && r.2 == Below(erased + [id], r.1)
    ensures r.0 && id == size - 1 ==> r.1 == CompactedSize(size - 1, erased) && r.2 == Below(erased, r.1)
  {
    if !ExistAsWritten(size, erased, id) then (false, size, erased)
    else if id != size - 1 then
      var n := CompactedSize(size, erased + [id]); (true, n, Below(erased + [id], n))
    else
      var n := CompactedSize(size - 1, erased); (true, n, Below(erased, n))
  }

  /** Counterexample: on a fresh allocator Delete(-1) as written reports
      success and puts -1 on the free list; the next CreateNewEntity would
      then write Entities[-1] (ECS/EntitySystem.cs:40-42) and throw. */
  lemma NegativeIdPoisonsFreeList()
    ensures ExistAsWritten(1, [], -1)
    ensures DeleteAsWritten(1, [], -1) == (true, 1, [-1])
  {
    assert [] + [-1] == [-1];
    assert CompactedSize(1, [-1]) == 1;
    assert Below([-1], 1) == [-1];
  }

  /** The free list CreateNewEntityUnderId leaves when it reserves m past
      the top n0: the old retired ids, then n0 .. m - 1, all distinct, all
      below m + 1, and m itself not among them. */
  lemma GapRetired(e0: seq<int>, n0: nat, m: int)
    requires Distinct(e0) && n0 <= m
    requires forall k :: 0 <= k < |e0| ==> 0 <= e0[k] < n0
    ensures Distinct(e0 + Range(n0, m))
    ensures forall k :: 0 <= k < |e0 + Range(n0, m)| ==> 0 <= (e0 + Range(n0, m))[k] < m
    ensures m !in e0 + Range(n0, m)
  {
    var s := e0 + Range(n0, m);
    forall j, k | 0 <= j < k < |s| ensures s[j] != s[k] {
      if j < |e0| <= k { assert s[j] < n0 <= s[k]; }
    }
    assert forall k :: 0 <= k < |s| ==> 0 <= s[k] < m by {
      forall k | 0 <= k < |s| ensures 0 <= s[k] < m {
        if k < |e0| { assert s[k] == e0[k]; } else { assert s[k] == Range(n0, m)[k - |e0|]; }
      }
    }
  }

  class EntitySystem {
    var entities: seq<int>
    var erasedIds: seq<int>

    /** Entities[i] == i, and the free list holds distinct allocated ids. */
    ghost predicate Ordered()
      reads this
    {
      && (forall i :: 0 <= i < |entities| ==> entities[i] == i)
      && (forall k :: 0 <= k < |erasedIds| ==> 0 <= erasedIds[k] < |entities|)
      && Distinct(erasedIds)
    }

    /** Ordered, and the top id is never on the free list. */
    ghost predicate Valid()
      reads this
    {
      Ordered() && (|entities| > 0 ==> |entities| - 1 !in erasedIds)
    }

    /** A fresh allocator holds only id 0 and an empty free list. */
    constructor ()
      ensures Valid()
      ensures entities == [0] && erasedIds == []
    {
      entities := [0];
      erasedIds := [];
    }

    /** Number of allocated slots, retired ids included. */
    function Size(): (n: nat)
      reads this
      ensures n == |entities|
      ensures Valid() && n > 0 ==> Exist(n - 1)
    {
      |entities|
    }

    /** Whether id is allocated and not retired.  The source checks only the
        upper bound; this model also demands 0 <= id (see ExistAsWritten). */
    function Exist(id: int): (r: bool)
      reads this
      ensures Valid() ==> (r <==> id in entities && id !in erasedIds)
    {
      assert Valid() && 0 <= id < |entities| ==> entities[id] == id;
      0 <= id < |entities| && id !in erasedIds
    }

    /** Hand out the oldest retired id, or one past the top when none is retired. */
    method CreateNewEntity() returns (id: int)
      requires Valid()
      modifies this
      ensures Valid() && Exist(id)
      ensures old(erasedIds) == [] ==>
        id == old(|entities|) && entities == old(entities) + [id] && erasedIds == []
      ensures old(erasedIds) != [] ==>
        id == old(erasedIds)[0] && entities == old(entities) && erasedIds == old(erasedIds)[1..]
    {
      if |erasedIds| == 0 {
        entities := entities + [|entities|];
        id := entities[|entities| - 1];
      } else {
        var erasedId := erasedIds[0];
        erasedIds := erasedIds[1..];
        entities := entities[erasedId := erasedId];
        id := erasedId;
        forall k | 0 <= k < |erasedIds| ensures erasedIds[k] != erasedId {
          assert erasedIds[k] == old(erasedIds)[k + 1];
        }
      }
    }

    /** Reserve a chosen id (restoring saved state).  Fails with 0 for
        id <= 0 or a live id; takes the id off the free list when it is
        retired; for an id past the top it retires every id in between.
        For id == Size() it returns id + 1, as the source does. */
    method CreateNewEntityUnderId(entityId: int) returns (r: int)
      requires Valid()
      modifies this
      ensures Valid()
      ensures entityId > 0 ==> Exist(entityId)
      ensures entityId <= 0 || old(Exist(entityId)) ==>
        r == 0 && entities == old(entities) && erasedIds == old(erasedIds)
      ensures entityId > 0 && entityId in old(erasedIds) ==>
        r == entityId && entities == old(entities) && erasedIds == RemoveFirst(old(erasedIds), entityId)
      ensures entityId > 0 && entityId == old(|entities|) ==>
        r == entityId + 1 && entities == old(entities) + [entityId] && erasedIds == old(erasedIds)
      ensures entityId > old(|entities|) ==>
        r == entityId && entities == Range(0, entityId + 1) &&
        erasedIds == old(erasedIds) + Range(old(|entities|), entityId)
    {
      if entityId > 0 {
        if Exist(entityId) {
          return 0;
        }
        if |erasedIds| > 0 {
          var found, k := Find(erasedIds, entityId);
          if found {
            TakeRetired(entityId, k);
            return entityId;
          }
        }
        if entityId == |entities| {
          entities := entities + [|entities|];
          return |entities|;
        }
        if entityId < |entities| {
          return 0;
        }
        RetireGap(entityId);
        return entityId;
      }
      return 0;
    }

    /** The found branch of CreateNewEntityUnderId: unlink the node at
        position k of the free list and store the id in its slot. */
    method TakeRetired(entityId: int, k: nat)
      requires Valid()
      requires k < |erasedIds| && erasedIds[k] == entityId && k == IndexOf(erasedIds, entityId)
      modifies this
      ensures Valid()
      ensures entities == old(entities) && erasedIds == RemoveFirst(old(erasedIds), entityId)
    {
      RemoveFirstDistinct(erasedIds, entityId);
      erasedIds := erasedIds[..k] + erasedIds[k + 1..];
      entities := entities[entityId := entityId];
      forall j | 0 <= j < |erasedIds| ensures 0 <= erasedIds[j] < |entities| {
        assert erasedIds[j] in erasedIds;
      }
    }

    /** The gap branch of CreateNewEntityUnderId: allocate every id from the
        top up to entityId - 1 as retired, then entityId itself. */
    method RetireGap(entityId: int)
      requires Valid() && entityId > |entities|
      modifies this
      ensures Valid()
      ensures entities == Range(0, entityId + 1)
      ensures erasedIds == old(erasedIds) + Range(old(|entities|), entityId)
    {
      ghost var n0, e0 := |entities|, erasedIds;
      var i := |entities|;
      assert entities == Range(0, i);
      while i < entityId
        invariant n0 <= i <= entityId
        invariant entities == Range(0, i)
        invariant erasedIds == e0 + Range(n0, i)
      {
        RangeSnoc(0, i);
        RangeSnoc(n0, i);
        entities := entities + [i];
        erasedIds := erasedIds + [i];
        i := i + 1;
      }
      RangeSnoc(0, entityId);
      entities := entities + [entityId];
      GapRetired(e0, n0, entityId);
    }

    /** Retire an id.  A non-top id is queued on the free list; the top id is
        dropped, and then every retired id that becomes the top is dropped
        too, leaving the free list's ids below the new top in their order. */
    method Delete(entityId: int) returns (r: bool)
      requires Valid()
      modifies this
      ensures Valid() && !Exist(entityId)
      ensures r == old(Exist(entityId))
      ensures !r ==> entities == old(entities) && erasedIds == old(erasedIds)
      ensures r && entityId != old(|entities|) - 1 ==>
        entities == old(entities) && erasedIds == old(erasedIds) + [entityId]
      ensures r && entityId == old(|entities|) - 1 ==>
        |entities| == CompactedSize(entityId, old(erasedIds)) &&
        erasedIds == Below(old(erasedIds), |entities|)
    {
      if Exist(entityId) {
        if entityId != entities[|entities| - 1] {
          QueueRetired(entityId);
        } else {
          EraseTop();
        }
        CompactTop();
        return true;
      }
      return false;
    }

    /** The first branch of Delete: a live id below the top joins the end
        of the free list. */
    method QueueRetired(entityId: int)
      requires Valid() && Exist(entityId) && entityId != |entities| - 1
      modifies this
      ensures Valid()
      ensures entities == old(entities) && erasedIds == old(erasedIds) + [entityId]
    {
      erasedIds := erasedIds + [entityId];
      forall j, k | 0 <= j < k < |erasedIds| ensures erasedIds[j] != erasedIds[k] {
        if k == |erasedIds| - 1 { assert erasedIds[j] in old(erasedIds); }
      }
    }

    /** The second branch of Delete: the live top id is dropped. */
    method EraseTop()
      requires Valid() && |entities| > 0
      modifies this
      ensures Ordered()
      ensures entities == old(entities)[..old(|entities|) - 1] && erasedIds == old(erasedIds)
    {
      EraseLast();
      forall k | 0 <= k < |erasedIds| ensures erasedIds[k] < |entities| {
        assert erasedIds[k] in old(erasedIds);
      }
    }

    /** The loop at the end of Delete (ECS/EntitySystem.cs:113-133): while
        the top id is retired, drop it from both lists. */
    method CompactTop()
      requires Ordered()
      modifies this
      ensures Valid()
      ensures |entities| == CompactedSize(old(|entities|), old(erasedIds))
      ensures erasedIds == Below(old(erasedIds), |entities|)
      ensures old(|entities|) > 0 && old(|entities|) - 1 !in old(erasedIds) ==>
        entities == old(entities) && erasedIds == old(erasedIds)
    {
      ghost var n0, e0 := |entities|, erasedIds;
      BelowAll(e0, n0);
      assert entities == Range(0, n0);
      while |entities| > 0
        invariant Compacting(n0, e0)
        decreases |entities|
      {
        var erased := DropTopIfRetired(n0, e0);
        if !erased {
          break;
        }
      }
      forall k | 0 <= k < |erasedIds| ensures 0 <= erasedIds[k] < |entities| {
        assert erasedIds[k] in e0;
      }
    }

    /** Where the compaction loop of Delete stands, started from size n0 and
        free list e0: some top ids are gone, each of them retired, and the
        free list has lost exactly those. */
    ghost predicate Compacting(n0: nat, e0: seq<int>)
      reads this
    {
      && Distinct(e0)
      && |entities| <= n0 && entities == Range(0, |entities|)
      && Distinct(erasedIds) && erasedIds == Below(e0, |entities|)
      && CompactedSize(|entities|, e0) == CompactedSize(n0, e0)
    }

    /** One turn of that loop (ECS/EntitySystem.cs:115-131): scan the free
        list for the top id; when it is there, EraseLast and
        ErasedIds.Remove(lastId). */
    method DropTopIfRetired(ghost n0: nat, ghost e0: seq<int>) returns (erased: bool)
      requires Compacting(n0, e0) && |entities| > 0
      modifies this
      ensures Compacting(n0, e0)
      ensures erased ==> |entities| == old(|entities|) - 1
      ensures !erased ==> |entities| - 1 !in e0 && entities == old(entities) && erasedIds == old(erasedIds)
    {
      var lastId := Back(entities);
      var found, k := Find(erasedIds, lastId);
      if found {
        CompactStep(e0, n0, |entities|);
        DropRetiredTop(lastId);
      } else {
        assert lastId !in e0;
      }
      erased := found;
    }

    /** The found branch of that scan: EraseLast, then ErasedIds.Remove(lastId). */
    method DropRetiredTop(lastId: int)
      requires entities == Range(0, |entities|) && Distinct(erasedIds)
      requires |entities| > 0 && lastId == |entities| - 1 && lastId in erasedIds
      modifies this
      ensures entities == Range(0, |entities|) && Distinct(erasedIds)
      ensures |entities| == old(|entities|) - 1 && erasedIds == RemoveFirst(old(erasedIds), lastId)
    {
      RemoveFirstDistinct(erasedIds, lastId);
      EraseLast();
      erasedIds := RemoveFirst(erasedIds, lastId);
    }

    /** Drop the top id (List<int>.Remove(Count - 1)). */
    method EraseLast()
      requires forall i :: 0 <= i < |entities| ==> entities[i] == i
      modifies this
      ensures old(|entities|) > 0 ==> entities == old(entities)[..old(|entities|) - 1]
      ensures old(|entities|) == 0 ==> entities == []
      ensures erasedIds == old(erasedIds)
    {
      if |entities| > 0 {
        RemoveTopId(entities);
        entities := RemoveFirst(entities, |entities| - 1);
      }
    }

    /** Back to the fresh state: id 0 only, nothing retired. */
    method Clear()
      modifies this
      ensures Valid()
      ensures entities == [0] && erasedIds == []
    {
      erasedIds := [];
      entities := [0];
    }

    /** The scenario of Test() (ECS/EntitySystem.cs:169-207), every
        Debug.Assert restated as an assertion. */
    method Test()
      requires Valid() && |entities| == 1 && |erasedIds| == 0
      modifies this
      ensures Valid() && entities == [0] && erasedIds == []
    {
      for i := 1 to 11
        invariant Valid() && |entities| == i && erasedIds == []
      {
        var id := CreateNewEntity();
        assert id == i;
      }
      var ok := Delete(|entities| - 1);
      assert |erasedIds| == 0;
      assert |entities| == 10;

      var id := CreateNewEntity();
      assert id == 10;

      assert Exist(9);
      ok := Delete(9);
      assert !Exist(9);
      assert |erasedIds| == 1 && erasedIds[0] == 9;
      assert |entities| == 11;

      ok := Delete(10);
      assert CompactedSize(10, [9]) == 9;
      assert |erasedIds| == 0;
      assert |entities| == 9;

      TestReserve();
    }

    /** The last part of Test() (ECS/EntitySystem.cs:200-205): reserving id 10
        after Clear retires 1 .. 9; deleting 10 compacts back to id 0. */
    method TestReserve()
      modifies this
      ensures Valid() && entities == [0] && erasedIds == []
    {
      Clear();
      var id := CreateNewEntityUnderId(10);
      assert id == 10;
      assert |entities| == 11;
      assert |erasedIds| == 9;
      assert erasedIds == Range(1, 10) by { assert [] + Range(1, 10) == Range(1, 10); }
      TestDeleteAfterReserve();
    }

    /** Delete(10) with ids 1 .. 9 retired cascades down to id 0 alone. */
    method TestDeleteAfterReserve()
      requires Valid() && |entities| == 11 && erasedIds == Range(1, 10)
      modifies this
      ensures Valid() && entities == [0] && erasedIds == []
    {
      CompactedSizeOfGap(10, 10);
      BelowNone(Range(1, 10), 1);
      var ok := Delete(|entities| - 1);
      assert ok;
      assert |erasedIds| == 0;
      assert |entities| == 1;
      assert entities == [entities[0]];
    }
  }
}
