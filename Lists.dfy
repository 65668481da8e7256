/** Sequence helpers that stand for the .NET collection operations the ECS
    code relies on: List<T>.Remove(value), LinkedList<T>.Remove(value), the
    linked-list scan, and the ListExt extensions (Resize, PopBack, Back). */
module Lists {

  datatype Option<T> = None | Some(value: T)

  /** The ids lo, lo + 1, ..., hi - 1 in ascending order (empty when hi <= lo). */
  function Range(lo: int, hi: int): (r: seq<int>)
    ensures |r| == if lo <= hi then hi - lo else 0
    ensures forall k :: 0 <= k < |r| ==> r[k] == lo + k
  {
    seq(if lo <= hi then hi - lo else 0, k => lo + k)
  }

  /** A range grows by its next id at the end. */
  lemma RangeSnoc(lo: int, hi: int)
    requires lo <= hi
    ensures Range(lo, hi) + [hi] == Range(lo, hi + 1)
  {
    assert forall k :: 0 <= k <= hi - lo ==> (Range(lo, hi) + [hi])[k] == lo + k;
  }

  /** No value occurs twice. */
  predicate Distinct<T(==)>(s: seq<T>)
  {
    forall j, k :: 0 <= j < k < |s| ==> s[j] != s[k]
  }

  /** Position of the first occurrence of v in s, or |s| when there is none. */
  function IndexOf<T(==)>(s: seq<T>, v: T): (k: nat)
    ensures k <= |s|
    ensures k < |s| ==> s[k] == v
    ensures v !in s[..k]
    ensures k == |s| <==> v !in s
  {
    if s == [] then 0
    else if s[0] == v then 0
    else
      assert s[1..][..IndexOf(s[1..], v)] == s[1..1 + IndexOf(s[1..], v)];
      1 + IndexOf(s[1..], v)
  }

  /** List<T>.Remove(value) and LinkedList<T>.Remove(value): drop the first
      occurrence of v, if any; everything else keeps its order. */
  function RemoveFirst<T(==)>(s: seq<T>, v: T): (r: seq<T>)
    ensures v !in s ==> r == s
    ensures v in s ==> |r| == |s| - 1 && r == s[..IndexOf(s, v)] + s[IndexOf(s, v) + 1..]
    ensures forall x :: x in r ==> x in s
  {
    var i := IndexOf(s, v);
    if i < |s| then s[..i] + s[i + 1..] else s
  }

  /** Removing from a list with a known head. */
  lemma RemoveFirstCons<T>(a: T, t: seq<T>, v: T)
    ensures RemoveFirst([a] + t, v) == if a == v then t else [a] + RemoveFirst(t, v)
  {
    var s := [a] + t;
    if a == v {
      assert IndexOf(s, v) == 0;
      assert s[1..] == t;
    } else {
      var i := IndexOf(t, v);
      assert IndexOf(s, v) == 1 + i by { assert s[0] != v && s[1..] == t; }
      if i < |t| {
        assert s[..i + 1] + s[i + 2..] == [a] + (t[..i] + t[i + 1..]) by {
          assert s[..i + 1] == [a] + t[..i];
          assert s[i + 2..] == t[i + 1..];
        }
      } else {
        assert v !in s by { assert v !in t; }
      }
    }
  }

  /** In a sequence without repetitions, removing v removes exactly v. */
  lemma RemoveFirstDistinct<T>(s: seq<T>, v: T)
    requires Distinct(s)
    ensures Distinct(RemoveFirst(s, v))
    ensures forall x :: x in RemoveFirst(s, v) <==> x in s && x != v
  {
    var i, r := IndexOf(s, v), RemoveFirst(s, v);
    if i < |s| {
      forall x | x in s && x != v ensures x in r {
        var k :| 0 <= k < |s| && s[k] == x;
        if k < i { assert r[k] == x; } else { assert k != i; assert r[k - 1] == x; }
      }
      forall x | x in r ensures x != v {
        var k :| 0 <= k < |r| && r[k] == x;
        if k < i { assert s[k] == x; } else { assert s[k + 1] == x; }
      }
      forall j, k | 0 <= j < k < |r| ensures r[j] != r[k] {
        var j', k' := if j < i then j else j + 1, if k < i then k else k + 1;
        assert r[j] == s[j'] && r[k] == s[k'];
      }
    }
  }

  /** The linked-list scan `for (node = list.First; node != null; node =
      node.Next) if (node.Value == v) ...`: reports whether v is on the list
      and where its first node is. */
  method Find(s: seq<int>, v: int) returns (found: bool, k: nat)
    ensures found <==> v in s
    ensures found ==> k < |s| && s[k] == v && k == IndexOf(s, v)
  {
    k := 0;
    while k < |s|
      invariant k <= |s|
      invariant v !in s[..k]
    {
      if s[k] == v {
        found := true;
        return;
      }
      assert s[..k + 1] == s[..k] + [s[k]];
      k := k + 1;
    }
    assert s[..k] == s;
    found := false;
  }

  /** ListExt.Resize: truncate to n elements, or pad with `fill` up to n. */
  function Resize<T>(s: seq<T>, n: nat, fill: T): (r: seq<T>)
    ensures |r| == n
    ensures forall k :: 0 <= k < n && k < |s| ==> r[k] == s[k]
    ensures forall k :: |s| <= k < n ==> r[k] == fill
  {
    if n <= |s| then s[..n] else s + seq(n - |s|, _ => fill)
  }

  /** ListExt.Back: the last element; the source throws on an empty list. */
  function Back<T>(s: seq<T>): (x: T)
    requires |s| > 0
    ensures s == s[..|s| - 1] + [x]
  {
    s[|s| - 1]
  }

  /** ListExt.PopBack: drop the last element; the source throws on an empty list. */
  function PopBack<T>(s: seq<T>): (r: seq<T>)
    requires |s| > 0
    ensures |r| == |s| - 1
    ensures r + [Back(s)] == s
  {
    s[..|s| - 1]
  }

  /** The size an id range 0 .. size - 1 shrinks to when, while its top id
      is on the retired list `erased`, that top id is dropped (the
      compaction loops of EntitySystem.Delete and ComponentSystem.DeleteComponent). */
  function CompactedSize(size: nat, erased: seq<int>): (n: nat)
    ensures n <= size
    ensures n == 0 || n - 1 !in erased
    decreases size
  {
    if size > 0 && size - 1 in erased then CompactedSize(size - 1, erased) else size
  }

  /** Every id the compaction drops is retired. */
  lemma {:induction false} CompactedSizeRetired(size: nat, erased: seq<int>, x: int)
    requires CompactedSize(size, erased) <= x < size
    ensures x in erased
    decreases size
  {
    if x < size - 1 {
      CompactedSizeRetired(size - 1, erased, x);
    }
  }

  /** The ids of s below n, in their order on s. */
  function Below(s: seq<int>, n: int): (r: seq<int>)
    ensures |r| <= |s|
    ensures forall x :: x in r <==> x in s && x < n
  {
    if s == [] then []
    else
      assert s == [s[0]] + s[1..];
      (if s[0] < n then [s[0]] else []) + Below(s[1..], n)
  }

  /** Below keeps the order of s: an id appended to s is appended to the
      result when it is below n. */
  lemma {:induction false} BelowSnoc(s: seq<int>, x: int, n: int)
    ensures Below(s + [x], n) == Below(s, n) + if x < n then [x] else []
  {
    if s == [] {
      assert [x][1..] == [];
    } else {
      assert (s + [x])[1..] == s[1..] + [x];
      BelowSnoc(s[1..], x, n);
    }
  }

  /** Nothing is dropped when every id is below n. */
  lemma {:induction false} BelowAll(s: seq<int>, n: int)
    requires forall k :: 0 <= k < |s| ==> s[k] < n
    ensures Below(s, n) == s
  {
    if s != [] {
      BelowAll(s[1..], n);
    }
  }

  /** Everything is dropped when no id is below n. */
  lemma {:induction false} BelowNone(s: seq<int>, n: int)
    requires forall k :: 0 <= k < |s| ==> s[k] >= n
    ensures Below(s, n) == []
  {
    if s != [] {
      BelowNone(s[1..], n);
    }
  }

  /** When n - 1 is not on s, the ids below n and below n - 1 are the same. */
  lemma {:induction false} BelowSkip(s: seq<int>, n: int)
    requires n - 1 !in s
    ensures Below(s, n) == Below(s, n - 1)
  {
    if s != [] {
      assert s[1..] == s[1..] && forall x :: x in s[1..] ==> x in s;
      BelowSkip(s[1..], n);
    }
  }

  /** One turn of the compaction loop: removing the top id n - 1 from the ids
      below n leaves the ids below n - 1. */
  lemma {:induction false} BelowDrop(s: seq<int>, n: int)
    requires Distinct(s)
    ensures RemoveFirst(Below(s, n), n - 1) == Below(s, n - 1)
  {
    if s != [] {
      var t := s[1..];
      assert Distinct(t) by {
        forall j, k | 0 <= j < k < |t| ensures t[j] != t[k] {
          assert t[j] == s[j + 1] && t[k] == s[k + 1];
        }
      }
      BelowDrop(t, n);
      if s[0] == n - 1 {
        assert n - 1 !in t by {
          forall k | 0 <= k < |t| ensures t[k] != n - 1 {
            assert t[k] == s[k + 1];
          }
        }
        BelowSkip(t, n);
        RemoveFirstCons(s[0], Below(t, n), n - 1);
        assert [] + Below(t, n - 1) == Below(t, n - 1);
      } else if s[0] < n - 1 {
        RemoveFirstCons(s[0], Below(t, n), n - 1);
      } else {
        assert [] + Below(t, n) == Below(t, n);
        assert [] + Below(t, n - 1) == Below(t, n - 1);
      }
    }
  }

  /** Keeping the ids below n keeps them distinct. */
  lemma {:induction false} BelowDistinct(s: seq<int>, n: int)
    requires Distinct(s)
    ensures Distinct(Below(s, n))
  {
    if s != [] {
      var t := s[1..];
      assert Distinct(t) by {
        forall j, k | 0 <= j < k < |t| ensures t[j] != t[k] {
          assert t[j] == s[j + 1] && t[k] == s[k + 1];
        }
      }
      BelowDistinct(t, n);
      assert s[0] !in t by {
        forall k | 0 <= k < |t| ensures t[k] != s[0] {
          assert t[k] == s[k + 1];
        }
      }
    }
  }

  /** One turn of a compaction loop over ids 0 .. m - 1 whose top id m - 1 is
      retired: the size it compacts to is unchanged, and dropping m - 1 from
      the retired ids below m leaves the retired ids below m - 1. */
  lemma CompactStep(erased: seq<int>, size: nat, m: nat)
    requires Distinct(erased) && 0 < m && m - 1 in Below(erased, m)
    requires CompactedSize(m, erased) == CompactedSize(size, erased)
    ensures CompactedSize(m - 1, erased) == CompactedSize(size, erased)
    ensures RemoveFirst(Below(erased, m), m - 1) == Below(erased, m - 1)
  {
    BelowDrop(erased, m);
  }

  /** A prefix of a prefix is a prefix. */
  lemma PrefixOfPrefix<T>(s: seq<T>, a: nat, b: nat)
    requires b <= a <= |s|
    ensures s[..a][..b] == s[..b] && s[..|s|] == s
  {
  }
}
