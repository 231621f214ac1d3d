/** The order of patches, and the copy-on-write sorted set of the patches of one member. */
module PatchSet {
  import opened Common

  /** A patch: its identity, its priority, and the identity hashes of its class loader and of itself. */
  datatype Patch = Patch(id: nat, priority: int, loaderHash: int, hash: int)

  // ----- the order -----

  /** `Sortable.compareTo`; `None` stands for null. */
  function CompareTo(self: Patch, other: Option<Patch>): int {
    match other
    case None => -1
    case Some(o) =>
      if o == self then 0
      else if o.priority != self.priority then (if o.priority > self.priority then 1 else -1)
      else if self.loaderHash != o.loaderHash then (if self.loaderHash > o.loaderHash then 1 else -1)
      else if self.hash != o.hash then (if self.hash > o.hash then 1 else -1)
      else 0
  }

  predicate AtMost(a: Patch, b: Patch) { CompareTo(a, Some(b)) <= 0 }

  /** Higher priority first, then loader hash, then object hash. */
  predicate Precedes(a: Patch, b: Patch) {
    || a.priority > b.priority
    || (a.priority == b.priority && a.loaderHash < b.loaderHash)
    || (a.priority == b.priority && a.loaderHash == b.loaderHash && a.hash <= b.hash)
  }

  /** `compareTo` is the total preorder `Precedes`, and its sign is antisymmetric; everything comes before null. */
  lemma {:induction false} CompareIsTotalPreorder(a: Patch, b: Patch, c: Patch)
    ensures AtMost(a, b) <==> Precedes(a, b)
    ensures AtMost(a, b) || AtMost(b, a)
    ensures AtMost(a, b) && AtMost(b, c) ==> AtMost(a, c)
    ensures CompareTo(a, Some(b)) == -CompareTo(b, Some(a)) && -1 <= CompareTo(a, Some(b)) <= 1
    ensures CompareTo(a, None) == -1
  {}

  ghost predicate Sorted(s: seq<Patch>) {
    forall i, j :: 0 <= i < j < |s| ==> AtMost(s[i], s[j])
  }

  ghost predicate Distinct(s: seq<Patch>) {
    forall i, j :: 0 <= i < j < |s| ==> s[i] != s[j]
  }

  // ----- the set as a sequence -----

  /** A stable sort of `s + [e]`, for sorted `s`: `e` goes behind everything that it does not precede. */
  function Insert(s: seq<Patch>, e: Patch): seq<Patch> {
    if s == [] || AtMost(s[|s| - 1], e) then s + [e] else Insert(s[..|s| - 1], e) + [s[|s| - 1]]
  }

  function IndexOf(s: seq<Patch>, e: Patch): (r: int)
    ensures -1 <= r < |s|
    ensures r >= 0 ==> s[r] == e && e !in s[..r]
    ensures r == -1 ==> e !in s
  {
    if s == [] then -1
    else if s[0] == e then 0
    else
      var r := IndexOf(s[1..], e);
      if r < 0 then -1 else r + 1
  }

  function Added(s: seq<Patch>, e: Patch): seq<Patch> {
    if e in s then s else Insert(s, e)
  }

  function Removed(s: seq<Patch>, e: Patch): seq<Patch> {
    var i := IndexOf(s, e);
    if i == -1 then s else s[..i] + s[i + 1..]
  }

  lemma {:induction false} InsertAdds(s: seq<Patch>, e: Patch)
    ensures multiset(Insert(s, e)) == multiset(s) + multiset{e}
    ensures |Insert(s, e)| == |s| + 1
    ensures forall x :: x in Insert(s, e) <==> x in s || x == e
  {
    if s != [] && !AtMost(s[|s| - 1], e) {
      InsertAdds(s[..|s| - 1], e);
      assert s == s[..|s| - 1] + [s[|s| - 1]];
    }
  }

  lemma {:induction false} InsertSorts(s: seq<Patch>, e: Patch)
    requires Sorted(s)
    ensures Sorted(Insert(s, e))
  {
    InsertAdds(s, e);
    if s != [] && !AtMost(s[|s| - 1], e) {
      var front, last := s[..|s| - 1], s[|s| - 1];
      InsertSorts(front, e);
      InsertAdds(front, e);
      forall i | 0 <= i < |s|
        ensures AtMost(Insert(front, e)[i], last)
      {
        var x := Insert(front, e)[i];
        CompareIsTotalPreorder(last, e, e);
        assert x in Insert(front, e);
      }
    } else {
      forall i | 0 <= i < |s|
        ensures AtMost(s[i], e)
      {
        if i < |s| - 1 { CompareIsTotalPreorder(s[i], s[|s| - 1], e); }
      }
    }
  }

  lemma {:induction false} BehindAll(s: seq<Patch>, e: Patch)
    requires Sorted(s) && s != [] && AtMost(s[|s| - 1], e)
    ensures forall j :: 0 <= j < |s| ==> AtMost(s[j], e)
  {
    forall j | 0 <= j < |s|
      ensures AtMost(s[j], e)
    {
      if j < |s| - 1 {
        assert AtMost(s[j], s[|s| - 1]);
        CompareIsTotalPreorder(s[j], s[|s| - 1], e);
      }
    }
  }

  /** The element goes behind everything that does not come after it, equals included, and in front of the rest. */
  lemma {:induction false} InsertPlace(s: seq<Patch>, e: Patch) returns (i: nat)
    requires Sorted(s)
    ensures i <= |s| && Insert(s, e) == s[..i] + [e] + s[i..]
    ensures forall j :: 0 <= j < i ==> AtMost(s[j], e)
    ensures forall j :: i <= j < |s| ==> !AtMost(s[j], e)
  {
    if s == [] {
      i := 0;
    } else if AtMost(s[|s| - 1], e) {
      i := |s|;
      BehindAll(s, e);
    } else {
      hide AtMost;
      var n := |s| - 1;
      i := InsertPlace(s[..n], e);
      assert s[..n][..i] == s[..i] && s[..n][i..] + [s[n]] == s[i..];
    }
  }

  lemma {:induction false} InsertKeepsDistinct(s: seq<Patch>, e: Patch)
    requires Distinct(s) && e !in s
    ensures Distinct(Insert(s, e))
  {
    if s != [] && !AtMost(s[|s| - 1], e) {
      var front, last := s[..|s| - 1], s[|s| - 1];
      InsertKeepsDistinct(front, e);
      InsertAdds(front, e);
      assert last !in front && last in s;
      forall i | 0 <= i < |s|
        ensures Insert(front, e)[i] != last
      {
        assert Insert(front, e)[i] in Insert(front, e);
      }
    }
  }

  /** What one `add` or `remove` does to a sorted set without duplicates. */
  lemma {:induction false} AddRemoveKeep(s: seq<Patch>, e: Patch)
    requires Sorted(s) && Distinct(s)
    ensures Sorted(Added(s, e)) && Distinct(Added(s, e))
    ensures forall x :: x in Added(s, e) <==> x in s || x == e
    ensures Sorted(Removed(s, e)) && Distinct(Removed(s, e))
    ensures forall x :: x in Removed(s, e) <==> x in s && x != e
  {
    InsertAdds(s, e);
    InsertSorts(s, e);
    if e !in s { InsertKeepsDistinct(s, e); }
    RemoveKeeps(s, e);
  }

  /** `r` is `s` without its element `i`, or `s` itself if `i` is negative. */
  ghost predicate Without(s: seq<Patch>, i: int, r: seq<Patch>)
    requires i < |s|
  {
    && |r| == (if i < 0 then |s| else |s| - 1)
    && (forall k :: 0 <= k < |r| && (i < 0 || k < i) ==> r[k] == s[k])
    && (forall k :: 0 <= i <= k < |r| ==> r[k] == s[k + 1])
  }

  lemma {:induction false} RemovedAt(s: seq<Patch>, e: Patch)
    ensures Without(s, IndexOf(s, e), Removed(s, e))
  {
    var i := IndexOf(s, e);
    hide IndexOf;
    if i >= 0 { WithoutOne(s, i); }
  }

  lemma {:induction false} WithoutOne(s: seq<Patch>, i: nat)
    requires i < |s|
    ensures Without(s, i, s[..i] + s[i + 1..])
  {
    var r := s[..i] + s[i + 1..];
    forall k | i <= k < |r|
      ensures r[k] == s[k + 1]
    {
      assert r[k] == s[i + 1..][k - i];
    }
  }

  lemma {:induction false} RemoveKeeps(s: seq<Patch>, e: Patch)
    requires Sorted(s) && Distinct(s)
    ensures Sorted(Removed(s, e)) && Distinct(Removed(s, e))
    ensures forall x :: x in Removed(s, e) <==> x in s && x != e
  {
    hide IndexOf, Removed, AtMost;
    var i, r := IndexOf(s, e), Removed(s, e);
    RemovedAt(s, e);
    forall x
      ensures x in r <==> x in s && x != e
    {
      if x in r {
        var k :| 0 <= k < |r| && r[k] == x;
        assert x == s[if i < 0 || k < i then k else k + 1];
      }
      if x in s && x != e {
        var k :| 0 <= k < |s| && s[k] == x;
        assert x == r[if i < 0 || k < i then k else k - 1];
      }
    }
  }

  // ----- the object -----

  class CopyOnWriteSortedSet {
    var elements: array<Patch>

    constructor ()
      ensures fresh(elements) && elements[..] == []
    {
      elements := new Patch[0];
    }

    method Find(e: Patch) returns (index: int)
      ensures index == IndexOf(elements[..], e)
    {
      var i := 0;
      while i < elements.Length
        invariant 0 <= i <= elements.Length
        invariant IndexOf(elements[..], e) ==
                    if IndexOf(elements[i..], e) < 0 then -1 else IndexOf(elements[i..], e) + i
      {
        assert elements[i..][1..] == elements[i + 1..];
        if elements[i] == e { return i; }
        i := i + 1;
      }
      return -1;
    }

    /** Copy, append, sort the copy, publish it.  No array that was ever handed out is written. */
    method Add(e: Patch) returns (added: bool)
      modifies this
      ensures elements[..] == Added(old(elements[..]), e)
      ensures added == (e !in old(elements[..]))
      ensures if added then fresh(elements) else elements == old(elements)
    {
      var index := Find(e);
      if index >= 0 { return false; }
      var n := elements.Length;
      var copy := new Patch[n + 1];
      CopyRange(elements, 0, copy, 0, n);
      copy[n] := e;
      assert copy[..n] == elements[..];
      SortLast(copy);
      elements := copy;
      return true;
    }

    method Remove(e: Patch) returns (removed: bool)
      modifies this
      ensures elements[..] == Removed(old(elements[..]), e)
      ensures removed == (e in old(elements[..]))
      ensures if removed then fresh(elements) else elements == old(elements)
    {
      var index := Find(e);
      if index == -1 { return false; }
      var n := elements.Length;
      var copy := new Patch[n - 1];
      CopyRange(elements, 0, copy, 0, index);
      ghost var front := copy[..index];
      CopyRange(elements, index + 1, copy, index, n - index - 1);
      assert copy[..] == elements[..][..index] + elements[..][index + 1..];
      elements := copy;
      return true;
    }

    method GetSnapshot() returns (snapshot: array<Patch>)
      ensures snapshot == elements
    {
      return elements;
    }
  }

  /** `System.arraycopy` between two arrays. */
  method CopyRange(src: array<Patch>, from: nat, dst: array<Patch>, to: nat, count: nat)
    requires src != dst && from + count <= src.Length && to + count <= dst.Length
    modifies dst
    ensures forall i :: 0 <= i < dst.Length ==>
              dst[i] == if to <= i < to + count then src[from + i - to] else old(dst[i])
  {
    for k := 0 to count
      invariant forall i :: 0 <= i < dst.Length ==>
                  dst[i] == if to <= i < to + k then src[from + i - to] else old(dst[i])
    {
      dst[to + k] := src[from + k];
    }
  }

  /** `Arrays.sort`, a stable sort, on an array that is sorted but for its last element. */
  method SortLast(a: array<Patch>)
    requires a.Length > 0
    modifies a
    ensures a[..] == Insert(old(a[..a.Length - 1]), old(a[a.Length - 1]))
  {
    hide Insert, AtMost;
    ghost var s, rest := a[..a.Length - 1], [];
    var e, i := a[a.Length - 1], a.Length - 1;
    assert s[..i] == s && Insert(s, e) + rest == Insert(s, e);
    while i > 0 && !AtMost(a[i - 1], e)
      invariant 0 <= i < a.Length == |s| + 1
      invariant a[..i] == s[..i] && a[i + 1..] == rest
      invariant Insert(s[..i], e) + rest == Insert(s, e)
    {
      assert a[i - 1] == a[..i][i - 1] == s[i - 1];
      InsertBefore(s, i, e);
      assert Insert(s[..i - 1], e) + ([s[i - 1]] + rest) == (Insert(s[..i - 1], e) + [s[i - 1]]) + rest;
      a[i] := a[i - 1];
      assert a[..i - 1] == a[..i][..i - 1];
      rest := [s[i - 1]] + rest;
      assert a[i..] == rest;
      i := i - 1;
    }
    if i > 0 { assert a[i - 1] == a[..i][i - 1] == s[i - 1]; }
    InsertBehind(s, i, e);
    a[i] := e;
    assert a[..] == a[..i] + [a[i]] + a[i + 1..];
  }

  lemma {:induction false} InsertBefore(s: seq<Patch>, i: nat, e: Patch)
    requires 0 < i <= |s| && !AtMost(s[i - 1], e)
    ensures Insert(s[..i], e) == Insert(s[..i - 1], e) + [s[i - 1]]
  {
    assert s[..i][..i - 1] == s[..i - 1];
  }

  lemma {:induction false} InsertBehind(s: seq<Patch>, i: nat, e: Patch)
    requires i <= |s| && (i > 0 ==> AtMost(s[i - 1], e))
    ensures Insert(s[..i], e) == s[..i] + [e]
  {}
}
