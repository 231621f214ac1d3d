/**
 The near arena: chunks within a range of a position, cut from pages that are mapped at chosen addresses.  The answers
 of the operating system to successive requests for a page are a sequence of booleans, and it refuses once they are
 used up.
 */
module NearMemoryArena {
  import opened Common
  import opened MemoryArena

  datatype Region = Region(start: nat, length: nat) {
    function End(): nat { start + length }
  }

  /** What the search for a blank page comes to; `Fault` where it indexes outside the layout. */
  datatype Search = Found(address: int) | NotFound | Fault

  function AlignFloor(a: int, pageSize: nat): int
    requires pageSize > 0
  {
    a - a % pageSize
  }

  function MinPage(pos: int, range: int, pageSize: nat): int
    requires pageSize > 0
  {
    AlignFloor(pos - range, pageSize) + pageSize
  }

  function MaxPage(pos: int, range: int, pageSize: nat): int
    requires pageSize > 0
  {
    AlignFloor(pos + range, pageSize) - pageSize
  }

  predicate InWindow(r: Region, lo: int, hi: int) { lo <= r.start && r.End() < hi }

  // ----- the addresses tried -----

  /** The addresses asked for, in order, as long as each is refused; and whether the search then leaves the layout. */
  datatype Tries = Tries(addresses: seq<int>, faults: bool)

  function LeftTry(layout: seq<Region>, i: nat, assumed: int, lo: int): seq<int>
    requires 0 < i < |layout|
  {
    var previous := layout[i - 1].End();
    if assumed == lo && layout[i].start > previous then [if lo > previous then lo else previous] else []
  }

  function RightTry(layout: seq<Region>, i: nat): seq<int>
    requires i + 1 < |layout|
  {
    if layout[i].End() < layout[i + 1].start then [layout[i].End()] else []
  }

  function LastOr(tries: seq<int>, assumed: int): int {
    if tries == [] then assumed else tries[|tries| - 1]
  }

  /** The tries at region `i`; a fault where a neighbour that is looked at is outside the layout. */
  function TriesAt(layout: seq<Region>, i: nat, assumed: int, lo: int, hi: int): Tries
    requires i < |layout|
  {
    if !InWindow(layout[i], lo, hi) then Tries([], false)
    else if i == 0 && assumed == lo then Tries([], true)
    else
      var left := if i == 0 then [] else LeftTry(layout, i, assumed, lo);
      if i + 1 == |layout| then Tries(left, true) else Tries(left + RightTry(layout, i), false)
  }

  function TriesFrom(layout: seq<Region>, i: nat, assumed: int, lo: int, hi: int): Tries
    decreases |layout| - i
  {
    if i >= |layout| then Tries([], false)
    else
      var here := TriesAt(layout, i, assumed, lo, hi);
      if here.faults then here
      else
        var rest := TriesFrom(layout, i + 1, LastOr(here.addresses, assumed), lo, hi);
        Tries(here.addresses + rest.addresses, rest.faults)
  }

  function EdgeTries(layout: seq<Region>, lo: int, hi: int): seq<int>
    requires layout != []
  {
    (if lo < layout[0].start then [lo] else []) + if hi < layout[|layout| - 1].End() then [lo] else []
  }

  function AllTries(layout: seq<Region>, lo: int, hi: int): Tries {
    if layout == [] then Tries([], true)
    else
      var rest := TriesFrom(layout, 0, lo, lo, hi);
      Tries(EdgeTries(layout, lo, hi) + rest.addresses, rest.faults)
  }

  // ----- the answers -----

  predicate Granted(answers: seq<bool>) { answers != [] && answers[0] }

  function Rest(answers: seq<bool>): seq<bool> { if answers == [] then [] else answers[1..] }

  /** The first try that is granted, and the answers left. */
  function Ask(tries: Tries, answers: seq<bool>): (r: (Search, seq<bool>))
    ensures |r.1| <= |answers| && (r.0.Found? ==> |r.1| < |answers|)
    ensures r.0.Found? ==> r.0.address in tries.addresses
    decreases |tries.addresses|
  {
    if tries.addresses == [] then (if tries.faults then Fault else NotFound, answers)
    else if Granted(answers) then (Found(tries.addresses[0]), Rest(answers))
    else Ask(tries.(addresses := tries.addresses[1..]), Rest(answers))
  }

  function SearchPage(layout: seq<Region>, pos: int, range: int, pageSize: nat, answers: seq<bool>)
    : (r: (Search, seq<bool>))
    requires pageSize > 0
    ensures |r.1| <= |answers| && (r.0.Found? ==> |r.1| < |answers|)
  {
    Ask(AllTries(layout, MinPage(pos, range, pageSize), MaxPage(pos, range, pageSize)), answers)
  }

  lemma {:induction false} AskAfter(tried: seq<int>, tries: Tries, answers: seq<bool>)
    requires tried == [] || !Granted(answers)
    requires |tried| <= 1
    ensures Ask(Tries(tried + tries.addresses, tries.faults), answers)
            == Ask(tries, if tried == [] then answers else Rest(answers))
  {
    if tried == [] {
      assert tried + tries.addresses == tries.addresses;
    } else {
      assert (tried + tries.addresses)[1..] == tries.addresses;
    }
  }

  lemma {:induction false} AskGranted(address: int, tries: seq<int>, faults: bool, answers: seq<bool>)
    requires Granted(answers)
    ensures Ask(Tries([address] + tries, faults), answers) == (Found(address), Rest(answers))
  {}

  /** `search_near_blank_page`. */
  method SearchNearBlankPage(layout: seq<Region>, pos: int, range: int, pageSize: nat, answers: seq<bool>)
    returns (r: Search, left: seq<bool>)
    requires pageSize > 0
    ensures (r, left) == SearchPage(layout, pos, range, pageSize, answers)
  {
    hide Ask, TriesFrom, MinPage, MaxPage;
    var lo := MinPage(pos, range, pageSize);
    var hi := MaxPage(pos, range, pageSize);
    left := answers;
    if layout == [] {
      NothingLeft(true, left);
      return Fault, left;
    }
    ghost var rest := TriesFrom(layout, 0, lo, lo, hi);
    ghost var last := if hi < layout[|layout| - 1].End() then [lo] else [];
    ghost var edge := Tries(last + rest.addresses, rest.faults);
    ghost var all := AllTries(layout, lo, hi);
    assert all.addresses == (if lo < layout[0].start then [lo] else []) + edge.addresses;
    hide AllTries;
    var ok;
    AskAfter([], edge, left);
    if lo < layout[0].start {
      ok, left := TryAt(lo, left, edge);
      if ok { return Found(lo), left; }
    }
    assert Ask(all, answers) == Ask(edge, left);
    AskAfter([], rest, left);
    if hi < layout[|layout| - 1].End() {
      ok, left := TryAt(lo, left, rest);
      if ok { return Found(lo), left; }
    }
    r, left := SearchRegions(layout, lo, hi, left);
  }

  /** The try on the left of region `i`. */
  function Before(layout: seq<Region>, i: nat, assumed: int, lo: int): seq<int>
    requires i < |layout|
  {
    if i == 0 then [] else LeftTry(layout, i, assumed, lo)
  }

  /** The tries after it, given the address it leaves. */
  function After(layout: seq<Region>, i: nat, assumed: int, lo: int, hi: int): Tries
    requires i < |layout|
  {
    if i + 1 == |layout| then Tries([], true)
    else
      var right := RightTry(layout, i);
      var rest := TriesFrom(layout, i + 1, LastOr(right, assumed), lo, hi);
      Tries(right + rest.addresses, rest.faults)
  }

  lemma {:induction false} TriesSplit(layout: seq<Region>, i: nat, assumed: int, lo: int, hi: int)
    requires i < |layout| && InWindow(layout[i], lo, hi) && !(i == 0 && assumed == lo)
    ensures var left := Before(layout, i, assumed, lo);
            var after := After(layout, i, LastOr(left, assumed), lo, hi);
            TriesFrom(layout, i, assumed, lo, hi) == Tries(left + after.addresses, after.faults)
  {
    var left := Before(layout, i, assumed, lo);
    if i + 1 < |layout| {
      var right := RightTry(layout, i);
      assert TriesAt(layout, i, assumed, lo, hi).addresses == left + right;
      assert LastOr(left + right, assumed) == LastOr(right, LastOr(left, assumed));
      var rest := TriesFrom(layout, i + 1, LastOr(left + right, assumed), lo, hi);
      assert (left + right) + rest.addresses == left + (right + rest.addresses);
    } else {
      assert left + [] == left;
    }
  }

  lemma {:induction false} TriesOutside(layout: seq<Region>, i: nat, assumed: int, lo: int, hi: int)
    requires i < |layout| && !InWindow(layout[i], lo, hi)
    ensures TriesFrom(layout, i, assumed, lo, hi) == TriesFrom(layout, i + 1, assumed, lo, hi)
  {}

  lemma {:induction false} FaultsAtFirst(layout: seq<Region>, lo: int, hi: int)
    requires layout != [] && InWindow(layout[0], lo, hi)
    ensures TriesFrom(layout, 0, lo, lo, hi) == Tries([], true)
  {}

  lemma {:induction false} NoMoreTries(layout: seq<Region>, assumed: int, lo: int, hi: int)
    ensures TriesFrom(layout, |layout|, assumed, lo, hi) == Tries([], false)
  {}

  /** `OSMemory::Allocate` at an address, before the tries `rest`. */
  method TryAt(address: int, answers: seq<bool>, ghost rest: Tries) returns (ok: bool, left: seq<bool>)
    ensures ok ==> (Found(address), left) == Ask(Tries([address] + rest.addresses, rest.faults), answers)
    ensures !ok ==> Ask(rest, left) == Ask(Tries([address] + rest.addresses, rest.faults), answers)
  {
    hide Ask;
    ok, left := Granted(answers), Rest(answers);
    if ok { AskGranted(address, rest.addresses, rest.faults, answers); } else { AskAfter([address], rest, answers); }
  }

  /** The blank on the left of region `i`; `rest` is what is tried after it. */
  method TryLeft(layout: seq<Region>, i: nat, assumed: int, lo: int, answers: seq<bool>, ghost rest: Tries)
    returns (ok: bool, assumed': int, left: seq<bool>)
    requires i < |layout| && !(i == 0 && assumed == lo)
    ensures assumed' == LastOr(Before(layout, i, assumed, lo), assumed)
    ensures var tries := Tries(Before(layout, i, assumed, lo) + rest.addresses, rest.faults);
            && (ok ==> (Found(assumed'), left) == Ask(tries, answers))
            && (!ok ==> Ask(rest, left) == Ask(tries, answers))
  {
    hide Ask;
    ok, assumed', left := false, assumed, answers;
    AskAfter([], rest, answers);
    if assumed == lo && layout[i].start > layout[i - 1].End() {
      var previous := layout[i - 1].End();
      assumed' := if lo > previous then lo else previous;
      ok, left := TryAt(assumed', answers, rest);
    }
  }

  /** The blank on its right. */
  method TryRight(layout: seq<Region>, i: nat, assumed: int, answers: seq<bool>, ghost rest: Tries)
    returns (ok: bool, assumed': int, left: seq<bool>)
    requires i + 1 < |layout|
    ensures assumed' == LastOr(RightTry(layout, i), assumed)
    ensures var tries := Tries(RightTry(layout, i) + rest.addresses, rest.faults);
            && (ok ==> (Found(assumed'), left) == Ask(tries, answers))
            && (!ok ==> Ask(rest, left) == Ask(tries, answers))
  {
    hide Ask;
    ok, assumed', left := false, assumed, answers;
    AskAfter([], rest, answers);
    if layout[i].End() < layout[i + 1].start {
      assumed' := layout[i].End();
      ok, left := TryAt(assumed', answers, rest);
    }
  }

  /** A region in the window: what the search comes to there, or `None` if it goes on. */
  method SearchRegion(layout: seq<Region>, i: nat, assumed: int, lo: int, hi: int, answers: seq<bool>)
    returns (r: Option<Search>, assumed': int, left: seq<bool>)
    requires i < |layout| && InWindow(layout[i], lo, hi) && (i == 0 ==> assumed == lo)
    ensures r.Some? ==> (r.value, left) == Ask(TriesFrom(layout, i, assumed, lo, hi), answers)
    ensures r.None? ==> Ask(TriesFrom(layout, i + 1, assumed', lo, hi), left)
                        == Ask(TriesFrom(layout, i, assumed, lo, hi), answers)
  {
    hide Ask, TriesFrom, TriesAt, Before, RightTry;
    assumed', left := assumed, answers;
    if assumed == lo && i == 0 {
      FaultsAtFirst(layout, lo, hi);
      NothingLeft(true, left);
      return Some(Fault), assumed', left;
    }
    TriesSplit(layout, i, assumed, lo, hi);
    ghost var after := After(layout, i, LastOr(Before(layout, i, assumed, lo), assumed), lo, hi);
    var ok;
    ok, assumed', left := TryLeft(layout, i, assumed, lo, answers, after);
    if ok { return Some(Found(assumed')), assumed', left; }
    if i + 1 == |layout| {
      NothingLeft(true, left);
      return Some(Fault), assumed', left;
    }
    ghost var later := TriesFrom(layout, i + 1, LastOr(RightTry(layout, i), assumed'), lo, hi);
    ok, assumed', left := TryRight(layout, i, assumed', left, later);
    return if ok then Some(Found(assumed')) else None, assumed', left;
  }

  /** The loop over the regions. */
  method SearchRegions(layout: seq<Region>, lo: int, hi: int, answers: seq<bool>) returns (r: Search, left: seq<bool>)
    requires layout != []
    ensures (r, left) == Ask(TriesFrom(layout, 0, lo, lo, hi), answers)
  {
    hide Ask, TriesFrom;
    left := answers;
    var assumed := lo;
    for i := 0 to |layout|
      invariant i == 0 ==> assumed == lo
      invariant Ask(TriesFrom(layout, i, assumed, lo, hi), left) == Ask(TriesFrom(layout, 0, lo, lo, hi), answers)
    {
      var region := layout[i];
      if region.End() < hi && region.start >= lo {
        var found;
        found, assumed, left := SearchRegion(layout, i, assumed, lo, hi, left);
        if found.Some? { return found.value, left; }
      } else {
        TriesOutside(layout, i, assumed, lo, hi);
      }
    }
    NoMoreTries(layout, assumed, lo, hi);
    NothingLeft(false, left);
    return NotFound, left;
  }

  lemma {:induction false} NothingLeft(faults: bool, answers: seq<bool>)
    ensures Ask(Tries([], faults), answers) == (if faults then Fault else NotFound, answers)
  {}

  // ----- where a page is found -----

  /** Every try is the lowest page of the window, or starts above it and ends below the window's top. */
  lemma {:induction false} TriesInWindow(layout: seq<Region>, i: nat, assumed: int, lo: int, hi: int)
    ensures forall a :: a in TriesFrom(layout, i, assumed, lo, hi).addresses ==> lo <= a < hi
    decreases |layout| - i
  {
    if i < |layout| {
      TriesInWindow(layout, i + 1, LastOr(TriesAt(layout, i, assumed, lo, hi).addresses, assumed), lo, hi);
    }
  }

  /** A page found starts strictly within the range if the range is more than half a page, and lies there as a whole if
      the range is a page or more. */
  lemma {:induction false} FoundIsNear(layout: seq<Region>, pos: int, range: int, pageSize: nat, answers: seq<bool>)
    requires pageSize > 0 && SearchPage(layout, pos, range, pageSize, answers).0.Found?
    ensures var a := SearchPage(layout, pos, range, pageSize, answers).0.address;
            && (pageSize < 2 * range ==> pos - range < a < pos + range)
            && (pageSize <= range ==> a + pageSize <= pos + range)
  {
    var lo, hi := MinPage(pos, range, pageSize), MaxPage(pos, range, pageSize);
    TriesInWindow(layout, 0, lo, lo, hi);
    assert pos - range < lo <= pos - range + pageSize && hi <= pos + range - pageSize;
  }

  /** The search stays in the layout, whatever is refused, if and only if there is a region and neither the first nor
      the last one lies in the window. */
  lemma {:induction false} FaultsExactly(layout: seq<Region>, lo: int, hi: int)
    ensures AllTries(layout, lo, hi).faults
            <==> layout == [] || InWindow(layout[0], lo, hi) || InWindow(layout[|layout| - 1], lo, hi)
  {
    if layout != [] && !InWindow(layout[0], lo, hi) { FaultsAtLast(layout, 1, lo, lo, hi); }
  }

  lemma {:induction false} FaultsAtLast(layout: seq<Region>, i: nat, assumed: int, lo: int, hi: int)
    requires 0 < i <= |layout|
    ensures TriesFrom(layout, i, assumed, lo, hi).faults <==> i < |layout| && InWindow(layout[|layout| - 1], lo, hi)
    decreases |layout| - i
  {
    if i < |layout| {
      FaultsAtLast(layout, i + 1, LastOr(TriesAt(layout, i, assumed, lo, hi).addresses, assumed), lo, hi);
    }
  }

  // ----- pages in use -----

  /** Regions in order, none overlapping the next, in whole pages. */
  ghost predicate Sorted(layout: seq<Region>, pageSize: nat)
    requires pageSize > 0
  {
    && (forall i :: 0 <= i < |layout| ==> layout[i].start % pageSize == 0 && layout[i].length % pageSize == 0)
    && (forall i, j :: 0 <= i < j < |layout| ==> layout[i].End() <= layout[j].start)
  }

  /** The page at `a` overlaps no region. */
  ghost predicate Blank(layout: seq<Region>, a: int, pageSize: nat) {
    forall i :: 0 <= i < |layout| ==> layout[i].End() <= a || a + pageSize <= layout[i].start
  }

  lemma {:induction false} Multiple(k: int, p: nat)
    ensures k >= 1 ==> k * p >= p
    ensures k <= 0 ==> k * p <= 0
  {
    if k >= 1 { assert (k - 1) * p >= 0; } else { assert (-k) * p >= 0; }
  }

  lemma {:induction false} AlignedGap(a: nat, length: nat, b: nat, pageSize: nat)
    requires pageSize > 0 && a % pageSize == 0 && length % pageSize == 0 && b % pageSize == 0 && a + length < b
    ensures a + length + pageSize <= b
  {
    var x, y, z := a / pageSize, length / pageSize, b / pageSize;
    assert (z - x - y) * pageSize == b - a - length by {
      assert a == x * pageSize && length == y * pageSize && b == z * pageSize;
    }
    Multiple(z - x - y, pageSize);
  }

  lemma {:induction false} GapIsBlank(layout: seq<Region>, i: nat, pageSize: nat)
    requires pageSize > 0 && Sorted(layout, pageSize) && i + 1 < |layout|
    requires layout[i].End() < layout[i + 1].start
    ensures Blank(layout, layout[i].End(), pageSize)
  {
    AlignedGap(layout[i].start, layout[i].length, layout[i + 1].start, pageSize);
    forall k | 0 <= k < |layout|
      ensures layout[k].End() <= layout[i].End() || layout[i].End() + pageSize <= layout[k].start
    {
      if k < i { assert layout[k].End() <= layout[i].start; }
      if k > i + 1 { assert layout[i + 1].End() <= layout[k].start; }
    }
  }

  /** In a sorted layout every page tried among the regions is blank, except for the lowest page of the window, which
      the search takes without looking. */
  lemma {:induction false} TriesAreBlank(layout: seq<Region>, i: nat, assumed: int, lo: int, hi: int, pageSize: nat)
    requires pageSize > 0 && Sorted(layout, pageSize)
    ensures forall a :: a in TriesFrom(layout, i, assumed, lo, hi).addresses ==> a == lo || Blank(layout, a, pageSize)
    decreases |layout| - i
  {
    if i < |layout| {
      var here := TriesAt(layout, i, assumed, lo, hi);
      TriesAreBlank(layout, i + 1, LastOr(here.addresses, assumed), lo, hi, pageSize);
      if 0 < i && layout[i - 1].End() < layout[i].start { GapIsBlank(layout, i - 1, pageSize); }
      if i + 1 < |layout| && layout[i].End() < layout[i + 1].start { GapIsBlank(layout, i, pageSize); }
      hide Blank, Sorted;
    }
  }

  /** The search finds a page that a region uses. */
  ghost predicate MapsOver(layout: seq<Region>, pos: int, range: int, pageSize: nat, answers: seq<bool>)
    requires pageSize > 0
  {
    var found := SearchPage(layout, pos, range, pageSize, answers).0;
    found.Found? && !Blank(layout, found.address, pageSize)
  }

  /** Any address on the list is found if those before it are refused. */
  lemma {:induction false} EveryTryIsFound(tries: Tries, k: nat) returns (answers: seq<bool>)
    requires k < |tries.addresses|
    ensures Ask(tries, answers).0 == Found(tries.addresses[k])
    decreases k
  {
    if k == 0 {
      answers := [true];
    } else {
      var rest := EveryTryIsFound(tries.(addresses := tries.addresses[1..]), k - 1);
      answers := [false] + rest;
      assert answers[1..] == rest;
    }
  }

  /** Some answers make the search map over a used page if and only if the lowest page of the window is used and is one
      of the addresses to be tried. */
  lemma {:induction false} MapsOverLowest(layout: seq<Region>, pos: int, range: int, pageSize: nat)
    requires pageSize > 0 && Sorted(layout, pageSize)
    ensures var lo, hi := MinPage(pos, range, pageSize), MaxPage(pos, range, pageSize);
            (exists answers :: MapsOver(layout, pos, range, pageSize, answers)) <==>
              lo in AllTries(layout, lo, hi).addresses && !Blank(layout, lo, pageSize)
  {
    var lo, hi := MinPage(pos, range, pageSize), MaxPage(pos, range, pageSize);
    var tries := AllTries(layout, lo, hi);
    TriesAreBlank(layout, 0, lo, lo, hi, pageSize);
    assert forall a :: a in tries.addresses ==> a == lo || Blank(layout, a, pageSize);
    hide Blank, Sorted, AllTries, MinPage, MaxPage;
    if lo in tries.addresses && !Blank(layout, lo, pageSize) {
      var k :| 0 <= k < |tries.addresses| && tries.addresses[k] == lo;
      var answers := EveryTryIsFound(tries, k);
      assert MapsOver(layout, pos, range, pageSize, answers);
    }
    forall answers | MapsOver(layout, pos, range, pageSize, answers)
      ensures lo in tries.addresses && !Blank(layout, lo, pageSize)
    {
      assert SearchPage(layout, pos, range, pageSize, answers).0.address in tries.addresses;
    }
  }

  /** A region starts with the window's lowest page, ends below its top and has a gap before it. */
  ghost predicate GapBelow(layout: seq<Region>, i: nat, lo: int, hi: int) {
    0 < i < |layout| && layout[i].start == lo && layout[i].End() < hi && layout[i - 1].End() < lo
  }

  ghost predicate AllNonEmpty(layout: seq<Region>) { forall i :: 0 <= i < |layout| ==> layout[i].length > 0 }

  /** Once a region in the window is behind, the lowest page is not tried again. */
  lemma {:induction false} LowestNotTriedAgain(
      layout: seq<Region>, i: nat, assumed: int, lo: int, hi: int, pageSize: nat)
    requires pageSize > 0 && Sorted(layout, pageSize) && AllNonEmpty(layout)
    requires 0 < i <= |layout| && layout[i - 1].End() > lo
    ensures lo !in TriesFrom(layout, i, assumed, lo, hi).addresses
    decreases |layout| - i
  {
    if i < |layout| {
      assert layout[i - 1].End() <= layout[i].start;
      var here := TriesAt(layout, i, assumed, lo, hi);
      LowestNotTriedAgain(layout, i + 1, LastOr(here.addresses, assumed), lo, hi, pageSize);
      assert lo !in here.addresses;
      hide Sorted, AllNonEmpty, TriesAt;
    }
  }

  /** A page with a region behind it on the left and one ahead on the right is blank. */
  lemma {:induction false} BetweenIsBlank(layout: seq<Region>, i: nat, lo: int, pageSize: nat)
    requires pageSize > 0 && Sorted(layout, pageSize) && i < |layout| && 0 <= lo && lo % pageSize == 0
    requires lo < layout[i].start && (i > 0 ==> layout[i - 1].End() <= lo)
    ensures Blank(layout, lo, pageSize)
  {
    AlignedGap(lo, 0, layout[i].start, pageSize);
    forall k | 0 <= k < |layout|
      ensures layout[k].End() <= lo || lo + pageSize <= layout[k].start
    {
      if k < i - 1 { assert layout[k].End() <= layout[i - 1].start; }
      if k > i { assert layout[i].End() <= layout[k].start; }
    }
  }

  /** The loop tries a used lowest page if and only if a region with a gap before it starts there. */
  lemma {:induction false} LoopTriesLowest(layout: seq<Region>, i: nat, lo: int, hi: int, pageSize: nat)
    requires pageSize > 0 && Sorted(layout, pageSize) && AllNonEmpty(layout) && 0 <= lo && lo % pageSize == 0
    requires !Blank(layout, lo, pageSize)
    requires forall j :: 0 <= j < i && j < |layout| ==> !InWindow(layout[j], lo, hi)
    ensures lo in TriesFrom(layout, i, lo, lo, hi).addresses <==> exists j :: i <= j && GapBelow(layout, j, lo, hi)
    decreases |layout| - i
  {
    hide Sorted, Blank, TriesFrom, GapBelow, InWindow, AllNonEmpty;
    if i >= |layout| {
      BeyondLayout(layout, i, lo, hi);
    } else if !InWindow(layout[i], lo, hi) {
      TriesOutside(layout, i, lo, lo, hi);
      LoopTriesLowest(layout, i + 1, lo, hi, pageSize);
      GapIsInWindow(layout, i, lo, hi);
    } else {
      FirstInWindow(layout, i, lo, hi, pageSize);
      forall j | i < j ensures !GapBelow(layout, j, lo, hi) {
        NoLaterGap(layout, i, j, lo, hi, pageSize);
      }
    }
  }

  lemma {:induction false} BeyondLayout(layout: seq<Region>, i: nat, lo: int, hi: int)
    requires i >= |layout|
    ensures TriesFrom(layout, i, lo, lo, hi).addresses == [] && forall j :: i <= j ==> !GapBelow(layout, j, lo, hi)
  {}

  lemma {:induction false} GapIsInWindow(layout: seq<Region>, i: nat, lo: int, hi: int)
    requires i < |layout|
    ensures GapBelow(layout, i, lo, hi) ==> InWindow(layout[i], lo, hi)
  {}

  lemma {:induction false} NoLaterGap(layout: seq<Region>, i: nat, j: nat, lo: int, hi: int, pageSize: nat)
    requires pageSize > 0 && Sorted(layout, pageSize) && AllNonEmpty(layout) && i < |layout| && i < j
    requires InWindow(layout[i], lo, hi)
    ensures !GapBelow(layout, j, lo, hi)
  {
    if j < |layout| && j - 1 > i { assert layout[i].End() <= layout[j - 1].start; }
  }

  lemma {:induction false} FirstInWindow(layout: seq<Region>, i: nat, lo: int, hi: int, pageSize: nat)
    requires pageSize > 0 && Sorted(layout, pageSize) && AllNonEmpty(layout) && 0 <= lo && lo % pageSize == 0
    requires !Blank(layout, lo, pageSize) && i < |layout| && InWindow(layout[i], lo, hi)
    ensures lo in TriesFrom(layout, i, lo, lo, hi).addresses <==> GapBelow(layout, i, lo, hi)
  {
    var here := TriesAt(layout, i, lo, lo, hi);
    assert lo in here.addresses <==> GapBelow(layout, i, lo, hi) by {
      if 0 < i && layout[i - 1].End() <= lo < layout[i].start { BetweenIsBlank(layout, i, lo, pageSize); }
    }
    LowestNotTriedAgain(layout, i + 1, LastOr(here.addresses, lo), lo, hi, pageSize);
    hide Sorted, Blank, TriesAt, GapBelow;
  }

  lemma {:induction false} LowestIsAligned(pos: int, range: int, pageSize: nat)
    requires pageSize > 0 && range <= pos
    ensures MinPage(pos, range, pageSize) % pageSize == 0 && 0 <= MinPage(pos, range, pageSize)
  {
    var x := pos - range;
    var q := x / pageSize;
    assert x == q * pageSize + x % pageSize;
    assert MinPage(pos, range, pageSize) == (q + 1) * pageSize;
    MultipleAligned(q + 1, pageSize);
  }

  lemma {:induction false} MultipleAligned(q: int, p: nat)
    requires p > 0
    ensures (q * p) % p == 0
  {
    var n := q * p;
    var k := n / p;
    assert n == k * p + n % p;
    assert (q - k) * p == n % p;
    Multiple(q - k, p);
  }

  /** From the layout alone: the search can map over a used page if and only if the lowest page of the window is used,
      and either the last region reaches past the window or a region with a gap before it starts at that page. */
  lemma {:induction false} MapsOverExactly(layout: seq<Region>, pos: int, range: int, pageSize: nat)
    requires pageSize > 0 && range <= pos && Sorted(layout, pageSize) && AllNonEmpty(layout)
    ensures var lo, hi := MinPage(pos, range, pageSize), MaxPage(pos, range, pageSize);
            (exists answers :: MapsOver(layout, pos, range, pageSize, answers)) <==>
              && !Blank(layout, lo, pageSize)
              && layout != []
              && (hi < layout[|layout| - 1].End() || exists i :: GapBelow(layout, i, lo, hi))
  {
    var lo, hi := MinPage(pos, range, pageSize), MaxPage(pos, range, pageSize);
    MapsOverLowest(layout, pos, range, pageSize);
    LowestIsAligned(pos, range, pageSize);
    hide MinPage, MaxPage, MapsOver, TriesFrom;
    if !Blank(layout, lo, pageSize) && layout != [] {
      LoopTriesLowest(layout, 0, lo, hi, pageSize);
      if lo < layout[0].start { BetweenIsBlank(layout, 0, lo, pageSize); }
      hide Sorted, Blank, GapBelow;
      assert lo in EdgeTries(layout, lo, hi) <==> hi < layout[|layout| - 1].End();
    }
  }

  function CrowdedLayout(): seq<Region> { [Region(0x8000, 0x2000), Region(0x20000, 0x1000)] }

  lemma {:induction false} CrowdedIsUsed()
    ensures Sorted(CrowdedLayout(), 0x1000) && !Blank(CrowdedLayout(), 0x9000, 0x1000)
  {
    var layout := CrowdedLayout();
    assert !(layout[0].End() <= 0x9000 || 0x9000 + 0x1000 <= layout[0].start);
  }

  lemma {:induction false} CrowdedWindow()
    ensures MinPage(0x10000, 0x8000, 0x1000) == 0x9000 && MaxPage(0x10000, 0x8000, 0x1000) == 0x17000
  {}

  /** Where the last region reaches past the window, or the first starts above its lowest page, that page is asked for
      first, whatever lies there. */
  lemma {:induction false} LowestPageFirst(layout: seq<Region>, pos: int, range: int, pageSize: nat, answers: seq<bool>)
    requires pageSize > 0 && layout != [] && Granted(answers)
    requires || MaxPage(pos, range, pageSize) < layout[|layout| - 1].End()
             || MinPage(pos, range, pageSize) < layout[0].start
    ensures SearchPage(layout, pos, range, pageSize, answers) == (Found(MinPage(pos, range, pageSize)), Rest(answers))
  {
    hide MinPage, MaxPage, TriesFrom;
  }

  /** A page in use that is mapped over: the last region reaches past the window, and another one covers its lowest
      page. */
  lemma {:induction false} MappedOverExample()
    ensures Sorted(CrowdedLayout(), 0x1000) && !Blank(CrowdedLayout(), 0x9000, 0x1000)
    ensures SearchPage(CrowdedLayout(), 0x10000, 0x8000, 0x1000, [true]).0 == Found(0x9000)
  {
    hide SearchPage, Sorted, Blank, MinPage, MaxPage;
    CrowdedIsUsed();
    CrowdedWindow();
    LowestPageFirst(CrowdedLayout(), 0x10000, 0x8000, 0x1000, [true]);
  }

  // ----- which addresses, and in which order -----

  /** The window: its two ends are the page boundaries next above `pos - range` and a page below `pos + range`. */
  lemma {:induction false} WindowExactly(pos: int, range: int, pageSize: nat)
    requires pageSize > 0
    ensures var lo, hi := MinPage(pos, range, pageSize), MaxPage(pos, range, pageSize);
            && lo % pageSize == 0 && pos - range < lo <= pos - range + pageSize
            && hi % pageSize == 0 && pos + range - 2 * pageSize < hi <= pos + range - pageSize
  {
    var x, y := pos - range, pos + range;
    assert x == (x / pageSize) * pageSize + x % pageSize && y == (y / pageSize) * pageSize + y % pageSize;
    assert MinPage(pos, range, pageSize) == (x / pageSize + 1) * pageSize;
    assert MaxPage(pos, range, pageSize) == (y / pageSize - 1) * pageSize;
    MultipleAligned(x / pageSize + 1, pageSize);
    MultipleAligned(y / pageSize - 1, pageSize);
  }

  /** The first request that is granted decides. */
  lemma {:induction false} FirstGrantedFound(tries: Tries, answers: seq<bool>, k: nat)
    requires k < |tries.addresses| && k < |answers| && answers[k] && forall j :: 0 <= j < k ==> !answers[j]
    ensures Ask(tries, answers) == (Found(tries.addresses[k]), answers[k + 1..])
    decreases k
  {
    if k > 0 {
      FirstGrantedFound(tries.(addresses := tries.addresses[1..]), answers[1..], k - 1);
      assert answers[1..][k..] == answers[k + 1..];
    }
  }

  /** If all are refused nothing is found. */
  lemma {:induction false} AllRefused(tries: Tries, answers: seq<bool>)
    requires forall j :: 0 <= j < |tries.addresses| && j < |answers| ==> !answers[j]
    ensures Ask(tries, answers).0 == if tries.faults then Fault else NotFound
    decreases |tries.addresses|
  {
    if tries.addresses != [] {
      var rest := Rest(answers);
      assert forall j :: 0 <= j < |rest| ==> rest[j] == answers[j + 1];
      AllRefused(tries.(addresses := tries.addresses[1..]), rest);
    }
  }

  /** The blank behind region `i` of the window, if there is one, starts at `a`. */
  predicate RightBlank(layout: seq<Region>, i: nat, a: int, lo: int, hi: int) {
    && i + 1 < |layout| && InWindow(layout[i], lo, hi)
    && layout[i].End() < layout[i + 1].start && a == layout[i].End()
  }

  /** The blank before the first region of the window, or what of it is in the window, starts at `a`. */
  predicate LeftBlank(layout: seq<Region>, i: nat, a: int, lo: int, hi: int) {
    && 0 < i < |layout| && InWindow(layout[i], lo, hi) && !InWindow(layout[i - 1], lo, hi)
    && layout[i - 1].End() < layout[i].start && a == if lo > layout[i - 1].End() then lo else layout[i - 1].End()
  }

  ghost predicate Ascending(s: seq<int>) { forall i, j :: 0 <= i < j < |s| ==> s[i] < s[j] }

  lemma {:induction false} AscendingJoin(a: seq<int>, b: seq<int>)
    requires Ascending(a) && Ascending(b) && forall x, y :: x in a && y in b ==> x < y
    ensures Ascending(a + b)
  {
    var s := a + b;
    forall i, j | 0 <= i < j < |s|
      ensures s[i] < s[j]
    {
      assert i < |a| <= j ==> a[i] in a && b[j - |a|] in b;
    }
  }

  /** Before the loop, the lowest page is asked for once if it is below the first region, and once, perhaps again, if
      the last region reaches past the window; and nothing else is. */
  lemma {:induction false} LoopAfterEdges(layout: seq<Region>, lo: int, hi: int)
    requires layout != []
    ensures var all, loop := AllTries(layout, lo, hi).addresses, TriesFrom(layout, 0, lo, lo, hi).addresses;
            var edges := (if lo < layout[0].start then 1 else 0) + (if hi < layout[|layout| - 1].End() then 1 else 0);
            && |all| == edges + |loop| && all[edges..] == loop && forall j :: 0 <= j < edges ==> all[j] == lo
  {
    hide TriesFrom;
  }

  /** Region `i` has a used one before it that reaches into the window, and no blank between them that was not tried. */
  ghost predicate Inside(layout: seq<Region>, i: nat, assumed: int, lo: int, hi: int) {
    && 0 < i <= |layout| && layout[i - 1].End() > lo
    && (assumed == lo && i < |layout| && InWindow(layout[i], lo, hi) ==> layout[i].start <= layout[i - 1].End())
  }

  /** From there on the blanks behind the regions are tried, in order. */
  lemma {:induction false} RightBlanksTried(
      layout: seq<Region>, i: nat, assumed: int, lo: int, hi: int, pageSize: nat)
    requires pageSize > 0 && Sorted(layout, pageSize) && AllNonEmpty(layout) && Inside(layout, i, assumed, lo, hi)
    ensures var tried := TriesFrom(layout, i, assumed, lo, hi).addresses;
            && (forall a :: a in tried <==> exists j :: i <= j && RightBlank(layout, j, a, lo, hi))
            && Ascending(tried) && forall a :: a in tried ==> a > layout[i - 1].End()
    decreases |layout| - i
  {
    if i < |layout| {
      assert layout[i - 1].End() <= layout[i].start < layout[i].End();
      var here := TriesAt(layout, i, assumed, lo, hi);
      if !here.faults {
        StillInside(layout, i, assumed, lo, hi, pageSize);
        RightBlanksTried(layout, i + 1, LastOr(here.addresses, assumed), lo, hi, pageSize);
        var later := TriesFrom(layout, i + 1, LastOr(here.addresses, assumed), lo, hi).addresses;
        assert forall a :: a in here.addresses <==> RightBlank(layout, i, a, lo, hi);
        hide Sorted, AllNonEmpty, TriesAt, RightBlank;
        AscendingJoin(here.addresses, later);
      }
    }
  }

  lemma {:induction false} StillInside(
      layout: seq<Region>, i: nat, assumed: int, lo: int, hi: int, pageSize: nat)
    requires pageSize > 0 && Sorted(layout, pageSize) && AllNonEmpty(layout) && Inside(layout, i, assumed, lo, hi)
    requires i < |layout|
    ensures Inside(layout, i + 1, LastOr(TriesAt(layout, i, assumed, lo, hi).addresses, assumed), lo, hi)
  {
    assert layout[i - 1].End() <= layout[i].start;
    if i + 1 < |layout| { assert layout[i].End() <= layout[i + 1].start; }
  }

  /** What the loop tries, in a sorted layout whose first region is not in the window: the blank before the window's
      first region and the blank behind each, as far as they are there, in ascending order and nothing else. */
  lemma {:induction false} BlanksTried(layout: seq<Region>, i: nat, lo: int, hi: int, pageSize: nat)
    requires pageSize > 0 && Sorted(layout, pageSize) && AllNonEmpty(layout)
    requires forall j :: 0 <= j < i && j < |layout| ==> !InWindow(layout[j], lo, hi)
    requires layout != [] && !InWindow(layout[0], lo, hi)
    ensures var tried := TriesFrom(layout, i, lo, lo, hi).addresses;
            && Ascending(tried)
            && forall a :: a in tried <==>
                 exists j :: i <= j && (LeftBlank(layout, j, a, lo, hi) || RightBlank(layout, j, a, lo, hi))
    decreases |layout| - i
  {
    hide Sorted, AllNonEmpty, TriesFrom, LeftBlank, RightBlank, InWindow;
    if i >= |layout| {
      NoBlankBeyond(layout, i, lo, hi);
    } else if !InWindow(layout[i], lo, hi) {
      TriesOutside(layout, i, lo, lo, hi);
      BlanksTried(layout, i + 1, lo, hi, pageSize);
      NoBlankOutside(layout, i, lo, hi);
    } else {
      FirstBlanksTried(layout, i, lo, hi, pageSize);
    }
  }

  lemma {:induction false} NoBlankBeyond(layout: seq<Region>, i: nat, lo: int, hi: int)
    requires i >= |layout|
    ensures TriesFrom(layout, i, lo, lo, hi).addresses == []
    ensures forall j, a :: i <= j ==> !LeftBlank(layout, j, a, lo, hi) && !RightBlank(layout, j, a, lo, hi)
  {}

  lemma {:induction false} NoBlankOutside(layout: seq<Region>, i: nat, lo: int, hi: int)
    requires i < |layout| && !InWindow(layout[i], lo, hi)
    ensures forall a :: !LeftBlank(layout, i, a, lo, hi) && !RightBlank(layout, i, a, lo, hi)
  {}

  lemma {:induction false} NoLaterLeftBlank(
      layout: seq<Region>, i: nat, j: nat, a: int, lo: int, hi: int, pageSize: nat)
    requires pageSize > 0 && Sorted(layout, pageSize) && i < |layout| && InWindow(layout[i], lo, hi) && i < j
    ensures !LeftBlank(layout, j, a, lo, hi)
  {
    if j < |layout| && i < j - 1 { assert layout[i].End() <= layout[j - 1].start; }
    if j < |layout| { assert layout[j - 1].End() <= layout[j].start; }
  }

  lemma {:induction false} FirstBlanksTried(layout: seq<Region>, i: nat, lo: int, hi: int, pageSize: nat)
    requires pageSize > 0 && Sorted(layout, pageSize) && AllNonEmpty(layout)
    requires 0 < i < |layout| && InWindow(layout[i], lo, hi) && !InWindow(layout[i - 1], lo, hi)
    ensures var tried := TriesFrom(layout, i, lo, lo, hi).addresses;
            && Ascending(tried)
            && forall a :: a in tried <==>
                 exists j :: i <= j && (LeftBlank(layout, j, a, lo, hi) || RightBlank(layout, j, a, lo, hi))
  {
    hide Sorted, AllNonEmpty, TriesAt, LeftBlank, RightBlank, InWindow, Ascending, Inside;
    var here := TriesAt(layout, i, lo, lo, hi);
    BlanksAtFirst(layout, i, lo, hi, pageSize);
    forall j, a | i < j ensures !LeftBlank(layout, j, a, lo, hi) {
      NoLaterLeftBlank(layout, i, j, a, lo, hi, pageSize);
    }
    if !here.faults {
      InsideAfter(layout, i, lo, hi, pageSize);
      var assumed := LastOr(here.addresses, lo);
      RightBlanksTried(layout, i + 1, assumed, lo, hi, pageSize);
      AscendingJoin(here.addresses, TriesFrom(layout, i + 1, assumed, lo, hi).addresses);
    }
  }

  lemma {:induction false} BlanksAtFirst(layout: seq<Region>, i: nat, lo: int, hi: int, pageSize: nat)
    requires pageSize > 0 && Sorted(layout, pageSize) && AllNonEmpty(layout)
    requires 0 < i < |layout| && InWindow(layout[i], lo, hi) && !InWindow(layout[i - 1], lo, hi)
    ensures var here := TriesAt(layout, i, lo, lo, hi);
            && Ascending(here.addresses) && (forall a :: a in here.addresses ==> a <= layout[i].End())
            && (forall a :: a in here.addresses <==>
                  LeftBlank(layout, i, a, lo, hi) || RightBlank(layout, i, a, lo, hi))
            && (here.faults ==> forall j, a :: i < j ==> !RightBlank(layout, j, a, lo, hi))
  {
    assert layout[i - 1].End() <= layout[i].start < layout[i].End();
  }

  lemma {:induction false} InsideAfter(layout: seq<Region>, i: nat, lo: int, hi: int, pageSize: nat)
    requires pageSize > 0 && Sorted(layout, pageSize) && AllNonEmpty(layout)
    requires 0 < i < |layout| && InWindow(layout[i], lo, hi)
    ensures Inside(layout, i + 1, LastOr(TriesAt(layout, i, lo, lo, hi).addresses, lo), lo, hi)
  {
    assert layout[i - 1].End() <= layout[i].start;
    if i + 1 < |layout| { assert layout[i].End() <= layout[i + 1].start; }
  }

  // ----- allocating -----

  /** A call of `AllocateChunk`.  `layout(k)` is the layout read by its `k`th search, and `cave` what the search for a
      run of zero bytes would give. */
  datatype Near = Near(
    pos: int, range: int, size: int, permission: Permission, layout: nat -> seq<Region>, cave: Option<int>)

  /** A chunk cut from a page, a run of zero bytes, nothing, or a search that left the layout. */
  datatype Outcome = Paged(chunk: Chunk) | Cave(found: Chunk) | Nothing | Crashed

  function Abs(x: int): nat { if x < 0 then -x else x }

  predicate Serves(p: Page, q: Near) {
    p.permission == q.permission && Abs(p.cursor - q.pos) < q.range && p.cursor + q.size < p.address + p.length
  }

  /** The first page that serves the call, or the number of pages. */
  function FirstNear(pages: seq<Page>, q: Near): (i: nat)
    ensures i <= |pages|
    ensures i < |pages| ==> Serves(pages[i], q)
    ensures forall j :: 0 <= j < i ==> !Serves(pages[j], q)
  {
    if pages == [] || Serves(pages[0], q) then 0
    else
      var i := FirstNear(pages[1..], q);
      assert forall j :: 0 < j < i + 1 ==> pages[j] == pages[1..][j - 1];
      i + 1
  }

  /** What is left to try when no page is found. */
  function WithoutPage(q: Near): Outcome {
    if q.permission == ReadWrite || q.cave.None? then Nothing else Cave(Chunk(q.cave.value, q.size))
  }

  datatype State = State(pages: seq<Page>, answers: seq<bool>)

  /** The call from its `k`th search on: the new state, the outcome and the number of searches. */
  function Serve(s: State, q: Near, pageSize: nat, k: nat): (State, Outcome, nat)
    requires pageSize > 0
    decreases |s.answers|
  {
    var i := FirstNear(s.pages, q);
    if i < |s.pages| then
      (s.(pages := s.pages[i := Cut(s.pages[i], q.size)]), Paged(Chunk(s.pages[i].cursor, q.size)), k)
    else
      var (found, answers) := SearchPage(q.layout(k), q.pos, q.range, pageSize, s.answers);
      match found
      case Found(a) => Serve(State(s.pages + [NewPage(a, pageSize, q.permission)], answers), q, pageSize, k + 1)
      case NotFound => (State(s.pages, answers), WithoutPage(q), k + 1)
      case Fault => (State(s.pages, answers), Crashed, k + 1)
  }

  class NearArena {
    const pageSize: nat
    var pages: seq<Page>

    constructor (pageSize: nat)
      ensures this.pageSize == pageSize && pages == []
    {
      this.pageSize := pageSize;
      pages := [];
    }

    /** `PushPage`. */
    method PushPage(address: int, permission: Permission)
      modifies this
      ensures pages == old(pages) + [NewPage(address, pageSize, permission)]
    {
      pages := pages + [Page(address, pageSize, address, permission, [])];
    }

    /** `AllocateChunk`, with the number of searches it makes. */
    method AllocateChunk(q: Near, answers: seq<bool>) returns (r: Outcome, left: seq<bool>, searches: nat)
      requires pageSize > 0
      modifies this
      ensures (State(pages, left), r, searches) == Serve(State(old(pages), answers), q, pageSize, 0)
    {
      left, searches := answers, 0;
      while true
        invariant Serve(State(pages, left), q, pageSize, searches) == Serve(State(old(pages), answers), q, pageSize, 0)
        decreases |left|
      {
        var i := 0;
        while i < |pages| && !Serves(pages[i], q)
          invariant 0 <= i <= FirstNear(pages, q)
        {
          i := i + 1;
        }
        if i < |pages| {
          r := Paged(Chunk(pages[i].cursor, q.size));
          pages := pages[i := Cut(pages[i], q.size)];
          return;
        }
        var found;
        found, left := SearchNearBlankPage(q.layout(searches), q.pos, q.range, pageSize, left);
        searches := searches + 1;
        if found.Fault? { return Crashed, left, searches; }
        if found.NotFound? {
          if q.permission == ReadWrite || q.cave.None? { return Nothing, left, searches; }
          return Cave(Chunk(q.cave.value, q.size)), left, searches;
        }
        PushPage(found.address, q.permission);
      }
    }
  }

  // ----- what one call does -----

  /** Near enough, of the permission and with strictly more room than the size. */
  lemma {:induction false} ServesExactly(p: Page, q: Near)
    ensures Serves(p, q) <==>
              && p.permission == q.permission && q.pos - q.range < p.cursor < q.pos + q.range
              && p.cursor + q.size < p.address + p.length
  {}

  /** A page that serves the call is used: the chunk is cut at the cursor of the first such page, without a search. */
  lemma {:induction false} PageReused(s: State, q: Near, pageSize: nat, k: nat, i: nat)
    requires pageSize > 0 && i < |s.pages| && Serves(s.pages[i], q)
    requires forall j :: 0 <= j < i ==> !Serves(s.pages[j], q)
    ensures var (after, outcome, searches) := Serve(s, q, pageSize, k);
            && outcome == Paged(Chunk(s.pages[i].cursor, q.size)) && searches == k && after.answers == s.answers
            && |after.pages| == |s.pages| && (forall j :: 0 <= j < |s.pages| && j != i ==> after.pages[j] == s.pages[j])
            && after.pages[i].cursor == s.pages[i].cursor + q.size
            && after.pages[i].chunks == s.pages[i].chunks + [outcome.chunk]
            && after.pages[i].address == s.pages[i].address && after.pages[i].length == s.pages[i].length
            && after.pages[i].permission == s.pages[i].permission
  {
    hide SearchPage, Serves;
  }

  /** Without a page, a call for anything but read-write gets a run of zero bytes if there is one; a read-write call,
      or one without such a run, gets nothing. */
  lemma {:induction false} WithoutPageExactly(s: State, q: Near, pageSize: nat, k: nat)
    requires pageSize > 0
    ensures var outcome := Serve(s, q, pageSize, k).1;
            && (outcome.Cave? ==>
                  q.permission != ReadWrite && q.cave.Some? && outcome.found == Chunk(q.cave.value, q.size))
            && (outcome.Nothing? ==> q.permission == ReadWrite || q.cave.None?)
    decreases |s.answers|
  {
    hide SearchPage, FirstNear;
    var (found, answers) := SearchPage(q.layout(k), q.pos, q.range, pageSize, s.answers);
    if FirstNear(s.pages, q) == |s.pages| && found.Found? {
      var grown := s.pages + [NewPage(found.address, pageSize, q.permission)];
      WithoutPageExactly(State(grown, answers), q, pageSize, k + 1);
    }
  }

  /** Where no page serves the call and its first search ends without one, the pages are as before; a search that
      left the layout ends the call, and no other does. */
  lemma {:induction false} SearchEndsCall(s: State, q: Near, pageSize: nat, k: nat)
    requires pageSize > 0 && forall j :: 0 <= j < |s.pages| ==> !Serves(s.pages[j], q)
    requires !SearchPage(q.layout(k), q.pos, q.range, pageSize, s.answers).0.Found?
    ensures var (after, outcome, searches) := Serve(s, q, pageSize, k);
            && after.pages == s.pages && searches == k + 1
            && (outcome.Crashed? <==> SearchPage(q.layout(k), q.pos, q.range, pageSize, s.answers).0.Fault?)
            && !outcome.Paged?
  {
    hide SearchPage, Serves;
  }

  // ----- the retry -----

  lemma {:induction false} FirstNearInNew(pages: seq<Page>, p: Page, q: Near)
    requires FirstNear(pages, q) == |pages|
    ensures FirstNear(pages + [p], q) == |pages| + if Serves(p, q) then 0 else 1
  {
    var grown := pages + [p];
    assert forall j :: 0 <= j < |pages| ==> !Serves(grown[j], q);
    assert grown[|pages|] == p;
  }

  /** Below a page in size, with a range of more than half a page, one search is enough: a page that it finds serves the
      call at its start. */
  lemma {:induction false} RetriesOnce(s: State, q: Near, pageSize: nat, k: nat)
    requires pageSize > 0 && q.size < pageSize < 2 * q.range && FirstNear(s.pages, q) == |s.pages|
    ensures var (found, answers) := SearchPage(q.layout(k), q.pos, q.range, pageSize, s.answers);
            var (after, outcome, searches) := Serve(s, q, pageSize, k);
            && searches == k + 1 && after.answers == answers
            && (found.Found? ==>
                  && outcome == Paged(Chunk(found.address, q.size))
                  && after.pages == s.pages + [Cut(NewPage(found.address, pageSize, q.permission), q.size)])
            && (!found.Found? ==> after.pages == s.pages && !outcome.Paged?)
  {
    hide SearchPage, FirstNear;
    var (found, answers) := SearchPage(q.layout(k), q.pos, q.range, pageSize, s.answers);
    if found.Found? {
      FoundIsNear(q.layout(k), q.pos, q.range, pageSize, s.answers);
      var p := NewPage(found.address, pageSize, q.permission);
      assert Serves(p, q);
      FirstNearInNew(s.pages, p, q);
      var grown := s.pages + [p];
      assert grown[|s.pages| := Cut(p, q.size)] == s.pages + [Cut(p, q.size)];
    }
  }

  /** From a page in size on, no search helps: each page found is kept empty, and the call goes on until one search
      finds none. */
  lemma {:induction false} LargeNeverPaged(s: State, q: Near, pageSize: nat, k: nat)
    requires pageSize > 0 && pageSize <= q.size && FirstNear(s.pages, q) == |s.pages|
    ensures var (after, outcome, searches) := Serve(s, q, pageSize, k);
            && !outcome.Paged? && searches > k && |after.pages| == |s.pages| + searches - k - 1
            && after.pages[..|s.pages|] == s.pages
    decreases |s.answers|
  {
    hide SearchPage, FirstNear;
    var (found, answers) := SearchPage(q.layout(k), q.pos, q.range, pageSize, s.answers);
    if found.Found? {
      var p := NewPage(found.address, pageSize, q.permission);
      FirstNearInNew(s.pages, p, q);
      LargeNeverPaged(State(s.pages + [p], answers), q, pageSize, k + 1);
    }
  }

  /** As long as the layout offers an address and the operating system grants it, a call of that size goes on: it makes
      one search more than there are pages to be had. */
  lemma {:induction false} LargeNeverStops(s: State, q: Near, pageSize: nat, k: nat)
    requires pageSize > 0 && pageSize <= q.size && FirstNear(s.pages, q) == |s.pages|
    requires forall a :: a in s.answers ==> a
    requires var lo, hi := MinPage(q.pos, q.range, pageSize), MaxPage(q.pos, q.range, pageSize);
             forall n :: n >= k ==> AllTries(q.layout(n), lo, hi).addresses != []
    ensures Serve(s, q, pageSize, k).2 == k + |s.answers| + 1
    decreases |s.answers|
  {
    hide FirstNear, AllTries, MinPage, MaxPage;
    var (found, answers) := SearchPage(q.layout(k), q.pos, q.range, pageSize, s.answers);
    if s.answers != [] {
      assert s.answers[0] in s.answers;
      assert found.Found? && answers == s.answers[1..];
      assert forall a :: a in answers ==> a in s.answers;
      var p := NewPage(found.address, pageSize, q.permission);
      FirstNearInNew(s.pages, p, q);
      LargeNeverStops(State(s.pages + [p], answers), q, pageSize, k + 1);
    } else {
      NoAnswers(AllTries(q.layout(k), MinPage(q.pos, q.range, pageSize), MaxPage(q.pos, q.range, pageSize)));
    }
  }

  lemma {:induction false} NoAnswers(tries: Tries)
    ensures !Ask(tries, []).0.Found?
    decreases |tries.addresses|
  {
    if tries.addresses != [] { NoAnswers(tries.(addresses := tries.addresses[1..])); }
  }

  // ----- every run -----

  ghost predicate AllTiled(pages: seq<Page>) { forall i :: 0 <= i < |pages| ==> Tiled(pages[i]) }

  lemma {:induction false} AllTiledGrown(pages: seq<Page>, address: int, pageSize: nat, permission: Permission)
    requires AllTiled(pages)
    ensures AllTiled(pages + [NewPage(address, pageSize, permission)])
  {
    assert Tiled(NewPage(address, pageSize, permission));
  }

  /** The pages that were there keep their place, permission and chunks. */
  ghost predicate Extends(before: seq<Page>, after: seq<Page>) {
    && |before| <= |after|
    && forall i :: 0 <= i < |before| ==>
         && after[i].address == before[i].address && after[i].length == before[i].length
         && after[i].permission == before[i].permission && before[i].chunks <= after[i].chunks
  }

  /** One call keeps every page tiled and what it holds, and a chunk from a page is within the range, inside its page
      and of the permission asked for. */
  lemma {:induction false} ServeKeeps(s: State, q: Near, pageSize: nat, k: nat)
    requires pageSize > 0 && q.size >= 0 && AllTiled(s.pages)
    ensures var (after, outcome, searches) := Serve(s, q, pageSize, k);
            && AllTiled(after.pages) && Extends(s.pages, after.pages)
            && (outcome.Paged? ==>
                  && q.pos - q.range < outcome.chunk.address < q.pos + q.range && outcome.chunk.length == q.size
                  && Held(after.pages, outcome.chunk, q.permission))
    decreases |s.answers|
  {
    hide SearchPage, Tiled;
    var i := FirstNear(s.pages, q);
    if i < |s.pages| {
      var p := s.pages[i];
      CutTiles(p, q.size);
      HeldInCut(p, q.size);
      var after := Serve(s, q, pageSize, k).0.pages;
      assert after[i] == Cut(p, q.size);
      assert HeldAt(after[i], Chunk(p.cursor, q.size), q.permission);
    } else {
      hide FirstNear;
      var (found, answers) := SearchPage(q.layout(k), q.pos, q.range, pageSize, s.answers);
      if found.Found? {
        AllTiledGrown(s.pages, found.address, pageSize, q.permission);
        ServeKeeps(State(s.pages + [NewPage(found.address, pageSize, q.permission)], answers), q, pageSize, k + 1);
      }
    }
  }

  lemma {:induction false} HeldInCut(p: Page, size: int)
    requires Tiled(p) && 0 <= size && p.cursor + size < p.address + p.length
    ensures HeldAt(Cut(p, size), Chunk(p.cursor, size), p.permission)
  {
    LaidBounds(p.chunks, p.address, p.cursor);
  }

  /** The state after a run of calls, and their outcomes. */
  function Run(calls: seq<Near>, answers: seq<bool>, pageSize: nat): (r: (State, seq<Outcome>))
    requires pageSize > 0
    ensures |r.1| == |calls|
  {
    if calls == [] then (State([], answers), [])
    else
      var n := |calls| - 1;
      var (s, outcomes) := Run(calls[..n], answers, pageSize);
      var (after, outcome, _) := Serve(s, calls[n], pageSize, 0);
      (after, outcomes + [outcome])
  }

  /** The chunk came from a page, lies within the call's range and is still held by a page of the call's permission. */
  ghost predicate Right(pages: seq<Page>, outcome: Outcome, q: Near) {
    outcome.Paged? ==>
      && q.pos - q.range < outcome.chunk.address < q.pos + q.range && outcome.chunk.length == q.size
      && Held(pages, outcome.chunk, q.permission)
  }

  lemma {:induction false} RightStays(before: seq<Page>, after: seq<Page>, outcome: Outcome, q: Near)
    requires Extends(before, after) && Right(before, outcome, q)
    ensures Right(after, outcome, q)
  {
    if outcome.Paged? {
      var i :| 0 <= i < |before| && HeldAt(before[i], outcome.chunk, q.permission);
      assert HeldAt(after[i], outcome.chunk, q.permission);
    }
  }

  ghost predicate AllRight(pages: seq<Page>, outcomes: seq<Outcome>, calls: seq<Near>)
    requires |outcomes| == |calls|
  {
    forall i :: 0 <= i < |calls| ==> Right(pages, outcomes[i], calls[i])
  }

  lemma {:induction false} OneMoreRight(
      before: seq<Page>, after: seq<Page>, outcomes: seq<Outcome>, outcome: Outcome, calls: seq<Near>)
    requires |calls| == |outcomes| + 1 && AllRight(before, outcomes, calls[..|outcomes|]) && Extends(before, after)
    requires Right(after, outcome, calls[|outcomes|])
    ensures AllRight(after, outcomes + [outcome], calls)
  {
    hide Right, Extends;
    forall i | 0 <= i < |outcomes| ensures Right(after, outcomes[i], calls[i]) {
      assert Right(before, outcomes[i], calls[..|outcomes|][i]);
      RightStays(before, after, outcomes[i], calls[i]);
    }
  }

  /** Over every run of calls that ask for nothing or more: every page is tiled by its chunks up to its cursor, and
      every chunk handed out of a page is in range, inside a page and of the right permission, and stays so. */
  lemma {:induction false} RunStaysNear(calls: seq<Near>, answers: seq<bool>, pageSize: nat)
    requires pageSize > 0 && forall i :: 0 <= i < |calls| ==> calls[i].size >= 0
    ensures AllTiled(Run(calls, answers, pageSize).0.pages)
    ensures AllRight(Run(calls, answers, pageSize).0.pages, Run(calls, answers, pageSize).1, calls)
    decreases |calls|
  {
    if calls != [] {
      var n := |calls| - 1;
      RunStaysNear(calls[..n], answers, pageSize);
      var (s, outcomes) := Run(calls[..n], answers, pageSize);
      var (after, outcome, _) := Serve(s, calls[n], pageSize, 0);
      ServeKeeps(s, calls[n], pageSize, 0);
      hide Serve, Held, AllTiled, Extends, AllRight;
      OneMoreRight(s.pages, after.pages, outcomes, outcome, calls);
    }
  }
}
