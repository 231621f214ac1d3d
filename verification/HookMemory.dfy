/**
 Installing and destroying hooks: save the prologue, register the entry, patch the code; later write the saved bytes
 back and drop the entry.  Addresses index one memory; this is the code path of every target but 32-bit Arm.
 */
module HookMemory {
  import opened Bytes
  import opened HookRing

  datatype Engine = Engine(mem: seq<Byte>, entries: seq<HookEntry>)

  /** `memcpy` into memory. */
  function Write(mem: seq<Byte>, address: nat, bytes: seq<Byte>): (r: seq<Byte>)
    requires address + |bytes| <= |mem|
    ensures |r| == |mem|
    ensures forall x :: 0 <= x < |mem| ==>
              r[x] == if address <= x < address + |bytes| then bytes[x - address] else mem[x]
  {
    mem[..address] + bytes + mem[address + |bytes|..]
  }

  /** A request to hook: the trampoline, the length of the prologue that the relocator took, and whether the
      relocated code could be allocated. */
  datatype Request = Request(address: nat, target: nat, trampoline: seq<Byte>, length: nat, relocated: bool)

  ghost predicate Fits(e: Engine, q: Request) {
    && q.address + |q.trampoline| <= |e.mem| && q.address + q.length <= |e.mem|
    && q.length <= 64
  }

  predicate AlreadyHooked(e: Engine, q: Request) {
    var i := FirstFor(e.entries, q.address);
    q.address == 0 || (i < |e.entries| && e.entries[i].target == q.target)
  }

  /** A request that is refused touches nothing; any other must fit. */
  ghost predicate Handles(e: Engine, q: Request) { AlreadyHooked(e, q) || Fits(e, q) }

  /** `GenerateRelocatedCode` saves the prologue only if the relocated code was allocated. */
  function Saved(e: Engine, q: Request): seq<Byte>
    requires Fits(e, q)
  {
    if q.relocated then e.mem[q.address..q.address + q.length] else []
  }

  /** `DobbyHook`. */
  function Hook(e: Engine, q: Request): Engine
    requires Handles(e, q)
  {
    if AlreadyHooked(e, q) then e
    else Engine(Write(e.mem, q.address, q.trampoline), [HookEntry(q.address, q.target, Saved(e, q))] + e.entries)
  }

  ghost predicate EntriesFit(mem: seq<Byte>, entries: seq<HookEntry>) {
    forall i :: 0 <= i < |entries| ==> entries[i].address + |entries[i].saved| <= |mem|
  }

  /** `DobbyDestroy`: the most recent entry for the address. */
  function Destroy(e: Engine, address: nat): Engine
    requires EntriesFit(e.mem, e.entries)
  {
    var i := FirstFor(e.entries, address);
    if i < |e.entries| then Engine(Write(e.mem, address, e.entries[i].saved), Without(e.entries, i)) else e
  }

  // ----- what the entries remember -----

  /** Memory with every hook undone, the most recent first. */
  function Unwind(mem: seq<Byte>, entries: seq<HookEntry>): (r: seq<Byte>)
    requires EntriesFit(mem, entries)
    ensures |r| == |mem|
    decreases |entries|
  {
    if entries == [] then mem
    else
      var m := Write(mem, entries[0].address, entries[0].saved);
      assert EntriesFit(m, entries[1..]);
      Unwind(m, entries[1..])
  }

  predicate Disjoint(a: HookEntry, b: HookEntry) {
    a.address + |a.saved| <= b.address || b.address + |b.saved| <= a.address
  }

  /** Hooks at different addresses save different bytes; hooks at one address may be stacked. */
  ghost predicate Separate(entries: seq<HookEntry>) {
    forall i, j :: 0 <= i < j < |entries| ==>
      entries[i].address == entries[j].address || Disjoint(entries[i], entries[j])
  }

  lemma {:induction false} WritesCommute(mem: seq<Byte>, a: HookEntry, b: HookEntry)
    requires a.address + |a.saved| <= |mem| && b.address + |b.saved| <= |mem| && Disjoint(a, b)
    ensures Write(Write(mem, a.address, a.saved), b.address, b.saved) ==
              Write(Write(mem, b.address, b.saved), a.address, a.saved)
  {}

  /** Undoing the most recent hook at an address first changes nothing in the end. */
  lemma {:induction false} UnwindOutOfOrder(mem: seq<Byte>, entries: seq<HookEntry>, i: nat)
    requires EntriesFit(mem, entries) && Separate(entries) && i < |entries|
    requires forall j :: 0 <= j < i ==> entries[j].address != entries[i].address
    ensures EntriesFit(mem, Without(entries, i))
    ensures Unwind(Write(mem, entries[i].address, entries[i].saved), Without(entries, i)) == Unwind(mem, entries)
    decreases i
  {
    var e := entries[i];
    var undone, rest := Write(mem, e.address, e.saved), Without(entries, i);
    if i == 0 {
      assert rest == entries[1..];
    } else {
      var first := entries[0];
      assert Disjoint(first, e);
      WritesCommute(mem, first, e);
      var m := Write(mem, first.address, first.saved);
      assert rest[0] == first && rest[1..] == Without(entries[1..], i - 1);
      UnwindOutOfOrder(m, entries[1..], i - 1);
    }
  }

  /** Bytes that no live hook saved are not touched by undoing. */
  lemma {:induction false} UnwindElsewhere(mem: seq<Byte>, entries: seq<HookEntry>, x: nat)
    requires EntriesFit(mem, entries) && x < |mem|
    requires forall i :: 0 <= i < |entries| ==> !(entries[i].address <= x < entries[i].address + |entries[i].saved|)
    ensures Unwind(mem, entries)[x] == mem[x]
    decreases |entries|
  {
    if entries != [] {
      UnwindElsewhere(Write(mem, entries[0].address, entries[0].saved), entries[1..], x);
    }
  }

  // ----- one call -----

  /** `length` saved bytes cover the trampoline, or what they do not cover was already there. */
  ghost predicate Covers(mem: seq<Byte>, address: nat, trampoline: seq<Byte>, length: nat)
    requires address + |trampoline| <= |mem|
  {
    forall x :: length <= x < |trampoline| ==> trampoline[x] == mem[address + x]
  }

  /** Writing the saved bytes back restores memory exactly when the saved bytes cover the trampoline, or the rest of the
      trampoline was already there. */
  lemma {:induction false} RestoreRestores(mem: seq<Byte>, address: nat, trampoline: seq<Byte>, length: nat)
    requires address + |trampoline| <= |mem| && address + length <= |mem|
    ensures Write(Write(mem, address, trampoline), address, mem[address..address + length]) == mem <==>
              Covers(mem, address, trampoline, length)
  {
    var patched := Write(mem, address, trampoline);
    var r := Write(patched, address, mem[address..address + length]);
    if r == mem {
      forall x | length <= x < |trampoline|
        ensures trampoline[x] == mem[address + x]
      {
        assert r[address + x] == patched[address + x] == trampoline[x];
      }
    }
    if Covers(mem, address, trampoline, length) {
      forall y | 0 <= y < |mem|
        ensures r[y] == mem[y]
      {
        if address + length <= y < address + |trampoline| { assert trampoline[y - address] == mem[y]; }
      }
    }
  }

  /** The new hook's saved bytes are apart from those of hooks at other addresses. */
  ghost predicate Placed(e: Engine, q: Request)
    requires Fits(e, q)
  {
    Separate([HookEntry(q.address, q.target, Saved(e, q))] + e.entries)
  }

  ghost predicate Sound(e: Engine) {
    EntriesFit(e.mem, e.entries) && Separate(e.entries)
  }

  /** The memory that destroying every hook would leave. */
  ghost function Pristine(e: Engine): seq<Byte>
    requires Sound(e)
  {
    Unwind(e.mem, e.entries)
  }

  /** The number of prologue bytes that a hook saves. */
  function Kept(q: Request): nat { if q.relocated then q.length else 0 }

  ghost predicate Covered(e: Engine, q: Request)
    requires Fits(e, q)
  {
    Covers(e.mem, q.address, q.trampoline, Kept(q))
  }

  lemma {:induction false} HookShape(e: Engine, q: Request)
    requires Sound(e) && Fits(e, q) && Placed(e, q) && !AlreadyHooked(e, q)
    ensures var h := Hook(e, q);
            && |h.entries| == |e.entries| + 1 && h.entries[1..] == e.entries
            && h.entries[0] == HookEntry(q.address, q.target, e.mem[q.address..q.address + Kept(q)])
            && h.mem == Write(e.mem, q.address, q.trampoline)
            && Sound(h)
  {
    var h := Hook(e, q);
    assert Saved(e, q) == e.mem[q.address..q.address + Kept(q)];
    assert h.entries[1..] == e.entries;
  }

  /** Destroying a hook right after installing it undoes it exactly when the saved bytes cover the trampoline. */
  lemma {:induction false} DestroyUndoesHook(e: Engine, q: Request)
    requires Sound(e) && Fits(e, q) && Placed(e, q) && !AlreadyHooked(e, q)
    ensures Sound(Hook(e, q))
    ensures Destroy(Hook(e, q), q.address) == e <==> Covered(e, q)
  {
    HookShape(e, q);
    DestroyFirst(Hook(e, q));
    UndoIsRestore(e, q, Destroy(Hook(e, q), q.address));
  }

  lemma {:induction false} UndoIsRestore(e: Engine, q: Request, d: Engine)
    requires Fits(e, q) && d.entries == e.entries
    requires d.mem == Write(Write(e.mem, q.address, q.trampoline), q.address, e.mem[q.address..q.address + Kept(q)])
    ensures d == e <==> Covered(e, q)
  {
    hide Covers;
    RestoreRestores(e.mem, q.address, q.trampoline, Kept(q));
  }

  lemma {:induction false} DestroyFirst(h: Engine)
    requires EntriesFit(h.mem, h.entries) && h.entries != []
    ensures Destroy(h, h.entries[0].address) ==
              Engine(Write(h.mem, h.entries[0].address, h.entries[0].saved), h.entries[1..])
  {
    hide Write;
    assert FirstFor(h.entries, h.entries[0].address) == 0 && Without(h.entries, 0) == h.entries[1..];
  }

  /** The hook is refused, or fits, saves what it patches and is apart from hooks at other addresses. */
  ghost predicate Restorable(e: Engine, q: Request) {
    AlreadyHooked(e, q) || (Fits(e, q) && Placed(e, q) && Covered(e, q))
  }

  /** Such a hook keeps the pristine memory recoverable. */
  lemma {:induction false} HookKeepsPristine(e: Engine, q: Request)
    requires Sound(e) && Restorable(e, q)
    ensures Sound(Hook(e, q)) && Pristine(Hook(e, q)) == Pristine(e)
  {
    if !AlreadyHooked(e, q) {
      HookShape(e, q);
      RestoreRestores(e.mem, q.address, q.trampoline, Kept(q));
      hide Hook, Write, Separate;
      assert Pristine(Hook(e, q)) == Unwind(e.mem, e.entries);
    }
  }

  lemma {:induction false} DestroyKeepsPristine(e: Engine, address: nat)
    requires Sound(e)
    ensures Sound(Destroy(e, address)) && Pristine(Destroy(e, address)) == Pristine(e)
  {
    var i := FirstFor(e.entries, address);
    if i < |e.entries| {
      UnwindOutOfOrder(e.mem, e.entries, i);
      WithoutSeparate(e.entries, i);
    }
  }

  lemma {:induction false} WithoutSeparate(entries: seq<HookEntry>, i: nat)
    requires Separate(entries) && i < |entries|
    ensures Separate(Without(entries, i))
  {
    var r := Without(entries, i);
    assert forall k :: 0 <= k < |r| ==> r[k] == entries[if k < i then k else k + 1];
  }

  // ----- whole runs -----

  datatype Call = HookCall(q: Request) | DestroyCall(address: nat)

  /** Every hook of the run is refused or can be undone. */
  ghost predicate Admissible(e: Engine, calls: seq<Call>)
    requires Sound(e)
    decreases |calls|
  {
    calls == [] ||
    (match calls[0]
     case HookCall(q) =>
       && Restorable(e, q)
       && (HookKeepsPristine(e, q); Admissible(Hook(e, q), calls[1..]))
     case DestroyCall(address) =>
       DestroyKeepsPristine(e, address);
       Admissible(Destroy(e, address), calls[1..]))
  }

  ghost function Run(e: Engine, calls: seq<Call>): Engine
    requires Sound(e) && Admissible(e, calls)
    decreases |calls|
  {
    if calls == [] then e
    else
      match calls[0]
      case HookCall(q) =>
        HookKeepsPristine(e, q);
        Run(Hook(e, q), calls[1..])
      case DestroyCall(address) =>
        DestroyKeepsPristine(e, address);
        Run(Destroy(e, address), calls[1..])
  }

  /** Over every admissible run the pristine memory stays the same: bytes outside live hooks are original, and when no
      hook is left all of memory is. */
  lemma {:induction false} RunRestores(e: Engine, calls: seq<Call>)
    requires Sound(e) && Admissible(e, calls)
    ensures Sound(Run(e, calls)) && Pristine(Run(e, calls)) == Pristine(e)
    ensures Run(e, calls).entries == [] ==> Run(e, calls).mem == Pristine(e)
    decreases |calls|
  {
    if calls != [] {
      match calls[0]
      case HookCall(q) =>
        HookKeepsPristine(e, q);
        RunRestores(Hook(e, q), calls[1..]);
      case DestroyCall(address) =>
        DestroyKeepsPristine(e, address);
        RunRestores(Destroy(e, address), calls[1..]);
    }
  }

  /** From unpatched memory, a byte that no live hook saved is original after any admissible run. */
  lemma {:induction false} BytesOutsideHooksAreOriginal(mem: seq<Byte>, calls: seq<Call>, x: nat)
    requires Admissible(Engine(mem, []), calls) && x < |mem|
    requires var r := Run(Engine(mem, []), calls);
             forall i :: 0 <= i < |r.entries| ==>
               !(r.entries[i].address <= x < r.entries[i].address + |r.entries[i].saved|)
    ensures |Run(Engine(mem, []), calls).mem| == |mem| && Run(Engine(mem, []), calls).mem[x] == mem[x]
  {
    var e := Engine(mem, []);
    RunRestores(e, calls);
    var r := Run(e, calls);
    UnwindElsewhere(r.mem, r.entries, x);
  }

  // ----- what one call does -----

  /** The newest entry for the address is number `i`. */
  ghost predicate Newest(entries: seq<HookEntry>, address: nat, i: nat) {
    && i < |entries| && entries[i].address == address
    && forall j :: 0 <= j < i ==> entries[j].address != address
  }

  /** Byte by byte: `bytes` stand at `address` and the rest is as before. */
  ghost predicate Overwritten(before: seq<Byte>, after: seq<Byte>, address: nat, bytes: seq<Byte>) {
    && |after| == |before|
    && (forall k :: 0 <= k < |bytes| && address + k < |after| ==> after[address + k] == bytes[k])
    && forall x :: 0 <= x < |after| && !(address <= x < address + |bytes|) ==> after[x] == before[x]
  }

  lemma {:induction false} NewestIsFirst(entries: seq<HookEntry>, address: nat, i: nat)
    ensures Newest(entries, address, i) ==> i == FirstFor(entries, address)
    ensures FirstFor(entries, address) < |entries| ==> Newest(entries, address, FirstFor(entries, address))
  {}

  /** Destroying a hook, whatever was hooked after it: the newest entry for its address is gone and the others keep
      their order; its saved bytes stand at the address, and no other byte changes. */
  lemma {:induction false} DestroyEffect(e: Engine, address: nat, i: nat)
    requires EntriesFit(e.mem, e.entries) && Newest(e.entries, address, i)
    ensures var d := Destroy(e, address);
            d.entries == e.entries[..i] + e.entries[i + 1..] && Overwritten(e.mem, d.mem, address, e.entries[i].saved)
  {
    NewestIsFirst(e.entries, address, i);
  }

  /** Where there is no entry nothing happens. */
  lemma {:induction false} DestroyNothing(e: Engine, address: nat)
    requires EntriesFit(e.mem, e.entries) && forall i :: 0 <= i < |e.entries| ==> e.entries[i].address != address
    ensures Destroy(e, address) == e
  {}

  /** The request is for address zero, or repeats the replacement of the newest hook there. */
  ghost predicate Repeats(e: Engine, q: Request) {
    q.address == 0 || exists i: nat :: Newest(e.entries, q.address, i) && e.entries[i].target == q.target
  }

  /** A hook: refused, without change, exactly then; otherwise there is one new entry in front, with the prologue
      bytes or, if no relocated code could be allocated, with none, and the trampoline stands at the address and no
      other byte changes. */
  lemma {:induction false} HookEffect(e: Engine, q: Request)
    requires Repeats(e, q) || Fits(e, q)
    ensures Handles(e, q)
    ensures var h := Hook(e, q);
            && (Repeats(e, q) ==> h == e)
            && (!Repeats(e, q) ==>
                  && |h.entries| == |e.entries| + 1 && h.entries[1..] == e.entries
                  && h.entries[0].address == q.address && h.entries[0].target == q.target
                  && |h.entries[0].saved| == (if q.relocated then q.length else 0)
                  && (forall k :: 0 <= k < |h.entries[0].saved| ==> h.entries[0].saved[k] == e.mem[q.address + k])
                  && Overwritten(e.mem, h.mem, q.address, q.trampoline))
  {
    RepeatsExactly(e, q);
    if !Repeats(e, q) {
      var h := Hook(e, q);
      assert h.entries[1..] == e.entries;
    }
  }

  lemma {:induction false} RepeatsExactly(e: Engine, q: Request)
    ensures Repeats(e, q) <==> AlreadyHooked(e, q)
  {
    var i := FirstFor(e.entries, q.address);
    NewestIsFirst(e.entries, q.address, i);
    forall j: nat | Newest(e.entries, q.address, j) ensures j == i { NewestIsFirst(e.entries, q.address, j); }
    assert i < |e.entries| ==> Newest(e.entries, q.address, i);
    hide Newest;
  }

  // ----- destroying every hook -----

  function AddressesOf(entries: seq<HookEntry>): multiset<nat> {
    if entries == [] then multiset{} else multiset{entries[0].address} + AddressesOf(entries[1..])
  }

  ghost function DestroyAll(e: Engine, order: seq<nat>): Engine
    requires Sound(e)
    decreases |order|
  {
    if order == [] then e
    else
      DestroyKeepsPristine(e, order[0]);
      DestroyAll(Destroy(e, order[0]), order[1..])
  }

  lemma {:induction false} AddressesWithout(entries: seq<HookEntry>, i: nat)
    requires i < |entries|
    ensures AddressesOf(entries) == multiset{entries[i].address} + AddressesOf(entries[..i] + entries[i + 1..])
  {
    var r := entries[..i] + entries[i + 1..];
    if i == 0 {
      assert r == entries[1..];
    } else {
      AddressesWithout(entries[1..], i - 1);
      assert r == [entries[0]] + (entries[1..][..i - 1] + entries[1..][i..]);
      assert r[1..] == entries[1..][..i - 1] + entries[1..][i..];
    }
  }

  lemma {:induction false} AddressFound(entries: seq<HookEntry>, address: nat)
    requires address in AddressesOf(entries)
    ensures FirstFor(entries, address) < |entries|
  {
    if entries != [] && entries[0].address != address { AddressFound(entries[1..], address); }
  }

  lemma {:induction false} SomeAddress(entries: seq<HookEntry>)
    ensures entries != [] ==> AddressesOf(entries)[entries[0].address] > 0
  {}

  /** Destroying each live hook once, in any order, leaves no entry and the original memory. */
  lemma {:induction false} DestroyingAllRestores(e: Engine, order: seq<nat>)
    requires Sound(e) && multiset(order) == AddressesOf(e.entries)
    ensures DestroyAll(e, order) == Engine(Pristine(e), [])
    decreases |order|
  {
    if order == [] {
      SomeAddress(e.entries);
    } else {
      var address, rest := order[0], order[1..];
      assert order == [address] + rest;
      assert address in multiset(order);
      AddressFound(e.entries, address);
      var i := FirstFor(e.entries, address);
      NewestIsFirst(e.entries, address, i);
      DestroyEffect(e, address, i);
      AddressesWithout(e.entries, i);
      hide Sound, EntriesFit;
      DestroyKeepsPristine(e, address);
      var d := Destroy(e, address);
      hide Destroy, Pristine, AddressesOf, Overwritten, Newest;
      assert multiset(rest) == multiset(order) - multiset{address};
      assert AddressesOf(d.entries) == AddressesOf(e.entries) - multiset{address};
      DestroyingAllRestores(d, rest);
    }
  }

  /** After any run that starts unpatched, too. */
  lemma {:induction false} RunThenDestroyAll(mem: seq<Byte>, calls: seq<Call>, order: seq<nat>)
    requires Admissible(Engine(mem, []), calls)
    requires multiset(order) == AddressesOf(Run(Engine(mem, []), calls).entries)
    ensures Sound(Run(Engine(mem, []), calls))
    ensures DestroyAll(Run(Engine(mem, []), calls), order) == Engine(mem, [])
  {
    var e := Engine(mem, []);
    RunRestores(e, calls);
    DestroyingAllRestores(Run(e, calls), order);
  }

  /** Allocation of the relocated code fails: nothing is saved but the code is patched, and destroying the hook leaves
      the trampoline behind. */
  lemma {:induction false} FailedRelocationExample()
    ensures var e := Engine([1, 2, 3, 4], []);
            var q := Request(1, 9, [7, 7], 2, false);
            Destroy(Hook(e, q), 1) == Engine([1, 7, 7, 4], [])
  {
    var e := Engine([1, 2, 3, 4], []);
    var q := Request(1, 9, [7, 7], 2, false);
    assert Hook(e, q) == Engine([1, 7, 7, 4], [HookEntry(1, 9, [])]);
  }
}
