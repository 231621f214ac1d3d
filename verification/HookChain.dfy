/**
 The execution of a hooked member: the before-hooks of a snapshot of patches in order, the original member unless
 a hook left an outcome, and the after-hooks in reverse order.

 A hook may look at the registers and then call their setters any number of times, with any arguments, catching
 what they throw or not, and may throw itself.
 */
module HookChain {
  import opened Common

  /** A Java object reference that may be null. */
  datatype Value = Null | Object(id: nat)

  /** `returned` is `None` while it is the sentinel, `thrown` while it is null. */
  datatype Regs = Regs(returned: Option<Value>, thrown: Option<nat>)

  const Unset := Regs(None, None)

  /** What the caller of a member sees. */
  datatype Outcome = Return(value: Value) | Throw(throwable: nat)

  /** A setter call, with `None` for the argument that it rejects, and whether the hook catches the rejection. */
  datatype SetterCall =
    | SetReturned(result: Option<Value>, catches: bool)
    | SetThrown(throwable: Option<nat>, catches: bool)

  /** The setter calls of a hook as a function of the registers it finds. */
  type Hook = Regs -> seq<SetterCall>

  datatype Patch = Patch(before: Hook, after: Hook)

  /** What happens in one execution: the before-hook or after-hook of a patch, with the registers it finds and the
      setter calls it makes, or the original member. */
  datatype Event =
    | Before(i: nat, found: Regs, calls: seq<SetterCall>)
    | Original(outcome: Outcome)
    | After(i: nat, found: Regs, calls: seq<SetterCall>)

  // ----- what hooks do to the registers -----

  function Apply(regs: Regs, call: SetterCall): Regs {
    match call
    case SetReturned(Some(v), _) => Regs(Some(v), None)
    case SetThrown(Some(t), _) => Regs(None, Some(t))
    case _ => regs
  }

  predicate Rejected(call: SetterCall) {
    match call
    case SetReturned(o, _) => o.None?
    case SetThrown(t, _) => t.None?
  }

  /** The registers after a hook: it ends at the first rejection that it does not catch. */
  function ApplyAll(regs: Regs, calls: seq<SetterCall>): Regs
    decreases |calls|
  {
    if calls == [] || (Rejected(calls[0]) && !calls[0].catches) then regs
    else ApplyAll(Apply(regs, calls[0]), calls[1..])
  }

  /** The registers after the first `k` before-hooks. */
  function AfterBefores(patches: seq<Patch>, k: nat): Regs
    requires k <= |patches|
  {
    if k == 0 then Unset
    else
      var regs := AfterBefores(patches, k - 1);
      ApplyAll(regs, patches[k - 1].before(regs))
  }

  function WithOriginal(regs: Regs, original: Outcome): Regs {
    if regs != Unset then regs
    else
      match original
      case Return(v) => Regs(Some(v), None)
      case Throw(t) => Regs(None, Some(t))
  }

  /** The registers after the after-hooks of `patches[k..]`, the last patch first. */
  function AfterAfters(patches: seq<Patch>, k: nat, regs: Regs): Regs
    requires k <= |patches|
    decreases |patches| - k
  {
    if k == |patches| then regs
    else
      var r := AfterAfters(patches, k + 1, regs);
      ApplyAll(r, patches[k].after(r))
  }

  // ----- the register machine -----

  predicate AtMostOne(regs: Regs) { regs.returned.None? || regs.thrown.None? }

  predicate ExactlyOne(regs: Regs) { AtMostOne(regs) && regs != Unset }

  /** No hook can leave both outcomes set, and none can take an outcome back to neither. */
  lemma {:induction false} HooksKeepOutcome(regs: Regs, calls: seq<SetterCall>)
    ensures AtMostOne(regs) ==> AtMostOne(ApplyAll(regs, calls))
    ensures ExactlyOne(regs) ==> ExactlyOne(ApplyAll(regs, calls))
    decreases |calls|
  {
    if calls != [] { HooksKeepOutcome(Apply(regs, calls[0]), calls[1..]); }
  }

  lemma {:induction false} BeforesKeepOutcome(patches: seq<Patch>, j: nat, k: nat)
    requires j <= k <= |patches|
    ensures AtMostOne(AfterBefores(patches, k))
    ensures AfterBefores(patches, j) != Unset ==> ExactlyOne(AfterBefores(patches, k))
    decreases k
  {
    if k > 0 {
      BeforesKeepOutcome(patches, if j < k then j else k - 1, k - 1);
      var regs := AfterBefores(patches, k - 1);
      HooksKeepOutcome(regs, patches[k - 1].before(regs));
    }
  }

  lemma {:induction false} AftersKeepOutcome(patches: seq<Patch>, k: nat, regs: Regs)
    requires k <= |patches| && ExactlyOne(regs)
    ensures ExactlyOne(AfterAfters(patches, k, regs))
    decreases |patches| - k
  {
    if k < |patches| {
      AftersKeepOutcome(patches, k + 1, regs);
      var r := AfterAfters(patches, k + 1, regs);
      HooksKeepOutcome(r, patches[k].after(r));
    }
  }

  // ----- the execution by its setter calls -----

  /** The outcome that a setter call sets, unless it is rejected. */
  function Argument(call: SetterCall): Option<Outcome> {
    match call
    case SetReturned(Some(v), _) => Some(Return(v))
    case SetThrown(Some(t), _) => Some(Throw(t))
    case _ => None
  }

  /** What the accepted setter calls of a hook set, in order, up to a rejection that it does not catch. */
  function Settings(calls: seq<SetterCall>): seq<Outcome> {
    if calls == [] then []
    else
      match Argument(calls[0])
      case Some(o) => [o] + Settings(calls[1..])
      case None => if calls[0].catches then Settings(calls[1..]) else []
  }

  /** What was set in an execution so far, in order: by accepted setter calls, and by the original. */
  function SettingsOf(trace: seq<Event>): seq<Outcome> {
    if trace == [] then []
    else
      var n := |trace| - 1;
      SettingsOf(trace[..n]) + match trace[n] case Original(o) => [o] case e => Settings(e.calls)
  }

  /** The registers that hold the last outcome set. */
  function Standing(settings: seq<Outcome>): Regs {
    if settings == [] then Unset
    else
      match settings[|settings| - 1]
      case Return(v) => Regs(Some(v), None)
      case Throw(t) => Regs(None, Some(t))
  }

  /** Event `k` is a hook that finds what was set last before it, and makes the calls that it makes on finding that. */
  ghost predicate Heard(trace: seq<Event>, k: nat, hook: Hook)
    requires k < |trace| && !trace[k].Original?
  {
    trace[k].found == Standing(SettingsOf(trace[..k])) && trace[k].calls == hook(trace[k].found)
  }

  ghost predicate BeforesRun(patches: seq<Patch>, trace: seq<Event>, n: nat)
    requires n <= |patches| && n <= |trace|
  {
    forall k :: 0 <= k < n ==> trace[k].Before? && trace[k].i == k && Heard(trace, k, patches[k].before)
  }

  /** The events from `start` on are after-hooks, the last patch first. */
  ghost predicate AftersRun(patches: seq<Patch>, trace: seq<Event>, start: nat)
    requires start <= |trace| <= start + |patches|
  {
    forall k :: start <= k < |trace| ==>
      var i := start + |patches| - 1 - k;
      trace[k].After? && trace[k].i == i && Heard(trace, k, patches[i].after)
  }

  /** Every before-hook once in order, the original exactly if nothing was set by then, every after-hook once in
      reverse. */
  ghost predicate IsRun(patches: seq<Patch>, original: Outcome, trace: seq<Event>) {
    var n := |patches|;
    && n <= |trace| && BeforesRun(patches, trace, n)
    && var start := if SettingsOf(trace[..n]) == [] then n + 1 else n;
       && |trace| == start + n && (start > n ==> trace[n] == Original(original))
       && AftersRun(patches, trace, start)
  }

  lemma {:induction false} StandingJoin(a: seq<Outcome>, b: seq<Outcome>)
    ensures Standing(a + b) == if b == [] then Standing(a) else Standing(b)
  {
    if b == [] { assert a + b == a; }
  }

  lemma {:induction false} SettingsStep(trace: seq<Event>, e: Event)
    ensures SettingsOf(trace + [e]) == SettingsOf(trace) + match e case Original(o) => [o] case _ => Settings(e.calls)
  {
    assert (trace + [e])[..|trace|] == trace;
  }

  /** A hook leaves what its last accepted setter call set, or what it found. */
  lemma {:induction false} HookSetsLast(regs: Regs, calls: seq<SetterCall>)
    ensures ApplyAll(regs, calls) == if Settings(calls) == [] then regs else Standing(Settings(calls))
    decreases |calls|
  {
    if calls != [] {
      HookSetsLast(Apply(regs, calls[0]), calls[1..]);
      if Argument(calls[0]).Some? { StandingJoin([Argument(calls[0]).value], Settings(calls[1..])); }
    }
  }

  /** After one more hook. */
  lemma {:induction false} HookExtends(trace: seq<Event>, e: Event)
    requires !e.Original? && e.found == Standing(SettingsOf(trace))
    ensures Standing(SettingsOf(trace + [e])) == ApplyAll(e.found, e.calls)
  {
    SettingsStep(trace, e);
    HookSetsLast(e.found, e.calls);
    StandingJoin(SettingsOf(trace), Settings(e.calls));
  }

  lemma {:induction false} PrefixStep(trace: seq<Event>, k: nat)
    requires k < |trace|
    ensures trace[..k + 1] == trace[..k] + [trace[k]]
  {}

  lemma {:induction false} BeforesAreHeard(patches: seq<Patch>, trace: seq<Event>, k: nat)
    requires k <= |patches| && k <= |trace| && BeforesRun(patches, trace, k)
    ensures Standing(SettingsOf(trace[..k])) == AfterBefores(patches, k)
  {
    if k > 0 {
      BeforesAreHeard(patches, trace, k - 1);
      PrefixStep(trace, k - 1);
      HookExtends(trace[..k - 1], trace[k - 1]);
    } else {
      assert trace[..0] == [];
    }
  }

  lemma {:induction false} AfterIsHeard(patches: seq<Patch>, trace: seq<Event>, start: nat, k: nat)
    requires start <= k < |trace| <= start + |patches| && AftersRun(patches, trace, start)
    ensures !trace[k].Original? && Heard(trace, k, patches[start + |patches| - 1 - k].after)
  {
    hide SettingsOf, Standing;
  }

  lemma {:induction false} AftersAreHeard(patches: seq<Patch>, trace: seq<Event>, start: nat, k: nat)
    requires start <= k <= |trace| <= start + |patches| && AftersRun(patches, trace, start)
    ensures Standing(SettingsOf(trace[..k])) ==
              AfterAfters(patches, start + |patches| - k, Standing(SettingsOf(trace[..start])))
    decreases k
  {
    hide SettingsOf, Standing, ApplyAll;
    if k > start {
      AfterIsHeard(patches, trace, start, k - 1);
      AftersAreHeard(patches, trace, start, k - 1);
      PrefixStep(trace, k - 1);
      HookExtends(trace[..k - 1], trace[k - 1]);
    }
  }

  /** The registers at the end of an execution hold what was set last in it. */
  lemma {:induction false} RunEndsWithLast(patches: seq<Patch>, original: Outcome, trace: seq<Event>)
    requires IsRun(patches, original, trace)
    ensures SettingsOf(trace) != [] && Standing(SettingsOf(trace)) == FinalRegs(patches, original)
  {
    hide BeforesRun, AftersRun, SettingsOf, Standing, AfterBefores, AfterAfters, WithOriginal, ExactlyOne;
    var n := |patches|;
    var start, befores := |trace| - n, SettingsOf(trace[..n]);
    BeforesAreHeard(patches, trace, n);
    StandingSet(befores);
    OriginalSets(befores, original);
    if start > n {
      PrefixStep(trace, n);
      SettingsStep(trace[..n], trace[n]);
      assert [] + [original] == [original];
    }
    AftersAreHeard(patches, trace, start, |trace|);
    assert trace[..|trace|] == trace;
    FinalHasOutcome(patches, original);
    SomethingSet(trace);
  }

  lemma {:induction false} OriginalSets(settings: seq<Outcome>, original: Outcome)
    ensures WithOriginal(Standing(settings), original) == Standing(if settings == [] then [original] else settings)
  {}

  lemma {:induction false} SomethingSet(trace: seq<Event>)
    ensures ExactlyOne(Standing(SettingsOf(trace))) ==> SettingsOf(trace) != []
  {}

  lemma {:induction false} StandingSet(settings: seq<Outcome>)
    ensures Standing(settings) == Unset <==> settings == []
  {}

  /** The final registers of a whole execution. */
  function FinalRegs(patches: seq<Patch>, original: Outcome): Regs {
    AfterAfters(patches, 0, WithOriginal(AfterBefores(patches, |patches|), original))
  }

  /** At the end exactly one of the two outcomes is set. */
  lemma {:induction false} FinalHasOutcome(patches: seq<Patch>, original: Outcome)
    ensures ExactlyOne(FinalRegs(patches, original))
  {
    BeforesKeepOutcome(patches, 0, |patches|);
    AftersKeepOutcome(patches, 0, WithOriginal(AfterBefores(patches, |patches|), original));
  }

  /** An outcome left by any before-hook keeps the original from running. */
  lemma {:induction false} OutcomeReplacesOriginal(patches: seq<Patch>, j: nat, original: Outcome, other: Outcome)
    requires j <= |patches| && AfterBefores(patches, j) != Unset
    ensures AfterBefores(patches, |patches|) != Unset
    ensures FinalRegs(patches, original) == FinalRegs(patches, other)
  {
    BeforesKeepOutcome(patches, j, |patches|);
  }

  /** A hook that sets nothing: every call it makes is rejected. */
  ghost predicate Silent(h: Hook) {
    forall r, i :: 0 <= i < |h(r)| ==> Rejected(h(r)[i])
  }

  lemma {:induction false} RejectedDoNothing(regs: Regs, calls: seq<SetterCall>)
    requires forall i :: 0 <= i < |calls| ==> Rejected(calls[i])
    ensures ApplyAll(regs, calls) == regs
    decreases |calls|
  {
    if calls != [] { RejectedDoNothing(regs, calls[1..]); }
  }

  lemma {:induction false} SilentBefores(patches: seq<Patch>, k: nat)
    requires k <= |patches| && forall i :: 0 <= i < |patches| ==> Silent(patches[i].before)
    ensures AfterBefores(patches, k) == Unset
  {
    if k > 0 {
      SilentBefores(patches, k - 1);
      RejectedDoNothing(Unset, patches[k - 1].before(Unset));
    }
  }

  lemma {:induction false} SilentAfters(patches: seq<Patch>, k: nat, regs: Regs)
    requires k <= |patches| && forall i :: 0 <= i < |patches| ==> Silent(patches[i].after)
    ensures AfterAfters(patches, k, regs) == regs
    decreases |patches| - k
  {
    if k < |patches| {
      SilentAfters(patches, k + 1, regs);
      RejectedDoNothing(regs, patches[k].after(regs));
    }
  }

  /** Patches that set nothing are transparent: the caller sees the original's outcome. */
  lemma {:induction false} SilentPatchesTransparent(patches: seq<Patch>, original: Outcome)
    requires forall i :: 0 <= i < |patches| ==> Silent(patches[i].before) && Silent(patches[i].after)
    ensures FinalRegs(patches, original) == WithOriginal(Unset, original)
  {
    SilentBefores(patches, |patches|);
    SilentAfters(patches, 0, WithOriginal(Unset, original));
  }

  // ----- the loops -----

  class Registers {
    var returned: Option<Value>
    var thrown: Option<nat>

    ghost function View(): Regs
      reads this
    {
      Regs(returned, thrown)
    }

    constructor ()
      ensures View() == Unset
    {
      returned, thrown := None, None;
    }

    /** False where the setter throws. */
    method SetReturned(result: Option<Value>) returns (ok: bool)
      modifies this
      ensures ok <==> result.Some?
      ensures ok ==> returned == result && thrown == None
      ensures !ok ==> unchanged(this)
    {
      if result.None? { return false; }
      returned := result;
      thrown := None;
      return true;
    }

    method SetThrown(throwable: Option<nat>) returns (ok: bool)
      modifies this
      ensures ok <==> throwable.Some?
      ensures ok ==> returned == None && thrown == throwable
      ensures !ok ==> unchanged(this)
    {
      if throwable.None? { return false; }
      returned := None;
      thrown := throwable;
      return true;
    }

    /** Run a hook: the setter calls that it makes on finding the registers as they are. */
    method RunHook(hook: Hook) returns (calls: seq<SetterCall>)
      modifies this
      ensures calls == hook(old(View()))
      ensures View() == if Settings(calls) == [] then old(View()) else Standing(Settings(calls))
    {
      calls := hook(Regs(returned, thrown));
      HookSetsLast(View(), calls);
      var i := 0;
      while i < |calls|
        invariant 0 <= i <= |calls|
        invariant ApplyAll(View(), calls[i..]) == ApplyAll(old(View()), calls)
      {
        var ok := true;
        match calls[i] {
          case SetReturned(result, _) => ok := SetReturned(result);
          case SetThrown(throwable, _) => ok := SetThrown(throwable);
        }
        assert calls[i..][1..] == calls[i + 1..];
        if !ok && !calls[i].catches { return; }
        i := i + 1;
      }
    }
  }

  lemma {:induction false} StillBefores(patches: seq<Patch>, trace: seq<Event>, e: Event, n: nat)
    requires n <= |patches| && n <= |trace| && BeforesRun(patches, trace, n)
    ensures BeforesRun(patches, trace + [e], n)
  {
    hide SettingsOf, Standing;
    forall k | 0 <= k < n
      ensures Heard(trace + [e], k, patches[k].before)
    {
      assert Heard(trace, k, patches[k].before);
      assert (trace + [e])[..k] == trace[..k];
    }
  }

  lemma {:induction false} MoreBefores(patches: seq<Patch>, trace: seq<Event>, e: Event)
    requires |trace| < |patches| && BeforesRun(patches, trace, |trace|)
    requires e.Before? && e.i == |trace| && e.found == Standing(SettingsOf(trace))
    requires e.calls == patches[|trace|].before(e.found)
    ensures BeforesRun(patches, trace + [e], |trace| + 1)
  {
    hide SettingsOf, Standing;
    StillBefores(patches, trace, e, |trace|);
    assert (trace + [e])[..|trace|] == trace;
  }

  lemma {:induction false} MoreAfters(patches: seq<Patch>, trace: seq<Event>, start: nat, e: Event)
    requires start <= |trace| < start + |patches| && AftersRun(patches, trace, start)
    requires e.After? && e.i == start + |patches| - 1 - |trace| && e.found == Standing(SettingsOf(trace))
    requires e.calls == patches[e.i].after(e.found)
    ensures AftersRun(patches, trace + [e], start)
  {
    hide SettingsOf, Standing;
    var more := trace + [e];
    forall k | start <= k < |more|
      ensures var i := start + |patches| - 1 - k;
              more[k].After? && more[k].i == i && Heard(more, k, patches[i].after)
    {
      if k < |trace| { assert Heard(trace, k, patches[start + |patches| - 1 - k].after); }
      assert more[..k] == trace[..k];
      assert trace[..|trace|] == trace;
    }
  }

  lemma {:induction false} ExtendedBy(trace: seq<Event>, e: Event, after: Regs)
    requires !e.Original?
    requires after == if Settings(e.calls) == [] then Standing(SettingsOf(trace)) else Standing(Settings(e.calls))
    ensures after == Standing(SettingsOf(trace + [e]))
  {
    SettingsStep(trace, e);
    StandingJoin(SettingsOf(trace), Settings(e.calls));
  }

  /** The first loop. */
  method RunBefores(snapshot: array<Patch>, registers: Registers) returns (trace: seq<Event>)
    requires registers.View() == Unset
    modifies registers
    ensures |trace| == snapshot.Length && BeforesRun(snapshot[..], trace, snapshot.Length)
    ensures registers.View() == Standing(SettingsOf(trace))
  {
    ghost var patches := snapshot[..];
    trace := [];
    var index := 0;
    while index < snapshot.Length
      invariant 0 <= index <= snapshot.Length && |trace| == index && BeforesRun(patches, trace, index)
      invariant registers.View() == Standing(SettingsOf(trace))
    {
      hide SettingsOf, Standing, Settings, BeforesRun;
      var found := Regs(registers.returned, registers.thrown);
      var calls := registers.RunHook(snapshot[index].before);
      var e := Before(index, found, calls);
      MoreBefores(patches, trace, e);
      ExtendedBy(trace, e, registers.View());
      trace := trace + [e];
      index := index + 1;
    }
  }

  /** The last loop, after the events `front`. */
  method RunAfters(snapshot: array<Patch>, registers: Registers, front: seq<Event>) returns (trace: seq<Event>)
    requires registers.View() == Standing(SettingsOf(front))
    modifies registers
    ensures |trace| == |front| + snapshot.Length && trace[..|front|] == front
    ensures AftersRun(snapshot[..], trace, |front|) && registers.View() == Standing(SettingsOf(trace))
  {
    ghost var patches := snapshot[..];
    trace := front;
    var index := snapshot.Length;
    while index > 0
      invariant 0 <= index <= snapshot.Length && |trace| == |front| + snapshot.Length - index
      invariant trace[..|front|] == front && AftersRun(patches, trace, |front|)
      invariant registers.View() == Standing(SettingsOf(trace))
    {
      hide SettingsOf, Standing, Settings, AftersRun;
      index := index - 1;
      var found := Regs(registers.returned, registers.thrown);
      var calls := registers.RunHook(snapshot[index].after);
      var e := After(index, found, calls);
      MoreAfters(patches, trace, |front|, e);
      ExtendedBy(trace, e, registers.View());
      trace := trace + [e];
    }
  }

  lemma {:induction false} SamePrefixRuns(patches: seq<Patch>, trace: seq<Event>, longer: seq<Event>, n: nat)
    requires n == |patches| <= |trace| <= |longer| && longer[..|trace|] == trace && BeforesRun(patches, trace, n)
    ensures BeforesRun(patches, longer, n) && longer[..n] == trace[..n]
  {
    hide SettingsOf, Standing;
    forall k | 0 <= k < n
      ensures longer[k] == trace[k] && Heard(longer, k, patches[k].before)
    {
      assert longer[..|trace|][k] == trace[k];
      assert longer[..k] == longer[..|trace|][..k] == trace[..k];
      assert Heard(trace, k, patches[k].before);
    }
  }

  lemma {:induction false} OutcomeOfLast(settings: seq<Outcome>)
    requires settings != []
    ensures var regs, last := Standing(settings), settings[|settings| - 1];
            && WithOriginal(Unset, last) == regs
            && (regs.thrown.Some? || regs.returned.Some?)
            && last == if regs.thrown.Some? then Throw(regs.thrown.value) else Return(regs.returned.value)
  {}

  /** `replaceHookedMember` on a snapshot, an array that nobody writes. `trace` lists what happens; the caller sees
      what was set last. */
  method ReplaceHookedMember(snapshot: array<Patch>, original: Outcome) returns (r: Outcome, trace: seq<Event>)
    ensures snapshot.Length == 0 ==> r == original && trace == [Original(original)]
    ensures snapshot.Length > 0 ==> IsRun(snapshot[..], original, trace)
    ensures SettingsOf(trace) != [] && r == SettingsOf(trace)[|SettingsOf(trace)| - 1]
    ensures snapshot.Length > 0 ==> FinalRegs(snapshot[..], original) == WithOriginal(Unset, r)
  {
    hide SettingsOf, Standing, BeforesRun, AftersRun, FinalRegs, WithOriginal;
    if snapshot.Length <= 0 {
      OnlyOriginal(original);
      return original, [Original(original)];
    }
    ghost var patches := snapshot[..];
    var registers := new Registers();
    trace := RunBefores(snapshot, registers);
    ghost var befores := trace;
    StandingSet(SettingsOf(befores));
    assert befores[..|patches|] == befores;
    if registers.returned.None? && registers.thrown.None? {
      match original {
        case Return(v) => registers.returned := Some(v);
        case Throw(t) => registers.thrown := Some(t);
      }
      SettingsStep(trace, Original(original));
      assert [] + [original] == [original];
      OriginalSets([], original);
      WithOriginalOf(original);
      trace := trace + [Original(original)];
      SamePrefixRuns(patches, befores, trace, |patches|);
    }
    var front := trace;
    trace := RunAfters(snapshot, registers, front);
    SamePrefixRuns(patches, front, trace, |patches|);
    assert |front| > |patches| ==> trace[|patches|] == trace[..|front|][|patches|];
    assert IsRun(patches, original, trace);
    RunEndsWithLast(patches, original, trace);
    OutcomeOfLast(SettingsOf(trace));
    if registers.thrown.Some? { return Throw(registers.thrown.value), trace; }
    return Return(registers.returned.value), trace;
  }

  lemma {:induction false} OnlyOriginal(original: Outcome)
    ensures SettingsOf([Original(original)]) == [original]
  {
    assert [Original(original)][..0] == [];
  }

  lemma {:induction false} WithOriginalOf(original: Outcome)
    ensures Standing([original]) ==
              match original case Return(v) => Regs(Some(v), None) case Throw(t) => Regs(None, Some(t))
  {}
}
