/**
 The call logger: a patch that prints a line when a hooked call is entered and one when it is left, indented by depth.
 Code that runs while a line is made may itself make hooked calls or throw.
 */
module Logcat {
  import opened Common

  /** A hooked call: its class, the hooked calls made and the text found while its first line is made, the hooked calls
      made between its two lines (by the original and by the hooks of patches behind the logger), and the same for its
      last line.  Patches in front of the logger make hooked calls before its first line and after its last. */
  datatype Call = Call(
    name: string,
    early: seq<Call>,
    entryCalls: seq<Call>, entryText: string, entryThrows: bool,
    body: seq<Call>,
    exitCalls: seq<Call>, exitText: string, exitThrows: bool,
    late: seq<Call>)

  // ----- what is to be printed -----

  datatype Event = Entered(call: Call, depth: int) | Left(call: Call, depth: int)

  /** The events of a call that is made at a depth. */
  function CallEvents(c: Call, depth: int): seq<Event>
    decreases c, 1
  {
    Events(c.early, depth) + OwnEvents(c, depth) + Events(c.late, depth)
  }

  /** From the entry of the call to its end. */
  function OwnEvents(c: Call, depth: int): seq<Event>
    decreases c, 0
  {
    [Entered(c, depth)] + Events(c.body, depth + 1) + [Left(c, depth)]
  }

  function Events(calls: seq<Call>, depth: int): seq<Event>
    decreases calls
  {
    if calls == [] then []
    else
      var n := |calls| - 1;
      Events(calls[..n], depth) + CallEvents(calls[n], depth)
  }

  function Indent(depth: int): (r: string)
    ensures |r| == if depth <= 0 then 0 else 2 * depth
    decreases if depth <= 0 then 0 else depth
  {
    if depth <= 0 then "" else Indent(depth - 1) + "  "
  }

  /** What stands for a class name that was just printed. */
  function Dots(length: nat): string { seq(length, i => if i < 3 then '.' else ' ') }

  /** Line ends become backslashes. */
  function OneLine(text: string): string {
    seq(|text|, i requires 0 <= i < |text| => if text[i] == '\n' then '\\' else text[i])
  }

  /** The line for an event, or none if making it throws; `record` is the class named by the event before, if that was
      the entry of a call. */
  function LineFor(e: Event, record: Option<string>): seq<string> {
    match e
    case Entered(c, depth) =>
      if c.entryThrows then []
      else [OneLine(Indent(depth) + (if record == Some(c.name) then Dots(|c.name|) else c.name) + c.entryText)]
    case Left(c, depth) => if c.exitThrows then [] else [OneLine(Indent(depth) + c.exitText)]
  }

  function RecordAfter(events: seq<Event>, record: Option<string>): Option<string> {
    if events == [] then record
    else if events[|events| - 1].Entered? then Some(events[|events| - 1].call.name)
    else None
  }

  function Lines(events: seq<Event>, record: Option<string>): seq<string> {
    if events == [] then []
    else
      var n := |events| - 1;
      Lines(events[..n], record) + LineFor(events[n], RecordAfter(events[..n], record))
  }

  lemma {:induction false} RecordJoin(a: seq<Event>, b: seq<Event>, record: Option<string>)
    ensures RecordAfter(a + b, record) == RecordAfter(b, RecordAfter(a, record))
  {
    if b == [] { assert a + b == a; }
  }

  lemma {:induction false} LinesJoin(a: seq<Event>, b: seq<Event>, record: Option<string>)
    ensures Lines(a + b, record) == Lines(a, record) + Lines(b, RecordAfter(a, record))
  {
    hide LineFor, RecordAfter;
    if b == [] {
      assert a + b == a;
    } else {
      var n := |b| - 1;
      LinesJoin(a, b[..n], record);
      RecordJoin(a, b[..n], record);
      assert (a + b)[..|a + b| - 1] == a + b[..n];
    }
  }

  // ----- the logger -----

  class Logger {
    var ignores: Option<bool>
    var depths: Option<int>
    var records: Option<string>
    var lines: seq<string>

    predicate Ignoring()
      reads this
    {
      ignores == Some(true)
    }

    function Depth(): int
      reads this
    {
      if depths.Some? then depths.value else -1
    }

    constructor ()
      ensures !Ignoring() && Depth() == -1 && records == None && lines == []
    {
      ignores, depths, records, lines := None, None, None, [];
    }

    method BeforeExecuted(c: Call) returns (thrown: bool)
      modifies this
      ensures old(Ignoring()) ==> unchanged(this)
      ensures !old(Ignoring()) ==>
                && !Ignoring() && depths == Some(old(Depth()) + 1) && records == Some(c.name)
                && lines == old(lines) + LineFor(Entered(c, old(Depth()) + 1), old(records))
      decreases c, 0
    {
      if ignores == Some(true) { return false; }
      ignores := Some(true);
      var depth := Depth() + 1;
      depths := Some(depth);
      var text := MakeIndent(depth);
      if records != Some(c.name) {
        records := Some(c.name);
        text := text + c.name;
      } else {
        for i := 0 to |c.name|
          invariant text == Indent(depth) + Dots(i)
        {
          text := text + if i < 3 then "." else " ";
          assert Dots(i + 1) == Dots(i) + if i < 3 then "." else " ";
        }
      }
      RunAll(c.entryCalls);
      if !c.entryThrows { lines := lines + [OneLine(text + c.entryText)]; }
      ignores := Some(false);
      return c.entryThrows;
    }

    method AfterExecuted(c: Call) returns (thrown: bool)
      modifies this
      ensures old(Ignoring()) ==> unchanged(this)
      ensures !old(Ignoring()) ==> !Ignoring() && records == None
      ensures !old(Ignoring()) && old(depths).None? ==> thrown && depths.None? && lines == old(lines)
      ensures !old(Ignoring()) && old(depths).Some? ==>
                && depths == Some(old(Depth()) - 1)
                && lines == old(lines) + LineFor(Left(c, old(Depth())), old(records))
      decreases c, 0
    {
      if ignores == Some(true) { return false; }
      ignores := Some(true);
      records := None;
      if depths.None? {
        ignores := Some(false);
        return true;
      }
      var depth := depths.value;
      depths := Some(depth - 1);
      var text := MakeIndent(depth);
      RunAll(c.exitCalls);
      if !c.exitThrows { lines := lines + [OneLine(text + c.exitText)]; }
      ignores := Some(false);
      return c.exitThrows;
    }

    static method MakeIndent(depth: int) returns (text: string)
      ensures text == Indent(depth)
    {
      text := "";
      var k := 0;
      while k < depth
        invariant 0 <= k && (k <= depth || k == 0) && text == Indent(k)
      {
        text := text + "  ";
        k := k + 1;
      }
    }

    /** The kernel around a call; what the logger throws it only reports. */
    method ReplaceHookedMember(c: Call)
      modifies this
      ensures old(Ignoring()) ==> unchanged(this)
      ensures Ignoring() == old(Ignoring()) && Depth() == old(Depth()) && (old(depths).Some? ==> depths.Some?)
      ensures !old(Ignoring()) ==>
                && lines == old(lines) + Lines(CallEvents(c, old(Depth()) + 1), old(records))
                && records == RecordAfter(CallEvents(c, old(Depth()) + 1), old(records))
      decreases c, 1
    {
      hide LineFor, Lines, Events, CallEvents, OwnEvents, RecordAfter;
      CallLines(c, Depth() + 1, records);
      RunAll(c.early);
      OwnLines(c, Depth() + 1, records);
      var _ := BeforeExecuted(c);
      RunAll(c.body);
      var _ := AfterExecuted(c);
      RunAll(c.late);
    }

    /** Hooked calls one after another. */
    method RunAll(calls: seq<Call>)
      modifies this
      ensures old(Ignoring()) ==> unchanged(this)
      ensures Ignoring() == old(Ignoring()) && Depth() == old(Depth()) && (old(depths).Some? ==> depths.Some?)
      ensures !old(Ignoring()) ==>
                && lines == old(lines) + Lines(Events(calls, old(Depth()) + 1), old(records))
                && records == RecordAfter(Events(calls, old(Depth()) + 1), old(records))
      decreases calls
    {
      hide LineFor, Lines, Events, CallEvents, RecordAfter;
      NothingYet(Depth() + 1, records);
      assert calls[..0] == [];
      for i := 0 to |calls|
        invariant old(Ignoring()) ==> unchanged(this)
        invariant Ignoring() == old(Ignoring()) && Depth() == old(Depth()) && (old(depths).Some? ==> depths.Some?)
        invariant !old(Ignoring()) ==>
                    && lines == old(lines) + Lines(Events(calls[..i], old(Depth()) + 1), old(records))
                    && records == RecordAfter(Events(calls[..i], old(Depth()) + 1), old(records))
      {
        ReplaceHookedMember(calls[i]);
        EventsGrow(calls, i, old(Depth()) + 1, old(records));
      }
      assert calls[..|calls|] == calls;
    }
  }

  /** The lines of a call: those of the patches in front of the logger, its own, and theirs again. */
  lemma {:induction false} CallLines(c: Call, depth: int, record: Option<string>)
    ensures var early, own, late := Events(c.early, depth), OwnEvents(c, depth), Events(c.late, depth);
            var between := RecordAfter(early, record);
            && Lines(CallEvents(c, depth), record)
               == Lines(early, record) + Lines(own, between) + Lines(late, RecordAfter(own, between))
            && RecordAfter(CallEvents(c, depth), record) == RecordAfter(late, RecordAfter(own, between))
  {
    hide Lines, RecordAfter, OwnEvents, Events;
    var early, own, late := Events(c.early, depth), OwnEvents(c, depth), Events(c.late, depth);
    LinesJoin(early, own, record);
    RecordJoin(early, own, record);
    LinesJoin(early + own, late, record);
    RecordJoin(early + own, late, record);
  }

  lemma {:induction false} OwnLines(c: Call, depth: int, record: Option<string>)
    ensures var inside := Events(c.body, depth + 1);
            && Lines(OwnEvents(c, depth), record)
               == LineFor(Entered(c, depth), record) + Lines(inside, Some(c.name))
                  + LineFor(Left(c, depth), RecordAfter(inside, Some(c.name)))
            && RecordAfter(OwnEvents(c, depth), record) == None
  {
    var inside := Events(c.body, depth + 1);
    LinesOne(Entered(c, depth), record);
    LinesOne(Left(c, depth), RecordAfter(inside, Some(c.name)));
    LinesJoin([Entered(c, depth)], inside, record);
    RecordJoin([Entered(c, depth)], inside, record);
    LinesJoin([Entered(c, depth)] + inside, [Left(c, depth)], record);
    RecordJoin([Entered(c, depth)] + inside, [Left(c, depth)], record);
    hide LineFor, Lines;
  }

  lemma {:induction false} NothingYet(depth: int, record: Option<string>)
    ensures Lines(Events([], depth), record) == [] && RecordAfter(Events([], depth), record) == record
  {}

  lemma {:induction false} LinesOne(e: Event, record: Option<string>)
    ensures Lines([e], record) == LineFor(e, record)
  {
    assert [e][..0] == [];
  }

  lemma {:induction false} EventsGrow(calls: seq<Call>, i: nat, depth: int, record: Option<string>)
    requires i < |calls|
    ensures Lines(Events(calls[..i + 1], depth), record)
            == Lines(Events(calls[..i], depth), record)
               + Lines(CallEvents(calls[i], depth), RecordAfter(Events(calls[..i], depth), record))
    ensures RecordAfter(Events(calls[..i + 1], depth), record)
            == RecordAfter(CallEvents(calls[i], depth), RecordAfter(Events(calls[..i], depth), record))
  {
    assert calls[..i + 1][..i] == calls[..i];
    hide Lines, CallEvents, RecordAfter;
    LinesJoin(Events(calls[..i], depth), CallEvents(calls[i], depth), record);
    RecordJoin(Events(calls[..i], depth), CallEvents(calls[i], depth), record);
  }

  // ----- depth is the number of enclosing calls -----

  /** The calls entered and not yet left. */
  function Open(events: seq<Event>): int {
    if events == [] then 0
    else
      var n := |events| - 1;
      Open(events[..n]) + if events[n].Entered? then 1 else -1
  }

  lemma {:induction false} OpenJoin(a: seq<Event>, b: seq<Event>)
    ensures Open(a + b) == Open(a) + Open(b)
  {
    if b == [] {
      assert a + b == a;
    } else {
      OpenJoin(a, b[..|b| - 1]);
      assert (a + b)[..|a + b| - 1] == a + b[..|b| - 1];
    }
  }

  /** The events are at the depths that counting gives, starting at `depth`. */
  ghost predicate Counted(events: seq<Event>, depth: int) {
    forall k :: 0 <= k < |events| ==>
      events[k].depth == depth + Open(events[..k]) - if events[k].Entered? then 0 else 1
  }

  lemma {:induction false} CountedJoin(a: seq<Event>, b: seq<Event>, depth: int)
    requires Counted(a, depth) && Counted(b, depth + Open(a))
    ensures Counted(a + b, depth)
  {
    forall k | 0 <= k < |a + b|
      ensures (a + b)[k].depth == depth + Open((a + b)[..k]) - if (a + b)[k].Entered? then 0 else 1
    {
      if k < |a| {
        assert (a + b)[..k] == a[..k];
      } else {
        assert (a + b)[..k] == a + b[..k - |a|];
        OpenJoin(a, b[..k - |a|]);
      }
    }
  }

  lemma {:induction false} CountedOne(e: Event)
    ensures Open([e]) == if e.Entered? then 1 else -1
    ensures Counted([e], e.depth + if e.Entered? then 0 else 1)
  {
    assert [e][..0] == [];
    assert Open([e]) == Open([e][..0]) + if e.Entered? then 1 else -1;
  }

  lemma {:induction false} CallCounted(c: Call, depth: int)
    ensures Counted(CallEvents(c, depth), depth) && Open(CallEvents(c, depth)) == 0
    decreases c, 1
  {
    hide Counted, Open, OwnEvents, Events;
    var early, own, late := Events(c.early, depth), OwnEvents(c, depth), Events(c.late, depth);
    EventsCounted(c.early, depth);
    OwnCounted(c, depth);
    EventsCounted(c.late, depth);
    OpenJoin(early, own);
    OpenJoin(early + own, late);
    CountedJoin(early, own, depth);
    CountedJoin(early + own, late, depth);
  }

  lemma {:induction false} OwnCounted(c: Call, depth: int)
    ensures Counted(OwnEvents(c, depth), depth) && Open(OwnEvents(c, depth)) == 0
    decreases c, 0
  {
    var first, inside, last := [Entered(c, depth)], Events(c.body, depth + 1), [Left(c, depth)];
    EventsCounted(c.body, depth + 1);
    CountedOne(first[0]);
    CountedOne(last[0]);
    OpenJoin(first, inside);
    OpenJoin(first + inside, last);
    hide Counted, Open;
    CountedJoin(first, inside, depth);
    CountedJoin(first + inside, last, depth);
  }

  /** Every event's depth is the start plus the number of calls around it, and every call that is entered is left. */
  lemma {:induction false} EventsCounted(calls: seq<Call>, depth: int)
    ensures Counted(Events(calls, depth), depth) && Open(Events(calls, depth)) == 0
    decreases calls
  {
    if calls != [] {
      var n := |calls| - 1;
      EventsCounted(calls[..n], depth);
      CallCounted(calls[n], depth);
      OpenJoin(Events(calls[..n], depth), CallEvents(calls[n], depth));
      CountedJoin(Events(calls[..n], depth), CallEvents(calls[n], depth), depth);
    }
  }

  // ----- quiet calls -----

  function CountCalls(calls: seq<Call>): nat
    decreases calls
  {
    if calls == [] then 0
    else
      var n := |calls| - 1;
      CountCalls(calls[..n]) + CountCalls(calls[n].early) + 1 + CountCalls(calls[n].body) + CountCalls(calls[n].late)
  }

  ghost predicate NoThrow(calls: seq<Call>)
    decreases calls
  {
    forall i :: 0 <= i < |calls| ==>
      && !calls[i].entryThrows && !calls[i].exitThrows
      && NoThrow(calls[i].early) && NoThrow(calls[i].body) && NoThrow(calls[i].late)
  }

  /** If no line throws, each call that is not made by the logger itself prints two lines. */
  lemma {:induction false} TwoLinesEach(calls: seq<Call>, depth: int, record: Option<string>)
    requires NoThrow(calls)
    ensures |Lines(Events(calls, depth), record)| == 2 * CountCalls(calls)
    decreases calls
  {
    if calls == [] {
      NothingYet(depth, record);
    } else {
      var n := |calls| - 1;
      var c, between := calls[n], RecordAfter(Events(calls[..n], depth), record);
      assert NoThrow(calls[..n]) && NoThrow(c.early) && NoThrow(c.body) && NoThrow(c.late);
      assert !c.entryThrows && !c.exitThrows;
      hide Lines, RecordAfter, CallEvents, OwnEvents, Events, NoThrow;
      assert calls[..n + 1] == calls;
      EventsGrow(calls, n, depth, record);
      CallLines(c, depth, between);
      TwoLinesEach(calls[..n], depth, record);
      TwoLinesEach(c.early, depth, between);
      var entered := RecordAfter(Events(c.early, depth), between);
      OwnLines(c, depth, entered);
      TwoLinesEach(c.body, depth + 1, Some(c.name));
      TwoLinesEach(c.late, depth, None);
    }
  }

  // ----- each line, character by character -----

  /** Making the event's line throws, so it prints none. */
  predicate Unprinted(e: Event) { if e.Entered? then e.call.entryThrows else e.call.exitThrows }

  function PrintedCount(events: seq<Event>): nat {
    if events == [] then 0
    else
      var n := |events| - 1;
      PrintedCount(events[..n]) + if Unprinted(events[n]) then 0 else 1
  }

  function Clean(ch: char): char { if ch == '\n' then '\\' else ch }

  /** `2 * n` spaces, the class name or as many dots and spaces, the rest of the entry line. */
  ghost predicate EntryLine(line: string, n: nat, dotted: bool, c: Call) {
    && |line| == 2 * n + |c.name| + |c.entryText|
    && (forall i :: 0 <= i < 2 * n ==> line[i] == ' ')
    && (forall i :: 0 <= i < |c.name| ==>
          line[2 * n + i] == if !dotted then Clean(c.name[i]) else if i < 3 then '.' else ' ')
    && forall i :: 0 <= i < |c.entryText| ==> line[2 * n + |c.name| + i] == Clean(c.entryText[i])
  }

  /** `2 * n` spaces, the exit line. */
  ghost predicate ExitLine(line: string, n: nat, c: Call) {
    && |line| == 2 * n + |c.exitText|
    && (forall i :: 0 <= i < 2 * n ==> line[i] == ' ')
    && forall i :: 0 <= i < |c.exitText| ==> line[2 * n + i] == Clean(c.exitText[i])
  }

  /** The event before number `k` was the entry of a call of the same class; before the first, `record` counts. */
  predicate AfterSameClass(events: seq<Event>, k: nat, record: Option<string>)
    requires k < |events|
  {
    if k == 0 then record == Some(events[k].call.name)
    else events[k - 1].Entered? && events[k - 1].call.name == events[k].call.name
  }

  ghost predicate LineOf(line: string, events: seq<Event>, k: nat, n: nat, record: Option<string>)
    requires k < |events|
  {
    if events[k].Entered? then EntryLine(line, n, AfterSameClass(events, k, record), events[k].call)
    else ExitLine(line, n, events[k].call)
  }

  lemma {:induction false} IndentIsSpaces(depth: nat)
    ensures forall i :: 0 <= i < 2 * depth ==> Indent(depth)[i] == ' '
  {
    if depth > 0 { IndentIsSpaces(depth - 1); }
  }

  lemma {:induction false} CleanedJoin(indent: string, head: string, text: string)
    ensures var line := OneLine(indent + head + text);
            && |line| == |indent| + |head| + |text|
            && (forall i :: 0 <= i < |indent| ==> line[i] == Clean(indent[i]))
            && (forall i :: 0 <= i < |head| ==> line[|indent| + i] == Clean(head[i]))
            && (forall i :: 0 <= i < |text| ==> line[|indent| + |head| + i] == Clean(text[i]))
  {
    var all := indent + head + text;
    assert forall i :: 0 <= i < |indent| ==> all[i] == indent[i];
    assert forall i :: 0 <= i < |head| ==> all[|indent| + i] == head[i];
    assert forall i :: 0 <= i < |text| ==> all[|indent| + |head| + i] == text[i];
  }

  lemma {:induction false} EntryLineMade(c: Call, depth: nat, record: Option<string>)
    requires !c.entryThrows
    ensures |LineFor(Entered(c, depth), record)| == 1
    ensures EntryLine(LineFor(Entered(c, depth), record)[0], depth, record == Some(c.name), c)
  {
    IndentIsSpaces(depth);
    CleanedJoin(Indent(depth), if record == Some(c.name) then Dots(|c.name|) else c.name, c.entryText);
    hide OneLine, Indent;
  }

  lemma {:induction false} ExitLineMade(c: Call, depth: nat, record: Option<string>)
    requires !c.exitThrows
    ensures |LineFor(Left(c, depth), record)| == 1 && ExitLine(LineFor(Left(c, depth), record)[0], depth, c)
  {
    IndentIsSpaces(depth);
    CleanedJoin(Indent(depth), "", c.exitText);
    assert Indent(depth) + "" == Indent(depth);
    hide OneLine, Indent;
  }

  lemma {:induction false} LineMade(events: seq<Event>, k: nat, record: Option<string>)
    requires k < |events| && !Unprinted(events[k]) && events[k].depth >= 0
    ensures var made := LineFor(events[k], RecordAfter(events[..k], record));
            |made| == 1 && LineOf(made[0], events, k, events[k].depth, record)
  {
    hide LineFor, EntryLine, ExitLine;
    var before := RecordAfter(events[..k], record);
    match events[k]
    case Entered(c, depth) => EntryLineMade(c, depth, before);
    case Left(c, depth) => ExitLineMade(c, depth, before);
  }

  lemma {:induction false} LineCount(events: seq<Event>, record: Option<string>)
    ensures |Lines(events, record)| == PrintedCount(events)
  {
    hide LineFor, RecordAfter, Unprinted;
    if events != [] {
      var n := |events| - 1;
      LineCount(events[..n], record);
      OneLineOrNone(events[n], RecordAfter(events[..n], record));
    }
  }

  lemma {:induction false} OneLineOrNone(e: Event, record: Option<string>)
    ensures |LineFor(e, record)| == if Unprinted(e) then 0 else 1
  {
    hide OneLine, Indent, Dots;
  }

  lemma {:induction false} LinesAround(events: seq<Event>, k: nat, record: Option<string>)
    requires k < |events|
    ensures Lines(events[..k], record) + LineFor(events[k], RecordAfter(events[..k], record)) <= Lines(events, record)
  {
    hide LineFor, RecordAfter;
    assert events[..k + 1][..k] == events[..k];
    assert events == events[..k + 1] + events[k + 1..];
    LinesJoin(events[..k + 1], events[k + 1..], record);
  }

  ghost predicate Deep(events: seq<Event>, depth: int) {
    forall k :: 0 <= k < |events| ==> events[k].depth >= depth
  }

  lemma {:induction false} EventsAreDeep(calls: seq<Call>, depth: int)
    ensures Deep(Events(calls, depth), depth)
    decreases calls
  {
    if calls != [] {
      var n := |calls| - 1;
      EventsAreDeep(calls[..n], depth);
      EventsAreDeep(calls[n].early, depth);
      EventsAreDeep(calls[n].body, depth + 1);
      EventsAreDeep(calls[n].late, depth);
      assert Deep(OwnEvents(calls[n], depth), depth);
      assert Deep(CallEvents(calls[n], depth), depth);
    }
  }

  /** The calls entered and not yet left around event `k`, not counting its own. */
  function Around(events: seq<Event>, k: nat): int
    requires k < |events|
  {
    Open(events[..k]) - if events[k].Entered? then 0 else 1
  }

  lemma {:induction false} DepthIsAround(calls: seq<Call>, depth: int, k: nat)
    requires k < |Events(calls, depth)|
    ensures depth <= Events(calls, depth)[k].depth == depth + Around(Events(calls, depth), k)
  {
    hide Events, Open;
    EventsCounted(calls, depth);
    EventsAreDeep(calls, depth);
  }

  /** Every line printed over a forest of calls, inside `depth` calls: line and event go together in order, the line is
      indented by two spaces for each call around it, and has dots for the class name exactly after an entry of the same
      class. */
  lemma {:induction false} ForestLines(calls: seq<Call>, depth: nat, record: Option<string>, k: nat)
    requires k < |Events(calls, depth)| && !Unprinted(Events(calls, depth)[k])
    ensures var events, lines := Events(calls, depth), Lines(Events(calls, depth), record);
            var j := PrintedCount(events[..k]);
            && |lines| == PrintedCount(events) && j < |lines| && 0 <= depth + Around(events, k)
            && LineOf(lines[j], events, k, depth + Around(events, k), record)
  {
    hide Lines, LineFor, LineOf, Events, PrintedCount, RecordAfter, Around, Unprinted;
    var events := Events(calls, depth);
    DepthIsAround(calls, depth, k);
    LineCount(events, record);
    LineCount(events[..k], record);
    LinesAround(events, k, record);
    LineMade(events, k, record);
  }
}
