/**
 The log formatter: the list of formats, and a recursive printer that guards against cycles with a stack of the objects
 being printed.  What a format makes of an object, object equality, class names and `String.format` are parameters.
 */
module FormatEntry {
  import opened Common

  datatype Obj = Null | Ref(id: nat)

  datatype Format = ObjectB | IterableB | MapB | MapA | IterableA | ObjectA | Custom(id: nat)

  /** What a format makes of an object: nothing, an exception, or a template and the objects to fill it with. */
  datatype Formatted = Declines | Throws | Gives(template: Option<string>, parts: seq<Obj>)

  /** A string, which may be null, or an exception. */
  datatype Printed = Text(text: Option<string>) | Thrown

  datatype World = World(
    format: (Format, Obj) -> Formatted,
    equals: (Obj, Obj) -> bool,
    name: Obj -> string,
    fill: (Option<string>, seq<Option<string>>) -> Printed)

  // ----- the list of formats -----

  function RemoveFirst(list: seq<Format>, f: Format): (r: seq<Format>)
    ensures f !in list ==> r == list
    ensures forall g :: g in r ==> g in list
  {
    if list == [] then [] else if list[0] == f then list[1..] else [list[0]] + RemoveFirst(list[1..], f)
  }

  ghost predicate Distinct(list: seq<Format>) { forall i, j :: 0 <= i < j < |list| ==> list[i] != list[j] }

  /** Of a list without repetition, exactly that format is removed, and the others keep their order. */
  lemma {:induction false} RemoveFirstRemoves(list: seq<Format>, f: Format)
    requires Distinct(list)
    ensures f !in RemoveFirst(list, f) && Distinct(RemoveFirst(list, f))
  {
    if list != [] {
      if list[0] != f {
        RemoveFirstRemoves(list[1..], f);
        assert list[0] !in list[1..];
      }
    }
  }

  lemma {:induction false} RemoveFirstAt(list: seq<Format>, i: nat)
    requires Distinct(list) && i < |list|
    ensures RemoveFirst(list, list[i]) == list[..i] + list[i + 1..]
  {
    if i > 0 {
      assert list[0] != list[i] && Distinct(list[1..]);
      hide Distinct;
      RemoveFirstAt(list[1..], i - 1);
      assert list[..i] == [list[0]] + list[1..][..i - 1];
      assert list[1..][i - 1 + 1..] == list[i + 1..];
    }
  }

  /** The formats in the order they are asked. */
  function Flushed(list: seq<Format>): seq<Format> {
    [ObjectB, IterableB, MapB] + list + [MapA, IterableA, ObjectA]
  }

  // ----- one object -----

  /** What the first format that does not decline makes of the object. */
  function Chosen(w: World, formats: seq<Format>, o: Obj): Formatted {
    if formats == [] then Declines
    else if w.format(formats[0], o) != Declines then w.format(formats[0], o)
    else Chosen(w, formats[1..], o)
  }

  lemma {:induction false} ChosenIsFirst(w: World, formats: seq<Format>, o: Obj, i: nat)
    requires i <= |formats| && forall j :: 0 <= j < i ==> w.format(formats[j], o).Declines?
    ensures Chosen(w, formats, o) == Chosen(w, formats[i..], o)
  {
    if i > 0 {
      ChosenIsFirst(w, formats[1..], o, i - 1);
      assert formats[1..][i - 1..] == formats[i..];
    } else {
      assert formats[0..] == formats;
    }
  }

  /** A format that was just added decides about an object that it does not decline and the three leading formats do. */
  lemma {:induction false} AddedDecides(w: World, list: seq<Format>, f: Format, o: Obj)
    requires !w.format(f, o).Declines?
    requires w.format(ObjectB, o).Declines? && w.format(IterableB, o).Declines? && w.format(MapB, o).Declines?
    ensures Chosen(w, Flushed([f] + RemoveFirst(list, f)), o) == w.format(f, o)
  {
    var formats := Flushed([f] + RemoveFirst(list, f));
    assert formats[0] == ObjectB && formats[1] == IterableB && formats[2] == MapB && formats[3] == f;
    ChosenIsFirst(w, formats, o, 3);
  }

  function Parts(w: World, formats: seq<Format>, o: Obj): seq<Obj> {
    var c := Chosen(w, formats, o);
    if c.Gives? then c.parts else []
  }

  predicate OnStack(w: World, stack: seq<Obj>, o: Obj) {
    exists i :: 0 <= i < |stack| && w.equals(o, stack[i])
  }

  /** The mark for an object that is already being printed. */
  function Mark(w: World, o: Obj): string { (if o.Null? then "null" else w.name(o)) + ".this" }

  // ----- the guarded printer -----

  /** The objects refer to each other only, and each is equal to itself. */
  ghost predicate Closed(w: World, formats: seq<Format>, universe: set<Obj>) {
    && (forall o, x :: o in universe && x in Parts(w, formats, o) ==> x in universe)
    && forall o :: w.equals(o, o)
  }

  /** The objects that are not being printed. */
  ghost function Pending(universe: set<Obj>, stack: seq<Obj>): set<Obj> { set o | o in universe && o !in stack }

  lemma {:induction false} PendingShrinks(w: World, universe: set<Obj>, stack: seq<Obj>, o: Obj)
    requires o in universe && !OnStack(w, stack, o) && w.equals(o, o)
    ensures |Pending(universe, stack + [o])| < |Pending(universe, stack)|
  {
    assert o !in stack;
    assert Pending(universe, stack) == Pending(universe, stack + [o]) + {o};
  }

  ghost function Guarded(w: World, formats: seq<Format>, universe: set<Obj>, stack: seq<Obj>, o: Obj): Printed
    requires Closed(w, formats, universe) && o in universe
    decreases |Pending(universe, stack)|, 0
  {
    if OnStack(w, stack, o) then Text(Some(Mark(w, o)))
    else
      match Chosen(w, formats, o)
      case Declines => Text(None)
      case Throws => Thrown
      case Gives(template, parts) =>
        if parts == [] then Text(template)
        else
          PendingShrinks(w, universe, stack, o);
          assert parts == Parts(w, formats, o);
          Filled(w, template, GuardedAll(w, formats, universe, stack + [o], parts))
  }

  /** The parts printed in order, or `None` once one throws. */
  ghost function GuardedAll(w: World, formats: seq<Format>, universe: set<Obj>, stack: seq<Obj>, parts: seq<Obj>)
    : Option<seq<Option<string>>>
    requires Closed(w, formats, universe) && forall x :: x in parts ==> x in universe
    decreases |Pending(universe, stack)|, |parts|
  {
    if parts == [] then Some([])
    else Prepended(Guarded(w, formats, universe, stack, parts[0]), GuardedAll(w, formats, universe, stack, parts[1..]))
  }

  function Prepended(first: Printed, rest: Option<seq<Option<string>>>): Option<seq<Option<string>>> {
    if first.Thrown? || rest.None? then None else Some([first.text] + rest.value)
  }

  function Filled(w: World, template: Option<string>, texts: Option<seq<Option<string>>>): Printed {
    if texts.None? then Thrown else w.fill(template, texts.value)
  }

  // ----- the formatter -----

  class Entry {
    var ignores: Option<seq<Obj>>
    var formatList: seq<Format>
    var formatArray: seq<Format>

    ghost predicate Valid()
      reads this
    {
      Distinct(formatList) && formatArray == Flushed(formatList)
    }

    /** The stack of this thread; it is made when it is first needed. */
    ghost function Stack(): seq<Obj>
      reads this
    {
      if ignores.Some? then ignores.value else []
    }

    constructor ()
      ensures Valid() && formatList == [] && Stack() == []
    {
      ignores, formatList := None, [];
      formatArray := Flushed([]);
    }

    method Add(format: Option<Format>)
      requires Valid()
      modifies this`formatList, this`formatArray
      ensures Valid()
      ensures formatList == if format.None? then old(formatList)
                            else [format.value] + RemoveFirst(old(formatList), format.value)
    {
      if format.None? { return; }
      RemoveFirstRemoves(formatList, format.value);
      formatList := RemoveFirst(formatList, format.value);
      formatList := [format.value] + formatList;
      Flush();
    }

    method Remove(format: Option<Format>)
      requires Valid()
      modifies this`formatList, this`formatArray
      ensures Valid()
      ensures formatList == if format.None? then old(formatList) else RemoveFirst(old(formatList), format.value)
    {
      if format.None? { return; }
      RemoveFirstRemoves(formatList, format.value);
      formatList := RemoveFirst(formatList, format.value);
      Flush();
    }

    method Flush()
      modifies this`formatArray
      ensures formatArray == Flushed(formatList)
    {
      var list := [ObjectB, IterableB, MapB, MapA, IterableA, ObjectA];
      formatArray := list[..3] + formatList + list[3..];
    }

    /** The text of an object; the stack is as before, also after an exception. */
    method ToString(w: World, ghost universe: set<Obj>, o: Obj) returns (r: Printed)
      requires Closed(w, formatArray, universe) && o in universe
      modifies this`ignores
      ensures ignores == Some(old(Stack()))
      ensures r == Guarded(w, formatArray, universe, old(Stack()), o)
      decreases |Pending(universe, Stack())|, 0
    {
      if ignores.None? { ignores := Some([]); }
      ghost var stack := Stack();
      if OnStack(w, ignores.value, o) { return Text(Some((if o.Null? then "null" else w.name(o)) + ".this")); }
      var formats := formatArray;
      for k := 0 to |formats|
        invariant ignores == Some(stack) && formats == formatArray
        invariant Chosen(w, formats, o) == Chosen(w, formats[k..], o)
      {
        var pair := w.format(formats[k], o);
        assert formats[k..][1..] == formats[k + 1..];
        if pair.Declines? { continue; }
        if pair.Throws? { return Thrown; }
        if pair.parts == [] { return Text(pair.template); }
        ignores := Some(ignores.value + [o]);
        PendingShrinks(w, universe, stack, o);
        assert pair.parts == Parts(w, formats, o);
        var args := ToStrings(w, universe, pair.parts);
        ignores := Some(ignores.value[..|ignores.value| - 1]);
        assert ignores.value == stack;
        return if args.None? then Thrown else w.fill(pair.template, args.value);
      }
      return Text(None);
    }

    /** The loop over the parts; `None` once one throws. */
    method ToStrings(w: World, ghost universe: set<Obj>, parts: seq<Obj>) returns (r: Option<seq<Option<string>>>)
      requires Closed(w, formatArray, universe) && forall x :: x in parts ==> x in universe
      requires ignores.Some?
      modifies this`ignores
      ensures ignores == old(ignores)
      ensures r == GuardedAll(w, formatArray, universe, old(Stack()), parts)
      decreases |Pending(universe, Stack())|, 1
    {
      ghost var stack, formats := Stack(), formatArray;
      ghost var all := GuardedAll(w, formats, universe, stack, parts);
      var args := [];
      assert parts[0..] == parts;
      JoinedNothing(all);
      for i := 0 to |parts|
        invariant ignores == Some(stack) && formats == formatArray
        invariant all == Joined(args, GuardedAll(w, formats, universe, stack, parts[i..]))
      {
        hide Closed;
        var arg := ToString(w, universe, parts[i]);
        assert parts[i..][1..] == parts[i + 1..];
        if arg.Thrown? { return None; }
        JoinedMore(args, arg.text, GuardedAll(w, formats, universe, stack, parts[i + 1..]));
        args := args + [arg.text];
      }
      assert parts[|parts|..] == [] && args + [] == args;
      return Some(args);
    }
  }

  function Joined(done: seq<Option<string>>, rest: Option<seq<Option<string>>>): Option<seq<Option<string>>> {
    if rest.None? then None else Some(done + rest.value)
  }

  lemma {:induction false} JoinedNothing(rest: Option<seq<Option<string>>>)
    ensures Joined([], rest) == rest
  {
    if rest.Some? { assert [] + rest.value == rest.value; }
  }

  lemma {:induction false} JoinedMore(
      done: seq<Option<string>>, text: Option<string>, rest: Option<seq<Option<string>>>)
    ensures Joined(done, Prepended(Text(text), rest)) == Joined(done + [text], rest)
  {
    if rest.Some? { assert done + ([text] + rest.value) == (done + [text]) + rest.value; }
  }

  // ----- one object, case by case -----

  /** The first format that does not decline decides; without one nothing does. */
  lemma {:induction false} ChosenExactly(w: World, formats: seq<Format>, o: Obj, i: nat)
    requires i <= |formats| && forall j :: 0 <= j < i ==> w.format(formats[j], o).Declines?
    requires i < |formats| ==> !w.format(formats[i], o).Declines?
    ensures Chosen(w, formats, o) == if i < |formats| then w.format(formats[i], o) else Declines
  {
    ChosenIsFirst(w, formats, o, i);
  }

  /** The order: `ObjectB`, `IterableB`, `MapB`, the added formats as they stand in the list, `MapA`, `IterableA`,
      `ObjectA`; each decides about what all those before it decline. */
  lemma {:induction false} FormatOrder(w: World, list: seq<Format>, o: Obj)
    ensures var n, all := |list|, Flushed(list);
            && |all| == n + 6 && all[0] == ObjectB && all[1] == IterableB && all[2] == MapB
            && (forall i :: 0 <= i < n ==> all[3 + i] == list[i])
            && all[n + 3] == MapA && all[n + 4] == IterableA && all[n + 5] == ObjectA
    ensures !w.format(ObjectB, o).Declines? ==> Chosen(w, Flushed(list), o) == w.format(ObjectB, o)
    ensures (forall i :: 0 <= i < |list| + 5 ==> w.format(Flushed(list)[i], o).Declines?) ==>
              Chosen(w, Flushed(list), o) == w.format(ObjectA, o)
  {
    var all := Flushed(list);
    assert all[0] == ObjectB && all[|list| + 5] == ObjectA;
    if !w.format(ObjectB, o).Declines? { ChosenExactly(w, all, o, 0); }
    if forall i :: 0 <= i < |list| + 5 ==> w.format(all[i], o).Declines? {
      ChosenExactly(w, all, o, if w.format(ObjectA, o).Declines? then |all| else |all| - 1);
    }
  }

  /** An object that equals one on the stack prints its class name and ".this", or "null.this" for null. */
  lemma {:induction false} MarkPrinted(w: World, formats: seq<Format>, universe: set<Obj>, stack: seq<Obj>, o: Obj)
    requires Closed(w, formats, universe) && o in universe
    requires exists i :: 0 <= i < |stack| && w.equals(o, stack[i])
    ensures var r := Guarded(w, formats, universe, stack, o);
            && r.Text? && r.text.Some?
            && var n := |r.text.value| - 5;
               && n >= 0 && r.text.value[n..] == ".this" && r.text.value[..n] == if o.Null? then "null" else w.name(o)
  {
    var name := if o.Null? then "null" else w.name(o);
    assert OnStack(w, stack, o);
    assert (name + ".this")[|name|..] == ".this" && (name + ".this")[..|name|] == name;
  }

  lemma {:induction false} PartsPrinted(
      w: World, formats: seq<Format>, universe: set<Obj>, stack: seq<Obj>, parts: seq<Obj>)
    requires Closed(w, formats, universe) && forall x :: x in parts ==> x in universe
    ensures var all := GuardedAll(w, formats, universe, stack, parts);
            && (all.None? <==> exists i :: 0 <= i < |parts| && Guarded(w, formats, universe, stack, parts[i]).Thrown?)
            && (all.Some? ==>
                  && |all.value| == |parts|
                  && forall i :: 0 <= i < |parts| ==>
                       Guarded(w, formats, universe, stack, parts[i]) == Text(all.value[i]))
    decreases |parts|
  {
    hide Closed, Guarded;
    if parts != [] {
      var rest := parts[1..];
      PartsPrinted(w, formats, universe, stack, rest);
      assert forall i :: 0 < i < |parts| ==> parts[i] == rest[i - 1];
      assert parts[0] in parts;
      GuardedAllStep(w, formats, universe, stack, parts);
      hide GuardedAll;
      if exists i :: 0 <= i < |rest| && Guarded(w, formats, universe, stack, rest[i]).Thrown? {
        var i :| 0 <= i < |rest| && Guarded(w, formats, universe, stack, rest[i]).Thrown?;
        assert parts[i + 1] == rest[i];
      }
    }
  }

  lemma {:induction false} GuardedAllStep(
      w: World, formats: seq<Format>, universe: set<Obj>, stack: seq<Obj>, parts: seq<Obj>)
    requires Closed(w, formats, universe) && (forall x :: x in parts ==> x in universe) && parts != []
    ensures GuardedAll(w, formats, universe, stack, parts) ==
              Prepended(Guarded(w, formats, universe, stack, parts[0]),
                        GuardedAll(w, formats, universe, stack, parts[1..]))
  {}

  /** Any other object: the format that decides gives its text, or the template filled with the texts of all its
      parts in order, each printed with the object on the stack; an exception anywhere is one for the whole. */
  lemma {:induction false} ObjectPrinted(w: World, formats: seq<Format>, universe: set<Obj>, stack: seq<Obj>, o: Obj)
    requires Closed(w, formats, universe) && o in universe && !OnStack(w, stack, o)
    ensures var r, more := Guarded(w, formats, universe, stack, o), stack + [o];
            match Chosen(w, formats, o)
            case Declines => r == Text(None)
            case Throws => r == Thrown
            case Gives(template, parts) =>
              && (forall x :: x in parts ==> x in universe)
              && (parts == [] ==> r == Text(template))
              && (parts != [] ==>
                    if exists i :: 0 <= i < |parts| && Guarded(w, formats, universe, more, parts[i]).Thrown?
                    then r == Thrown
                    else exists texts: seq<Option<string>> ::
                      && |texts| == |parts| && r == w.fill(template, texts)
                      && forall i :: 0 <= i < |parts| ==>
                           Guarded(w, formats, universe, more, parts[i]) == Text(texts[i]))
  {
    if Chosen(w, formats, o).Gives? {
      assert Chosen(w, formats, o).parts == Parts(w, formats, o);
      PartsPrinted(w, formats, universe, stack + [o], Chosen(w, formats, o).parts);
    }
  }

  // ----- when the guard acts -----

  /** Printing the object meets one that is already on the stack. */
  ghost predicate Meets(w: World, formats: seq<Format>, universe: set<Obj>, stack: seq<Obj>, o: Obj)
    requires Closed(w, formats, universe) && o in universe
    decreases |Pending(universe, stack)|
  {
    || OnStack(w, stack, o)
    || (PendingShrinks(w, universe, stack, o);
        exists x :: x in Parts(w, formats, o) && Meets(w, formats, universe, stack + [o], x))
  }

  /** Each object of the path is a part of the one before it. */
  ghost predicate IsPath(w: World, formats: seq<Format>, path: seq<Obj>) {
    path != [] && forall i :: 0 <= i < |path| - 1 ==> path[i + 1] in Parts(w, formats, path[i])
  }

  /** The path ends in an object equal to one before it, on the path or on the stack. */
  ghost predicate Returns(w: World, formats: seq<Format>, stack: seq<Obj>, path: seq<Obj>) {
    IsPath(w, formats, path) && OnStack(w, stack + path[..|path| - 1], path[|path| - 1])
  }

  lemma {:induction false} MeetingHasPath(w: World, formats: seq<Format>, universe: set<Obj>, stack: seq<Obj>, o: Obj)
    returns (path: seq<Obj>)
    requires Closed(w, formats, universe) && o in universe && Meets(w, formats, universe, stack, o)
    ensures Returns(w, formats, stack, path) && path[0] == o
    decreases |Pending(universe, stack)|
  {
    path := [o];
    if OnStack(w, stack, o) {
      assert stack + path[..0] == stack;
    } else {
      PendingShrinks(w, universe, stack, o);
      var x :| x in Parts(w, formats, o) && Meets(w, formats, universe, stack + [o], x);
      var rest := MeetingHasPath(w, formats, universe, stack + [o], x);
      path := [o] + rest;
      assert stack + path[..|path| - 1] == (stack + [o]) + rest[..|rest| - 1];
      assert path[|path| - 1] == rest[|rest| - 1];
      assert forall i :: 0 < i < |path| - 1 ==> path[i] == rest[i - 1] && path[i + 1] == rest[i];
    }
  }

  lemma {:induction false} PathMeets(
      w: World, formats: seq<Format>, universe: set<Obj>, stack: seq<Obj>, path: seq<Obj>)
    requires Closed(w, formats, universe) && Returns(w, formats, stack, path) && path[0] in universe
    ensures Meets(w, formats, universe, stack, path[0])
    decreases |path|
  {
    var o := path[0];
    if |path| == 1 {
      assert stack + path[..0] == stack;
    } else if !OnStack(w, stack, o) {
      var rest := path[1..];
      assert path[0 + 1] in Parts(w, formats, path[0]);
      assert (stack + [o]) + rest[..|rest| - 1] == stack + path[..|path| - 1];
      assert IsPath(w, formats, rest) by {
        forall i | 0 <= i < |rest| - 1 ensures rest[i + 1] in Parts(w, formats, rest[i]) {
          assert path[i + 1 + 1] in Parts(w, formats, path[i + 1]);
        }
      }
      PathMeets(w, formats, universe, stack + [o], rest);
    }
  }

  /** The guard acts if and only if some path from the object comes back to an object equal to an earlier one. */
  lemma {:induction false} MeetsExactly(w: World, formats: seq<Format>, universe: set<Obj>, o: Obj)
    requires Closed(w, formats, universe) && o in universe
    ensures Meets(w, formats, universe, [], o) <==> exists path :: Returns(w, formats, [], path) && path[0] == o
  {
    if Meets(w, formats, universe, [], o) { var path := MeetingHasPath(w, formats, universe, [], o); }
    forall path | Returns(w, formats, [], path) && path[0] == o ensures Meets(w, formats, universe, [], o) {
      PathMeets(w, formats, universe, [], path);
    }
  }

  // ----- the plain printer -----

  function PrintedAll(printer: Obj -> Printed, parts: seq<Obj>): Option<seq<Option<string>>> {
    if parts == [] then Some([]) else Prepended(printer(parts[0]), PrintedAll(printer, parts[1..]))
  }

  /** One level of the structural printer that has no guard, in terms of the printer itself. */
  function PlainStep(w: World, formats: seq<Format>, printer: Obj -> Printed, o: Obj): Printed {
    match Chosen(w, formats, o)
    case Declines => Text(None)
    case Throws => Thrown
    case Gives(template, parts) =>
      if parts == [] then Text(template) else Filled(w, template, PrintedAll(printer, parts))
  }

  ghost predicate IsPlain(w: World, formats: seq<Format>, universe: set<Obj>, printer: Obj -> Printed) {
    forall o :: o in universe ==> printer(o) == PlainStep(w, formats, printer, o)
  }

  /** Where the guard does not act, the text is that of any printer without a guard. */
  lemma {:induction false} GuardedIsPlain(
      w: World, formats: seq<Format>, universe: set<Obj>, stack: seq<Obj>, o: Obj, printer: Obj -> Printed)
    requires Closed(w, formats, universe) && o in universe && IsPlain(w, formats, universe, printer)
    requires !Meets(w, formats, universe, stack, o)
    ensures Guarded(w, formats, universe, stack, o) == printer(o)
    decreases |Pending(universe, stack)|, 0
  {
    var parts := Parts(w, formats, o);
    if parts != [] {
      PendingShrinks(w, universe, stack, o);
      GuardedAllIsPlain(w, formats, universe, stack + [o], parts, printer);
    }
  }

  lemma {:induction false} GuardedAllIsPlain(
      w: World, formats: seq<Format>, universe: set<Obj>, stack: seq<Obj>, parts: seq<Obj>, printer: Obj -> Printed)
    requires Closed(w, formats, universe) && IsPlain(w, formats, universe, printer)
    requires forall x :: x in parts ==> x in universe && !Meets(w, formats, universe, stack, x)
    ensures GuardedAll(w, formats, universe, stack, parts) == PrintedAll(printer, parts)
    decreases |Pending(universe, stack)|, |parts|
  {
    if parts != [] {
      GuardedIsPlain(w, formats, universe, stack, parts[0], printer);
      GuardedAllIsPlain(w, formats, universe, stack, parts[1..], printer);
    }
  }

  // ----- graphs without cycles -----

  /** Parts rank lower than the whole, and equal objects rank the same. */
  ghost predicate Acyclic(w: World, formats: seq<Format>, universe: set<Obj>, rank: Obj -> nat) {
    && (forall o, x :: o in universe && x in Parts(w, formats, o) ==> rank(x) < rank(o))
    && forall o, x :: w.equals(o, x) ==> rank(o) == rank(x)
  }

  /** The structural printer of such a graph. */
  ghost function Plain(w: World, formats: seq<Format>, universe: set<Obj>, rank: Obj -> nat, o: Obj): Printed
    requires Closed(w, formats, universe) && Acyclic(w, formats, universe, rank) && o in universe
    decreases rank(o), 0
  {
    match Chosen(w, formats, o)
    case Declines => Text(None)
    case Throws => Thrown
    case Gives(template, parts) =>
      if parts == [] then Text(template)
      else
        assert parts == Parts(w, formats, o);
        Filled(w, template, PlainAll(w, formats, universe, rank, parts, rank(o)))
  }

  ghost function PlainAll(
      w: World, formats: seq<Format>, universe: set<Obj>, rank: Obj -> nat, parts: seq<Obj>, bound: nat)
    : Option<seq<Option<string>>>
    requires Closed(w, formats, universe) && Acyclic(w, formats, universe, rank)
    requires forall x :: x in parts ==> x in universe && rank(x) < bound
    decreases bound, 0, |parts|
  {
    if parts == [] then Some([])
    else Prepended(Plain(w, formats, universe, rank, parts[0]), PlainAll(w, formats, universe, rank, parts[1..], bound))
  }

  lemma {:induction false} AcyclicDoesNotMeet(
      w: World, formats: seq<Format>, universe: set<Obj>, rank: Obj -> nat, stack: seq<Obj>, o: Obj)
    requires Closed(w, formats, universe) && Acyclic(w, formats, universe, rank) && o in universe
    requires forall s :: s in stack ==> rank(o) < rank(s)
    ensures !Meets(w, formats, universe, stack, o)
    decreases |Pending(universe, stack)|
  {
    assert !OnStack(w, stack, o);
    PendingShrinks(w, universe, stack, o);
    forall x | x in Parts(w, formats, o) ensures !Meets(w, formats, universe, stack + [o], x) {
      AcyclicDoesNotMeet(w, formats, universe, rank, stack + [o], x);
    }
  }

  /** On a graph without cycles the formatter prints what the structural printer without a guard prints. */
  lemma {:induction false} AcyclicPrintsPlain(
      w: World, formats: seq<Format>, universe: set<Obj>, rank: Obj -> nat, o: Obj)
    requires Closed(w, formats, universe) && Acyclic(w, formats, universe, rank) && o in universe
    ensures Guarded(w, formats, universe, [], o) == Plain(w, formats, universe, rank, o)
  {
    var printer := x => if x in universe then Plain(w, formats, universe, rank, x) else Thrown;
    forall x | x in universe ensures printer(x) == PlainStep(w, formats, printer, x) {
      var parts := Parts(w, formats, x);
      PlainAllIsPrintedAll(w, formats, universe, rank, parts, rank(x), printer);
    }
    AcyclicDoesNotMeet(w, formats, universe, rank, [], o);
    GuardedIsPlain(w, formats, universe, [], o, printer);
  }

  lemma {:induction false} PlainAllIsPrintedAll(
      w: World, formats: seq<Format>, universe: set<Obj>,
      rank: Obj -> nat, parts: seq<Obj>, bound: nat, printer: Obj -> Printed)
    requires Closed(w, formats, universe) && Acyclic(w, formats, universe, rank)
    requires forall x :: x in parts ==> x in universe && rank(x) < bound
    requires forall x :: x in universe ==> printer(x) == Plain(w, formats, universe, rank, x)
    ensures PlainAll(w, formats, universe, rank, parts, bound) == PrintedAll(printer, parts)
    decreases |parts|
  {
    if parts != [] { PlainAllIsPrintedAll(w, formats, universe, rank, parts[1..], bound, printer); }
  }
}
