/**
 The Mach-O export trie: the walk over its bytes, against the finite map that the bytes encode.

 The trie is the first `end` bytes of `mem`; reads may go past `end` but not past `mem` (`Fault`).
 Positions do not wrap.
 */
module ExportTrie {
  import opened Bytes
  import opened Common
  import opened Leb128

  /** A node was found with its payload at `pos`, or no symbol was found, or a read left memory. */
  datatype Outcome = Found(pos: nat) | NotFound | Fault

  // ----- what the walk computes -----

  /** The position of the NUL that ends the label at `p`. */
  function LabelEnd(mem: seq<Byte>, p: nat): (r: Option<nat>)
    ensures r.Some? ==> p <= r.value < |mem| && mem[r.value] == 0
    ensures r.Some? ==> forall i :: p <= i < r.value ==> mem[i] != 0
    decreases |mem| - p
  {
    if p >= |mem| then None else if mem[p] == 0 then Some(p) else LabelEnd(mem, p + 1)
  }

  /** One node's visit: a payload, a child to go on with, the end of the walk, or a bad read. */
  datatype Visit = Payload(pos: nat) | Child(offset: nat, rest: seq<Byte>) | Stop | BadRead

  /** The `n` edges at `p`: follow the first one whose label starts the symbol. */
  function Edges(mem: seq<Byte>, end: nat, p: nat, n: nat, symbol: seq<Byte>): Visit
    decreases n
  {
    if n == 0 then Stop
    else if LabelEnd(mem, p).None? then BadRead
    else
      var z := LabelEnd(mem, p).value;
      var text := mem[p..z];
      if text <= symbol then
        match Unsigned(mem, z + 1)
        case None => BadRead
        case Some(r) => if r.value == 0 || r.value > end then Stop else Child(r.value, symbol[|text|..])
      else
        match EndOf(mem, z + 1)
        case None => BadRead
        case Some(next) => if next > end then Stop else Edges(mem, end, next, n - 1, symbol)
  }

  function VisitNode(mem: seq<Byte>, end: nat, p: nat, symbol: seq<Byte>): Visit {
    match Unsigned(mem, p)
    case None => BadRead
    case Some(r) =>
      if symbol == [] && r.value != 0 then Payload(r.next)
      else
        var children: nat := r.next + r.value;
        if children > end then Stop
        else if children >= |mem| then BadRead
        else Edges(mem, end, children + 1, mem[children], symbol)
  }

  /** The outcome of the walk and the node offsets it recorded. */
  datatype Trace = Trace(outcome: Outcome, visited: seq<nat>)

  /** The walk from the node at `p`, after the offsets in `visited`, which are kept modulo 2^32. */
  function Walk(mem: seq<Byte>, end: nat, p: nat, symbol: seq<Byte>, visited: seq<nat>): Trace
    requires |visited| < 128
    decreases 128 - |visited|
  {
    if p >= end then Trace(NotFound, visited)
    else
      match VisitNode(mem, end, p, symbol)
      case Payload(pos) => Trace(Found(pos), visited)
      case Stop => Trace(NotFound, visited)
      case BadRead => Trace(Fault, visited)
      case Child(offset, rest) =>
        if offset in visited then Trace(NotFound, visited)
        else
          var more := visited + [offset % 0x1_0000_0000];
          if |more| >= 128 then Trace(NotFound, more) else Walk(mem, end, offset, rest, more)
  }

  // ----- the loops -----

  /** Compare the label at `start` with the symbol, up to the first difference, but scan the whole label. */
  method ScanLabel(mem: seq<Byte>, start: nat, symbol: seq<Byte>) returns (ok: bool, p: nat, wrongEdge: bool, ss: nat)
    requires forall i :: 0 <= i < |symbol| ==> symbol[i] != 0
    ensures ok <==> LabelEnd(mem, start).Some?
    ensures ok ==> LabelEnd(mem, start) == Some(p) && (wrongEdge <==> !(mem[start..p] <= symbol))
    ensures ok && !wrongEdge ==> ss == p - start
  {
    p, wrongEdge, ss := start, false, 0;
    while p < |mem| && mem[p] != 0
      invariant start <= p && LabelEnd(mem, p) == LabelEnd(mem, start)
      invariant p <= |mem| || p == start
      invariant p <= |mem| ==> (wrongEdge <==> !(mem[start..p] <= symbol))
      invariant !wrongEdge ==> ss == p - start
      decreases |mem| - p
    {
      if !wrongEdge {
        // symbol[|symbol|] is the terminating NUL
        if ss == |symbol| || mem[p] != symbol[ss] { wrongEdge := true; }
        ss := ss + 1;
      }
      assert mem[start..p + 1] == mem[start..p] + [mem[p]];
      p := p + 1;
    }
    ok := p < |mem|;
  }

  method ScanEdges(mem: seq<Byte>, end: nat, start: nat, count: nat, symbol: seq<Byte>) returns (v: Visit)
    requires forall i :: 0 <= i < |symbol| ==> symbol[i] != 0
    ensures v == Edges(mem, end, start, count, symbol)
  {
    hide Unsigned, EndOf, LabelEnd;
    var p: nat, childrenRemaining: nat := start, count;
    while childrenRemaining > 0
      invariant Edges(mem, end, p, childrenRemaining, symbol) == Edges(mem, end, start, count, symbol)
    {
      var ok, z, wrongEdge, ss := ScanLabel(mem, p, symbol);
      if !ok { return BadRead; }
      if wrongEdge {
        var next := SkipUleb(mem, z + 1);
        if next.None? { return BadRead; }
        p := next.value;
        if p > end { return Stop; }
      } else {
        var r := ReadUleb128(mem, z + 1);
        if r.None? { return BadRead; }
        if r.value.value == 0 || r.value.value > end { return Stop; }
        return Child(r.value.value, symbol[ss..]);
      }
      childrenRemaining := childrenRemaining - 1;
    }
    return Stop;
  }

  method ScanNode(mem: seq<Byte>, end: nat, p: nat, symbol: seq<Byte>) returns (v: Visit)
    requires forall i :: 0 <= i < |symbol| ==> symbol[i] != 0
    ensures v == VisitNode(mem, end, p, symbol)
  {
    hide Unsigned, Edges, EndOf, Number;
    if p >= |mem| { return BadRead; }
    // a size below 128 is its own encoding
    var size := Some(Reading(mem[p], p + 1));
    if mem[p] > 127 { size := ReadUleb128(mem, p); } else { OneByte(mem, p); }
    if size.None? { return BadRead; }
    if symbol == [] && size.value.value != 0 { return Payload(size.value.next); }
    var children := size.value.next + size.value.value;
    if children > end { return Stop; }
    if children >= |mem| { return BadRead; }
    v := ScanEdges(mem, end, children + 1, mem[children], symbol);
  }

  method AlreadyVisited(offsets: array<nat>, count: nat, offset: nat) returns (found: bool)
    requires count <= offsets.Length
    ensures found <==> offset in offsets[..count]
  {
    var i := 0;
    while i < count
      invariant 0 <= i <= count && offset !in offsets[..i]
    {
      if offsets[i] == offset { return true; }
      i := i + 1;
    }
    return false;
  }

  method WalkExportedTrie(mem: seq<Byte>, end: nat, symbol: seq<Byte>) returns (r: Outcome)
    requires forall i :: 0 <= i < |symbol| ==> symbol[i] != 0
    ensures r == Walk(mem, end, 0, symbol, [0]).outcome
  {
    hide VisitNode;
    var visitedNodeOffsets := new nat[128](_ => 0);
    var visitedNodeOffsetCount := 1;
    var p: nat, rest := 0, symbol;
    assert visitedNodeOffsets[..1] == [0];
    while p < end
      invariant 1 <= visitedNodeOffsetCount < 128
      invariant forall i :: 0 <= i < |rest| ==> rest[i] != 0
      invariant Walk(mem, end, p, rest, visitedNodeOffsets[..visitedNodeOffsetCount]).outcome
                == Walk(mem, end, 0, symbol, [0]).outcome
      decreases 128 - visitedNodeOffsetCount
    {
      var v := ScanNode(mem, end, p, rest);
      match v {
        case BadRead => return Fault;
        case Payload(pos) => return Found(pos);
        case Stop => return NotFound;
        case Child(offset, after) =>
          ChildIsSuffix(mem, end, p, rest);
          var found := AlreadyVisited(visitedNodeOffsets, visitedNodeOffsetCount, offset);
          if found { return NotFound; }
          ghost var before := visitedNodeOffsets[..visitedNodeOffsetCount];
          visitedNodeOffsets[visitedNodeOffsetCount] := offset % 0x1_0000_0000;
          visitedNodeOffsetCount := visitedNodeOffsetCount + 1;
          assert visitedNodeOffsets[..visitedNodeOffsetCount] == before + [offset % 0x1_0000_0000];
          if visitedNodeOffsetCount >= 128 { return NotFound; }
          p, rest := offset, after;
      }
    }
    return NotFound;
  }

  ghost predicate IsSuffix(rest: seq<Byte>, symbol: seq<Byte>) {
    |rest| <= |symbol| && rest == symbol[|symbol| - |rest|..]
  }

  lemma {:induction false} EdgeIsSuffix(mem: seq<Byte>, end: nat, p: nat, n: nat, symbol: seq<Byte>)
    ensures Edges(mem, end, p, n, symbol).Child? ==> IsSuffix(Edges(mem, end, p, n, symbol).rest, symbol)
    decreases n
  {
    if n > 0 && LabelEnd(mem, p).Some? {
      var z := LabelEnd(mem, p).value;
      if !(mem[p..z] <= symbol) && EndOf(mem, z + 1).Some? {
        EdgeIsSuffix(mem, end, EndOf(mem, z + 1).value, n - 1, symbol);
      }
    }
  }

  lemma {:induction false} ChildIsSuffix(mem: seq<Byte>, end: nat, p: nat, symbol: seq<Byte>)
    ensures VisitNode(mem, end, p, symbol).Child? ==> IsSuffix(VisitNode(mem, end, p, symbol).rest, symbol)
  {
    match Unsigned(mem, p)
    case None =>
    case Some(r) =>
      if r.next + r.value < |mem| {
        EdgeIsSuffix(mem, end, r.next + r.value + 1, mem[r.next + r.value], symbol);
      }
  }
}
