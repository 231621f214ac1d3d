/** The finite map that the bytes of an export trie encode, and the walk as its lookup. */
module ExportTrieMap {
  import opened Bytes
  import opened Common
  import opened Leb128
  import opened ExportTrie

  /** A terminal node knows where its payload is. */
  datatype Trie = Node(payload: Option<nat>, edges: seq<Edge>)
  datatype Edge = Edge(text: seq<Byte>, child: Trie)

  // ----- the encoding -----

  ghost predicate Encodes(mem: seq<Byte>, end: nat, p: nat, t: Trie)
    decreases t
  {
    && p < end && Unsigned(mem, p).Some?
    && var size, q := Unsigned(mem, p).value.value, Unsigned(mem, p).value.next;
       && t.payload == (if size == 0 then None else Some(q))
       && q + size <= end && q + size < |mem| && mem[q + size] == |t.edges|
       && EncodesEdges(mem, end, q + size + 1, t.edges)
  }

  ghost predicate EncodesEdges(mem: seq<Byte>, end: nat, p: nat, edges: seq<Edge>)
    decreases edges
  {
    edges == [] ||
    (&& LabelEnd(mem, p).Some?
     && var z := LabelEnd(mem, p).value;
        && mem[p..z] == edges[0].text && Unsigned(mem, z + 1).Some?
        && var r := Unsigned(mem, z + 1).value;
           && r.value > 0 && r.next <= end
           && Encodes(mem, end, r.value, edges[0].child)
           && EncodesEdges(mem, end, r.next, edges[1..]))
  }

  /** Sibling labels are not empty and none starts another. */
  ghost predicate PrefixFree(t: Trie)
    decreases t
  {
    && (forall i :: 0 <= i < |t.edges| ==> t.edges[i].text != [] && PrefixFree(t.edges[i].child))
    && Unambiguous(t.edges)
  }

  ghost predicate Unambiguous(edges: seq<Edge>) {
    forall i, j :: 0 <= i < |edges| && 0 <= j < |edges| && i != j ==> !(edges[i].text <= edges[j].text)
  }

  // ----- the map -----

  /** `symbol` is spelled by `depth` edges from `t` down to a terminal node with its payload at `pos`. */
  ghost predicate Entry(t: Trie, symbol: seq<Byte>, pos: nat, depth: nat)
    decreases t
  {
    || (depth == 0 && symbol == [] && t.payload == Some(pos))
    || (depth > 0 && exists i :: 0 <= i < |t.edges| && EntryBelow(t.edges[i], symbol, pos, depth))
  }

  ghost predicate EntryBelow(e: Edge, symbol: seq<Byte>, pos: nat, depth: nat)
    requires depth > 0
    decreases e
  {
    e.text <= symbol && Entry(e.child, symbol[|e.text|..], pos, depth - 1)
  }

  // ----- the bytes determine the trie -----

  lemma {:induction false} EncodesUnique(mem: seq<Byte>, end: nat, p: nat, t: Trie, u: Trie)
    requires Encodes(mem, end, p, t) && Encodes(mem, end, p, u)
    ensures t == u
    decreases t
  {
    var size, q := Unsigned(mem, p).value.value, Unsigned(mem, p).value.next;
    EdgesUnique(mem, end, q + size + 1, t.edges, u.edges);
  }

  lemma {:induction false} EdgesUnique(mem: seq<Byte>, end: nat, p: nat, a: seq<Edge>, b: seq<Edge>)
    requires EncodesEdges(mem, end, p, a) && EncodesEdges(mem, end, p, b) && |a| == |b|
    ensures a == b
    decreases a
  {
    if a != [] {
      var z := LabelEnd(mem, p).value;
      var r := Unsigned(mem, z + 1).value;
      EncodesUnique(mem, end, r.value, a[0].child, b[0].child);
      EdgesUnique(mem, end, r.next, a[1..], b[1..]);
      assert a[0] == b[0];
      assert a == [a[0]] + a[1..] && b == [b[0]] + b[1..];
    }
  }

  function Size(t: Trie): nat
    decreases t
  {
    1 + SizeAll(t.edges)
  }

  function SizeAll(edges: seq<Edge>): nat
    decreases edges
  {
    if edges == [] then 0 else Size(edges[0].child) + SizeAll(edges[1..])
  }

  lemma {:induction false} ChildSmaller(edges: seq<Edge>, i: nat)
    requires i < |edges|
    ensures Size(edges[i].child) <= SizeAll(edges)
  {
    if i > 0 { ChildSmaller(edges[1..], i - 1); }
  }

  // ----- one node -----

  /** The edges' visit: it follows the first edge whose label starts the symbol, and stops if there is none. */
  lemma {:induction false} EdgesVisit(mem: seq<Byte>, end: nat, p: nat, edges: seq<Edge>, symbol: seq<Byte>)
    returns (i: nat)
    requires EncodesEdges(mem, end, p, edges)
    ensures i <= |edges| && (forall j :: 0 <= j < i ==> !(edges[j].text <= symbol))
    ensures i == |edges| ==> Edges(mem, end, p, |edges|, symbol) == Stop
    ensures i < |edges| ==>
              && edges[i].text <= symbol
              && Edges(mem, end, p, |edges|, symbol).Child?
              && Edges(mem, end, p, |edges|, symbol).rest == symbol[|edges[i].text|..]
              && Edges(mem, end, p, |edges|, symbol).offset > 0
              && Encodes(mem, end, Edges(mem, end, p, |edges|, symbol).offset, edges[i].child)
    decreases edges
  {
    hide EncodesEdges, Edges, Encodes, LabelEnd, Unsigned;
    if edges == [] {
      i := 0;
      NoEdges(mem, end, p, symbol);
    } else if edges[0].text <= symbol {
      i := 0;
      FirstEdgeFits(mem, end, p, edges, symbol);
    } else {
      FirstEdgeFails(mem, end, p, edges, symbol);
      var next, rest := Unsigned(mem, LabelEnd(mem, p).value + 1).value.next, edges[1..];
      var k := EdgesVisit(mem, end, next, rest, symbol);
      i := k + 1;
      assert edges == [edges[0]] + rest;
      assert k < |rest| ==> edges[i] == rest[k];
      forall j | 0 <= j < i
        ensures !(edges[j].text <= symbol)
      {
        assert j > 0 ==> edges[j] == rest[j - 1];
      }
    }
  }

  lemma {:induction false} NoEdges(mem: seq<Byte>, end: nat, p: nat, symbol: seq<Byte>)
    ensures Edges(mem, end, p, 0, symbol) == Stop
  {}

  lemma {:induction false} FirstEdgeFits(mem: seq<Byte>, end: nat, p: nat, edges: seq<Edge>, symbol: seq<Byte>)
    requires edges != [] && EncodesEdges(mem, end, p, edges) && edges[0].text <= symbol
    ensures var v := Edges(mem, end, p, |edges|, symbol);
            && v.Child? && v.rest == symbol[|edges[0].text|..] && v.offset > 0
            && Encodes(mem, end, v.offset, edges[0].child)
  {
    hide LabelEnd, Unsigned, Encodes;
    EncodesInside(mem, end, Unsigned(mem, LabelEnd(mem, p).value + 1).value.value, edges[0].child);
  }

  lemma {:induction false} FirstEdgeFails(mem: seq<Byte>, end: nat, p: nat, edges: seq<Edge>, symbol: seq<Byte>)
    requires edges != [] && EncodesEdges(mem, end, p, edges) && !(edges[0].text <= symbol)
    ensures LabelEnd(mem, p).Some? && Unsigned(mem, LabelEnd(mem, p).value + 1).Some?
    ensures var next := Unsigned(mem, LabelEnd(mem, p).value + 1).value.next;
            && EncodesEdges(mem, end, next, edges[1..])
            && Edges(mem, end, p, |edges|, symbol) == Edges(mem, end, next, |edges[1..]|, symbol)
  {
    hide LabelEnd, Unsigned, Encodes;
    NextIsEnd(mem, LabelEnd(mem, p).value + 1);
  }

  lemma {:induction false} NextIsEnd(mem: seq<Byte>, p: nat)
    requires Unsigned(mem, p).Some?
    ensures EndOf(mem, p) == Some(Unsigned(mem, p).value.next)
  {}

  /** A node's visit. */
  lemma {:induction false} NodeVisit(mem: seq<Byte>, end: nat, p: nat, t: Trie, symbol: seq<Byte>) returns (i: nat)
    requires Encodes(mem, end, p, t)
    ensures symbol == [] && t.payload.Some? ==> VisitNode(mem, end, p, symbol) == Payload(t.payload.value)
    ensures !(symbol == [] && t.payload.Some?) ==>
              var v := VisitNode(mem, end, p, symbol);
              && i <= |t.edges| && (forall j :: 0 <= j < i ==> !(t.edges[j].text <= symbol))
              && (i == |t.edges| ==> v == Stop)
              && (i < |t.edges| ==> t.edges[i].text <= symbol && v.Child? && v.rest == symbol[|t.edges[i].text|..]
                                    && Encodes(mem, end, v.offset, t.edges[i].child))
  {
    hide Unsigned, EndOf, LabelEnd, Edges;
    var size, q := Unsigned(mem, p).value.value, Unsigned(mem, p).value.next;
    i := EdgesVisit(mem, end, q + size + 1, t.edges, symbol);
  }

  lemma {:induction false} PrefixesNest(a: seq<Byte>, b: seq<Byte>, s: seq<Byte>)
    requires a <= s && b <= s && |a| <= |b|
    ensures a <= b
  {
    assert a == s[..|a|] && b == s[..|b|];
  }

  /** With prefix-free labels, entries below a node are entries below the edge that its visit follows. */
  lemma {:induction false} OnlyEdge(edges: seq<Edge>, i: nat, j: nat, symbol: seq<Byte>)
    requires Unambiguous(edges) && i < |edges| && j < |edges|
    requires edges[i].text <= symbol && edges[j].text <= symbol
    ensures i == j
  {
    if |edges[i].text| <= |edges[j].text| {
      PrefixesNest(edges[i].text, edges[j].text, symbol);
    } else {
      PrefixesNest(edges[j].text, edges[i].text, symbol);
    }
  }

  // ----- the walk -----

  /** The offsets visited so far belong to nodes above the current one: each encodes a larger trie. */
  ghost predicate Above(mem: seq<Byte>, end: nat, visited: seq<nat>, path: seq<Trie>, size: nat) {
    && |path| == |visited|
    && forall i :: 0 <= i < |visited| ==> Encodes(mem, end, visited[i], path[i]) && Size(path[i]) >= size
  }

  /** A child's offset is new: the bytes there would otherwise encode two tries of different sizes. */
  lemma {:induction false} ChildIsNew(
      mem: seq<Byte>, end: nat, visited: seq<nat>, path: seq<Trie>, t: Trie, i: nat, offset: nat)
    requires Above(mem, end, visited, path, Size(t)) && i < |t.edges| && Encodes(mem, end, offset, t.edges[i].child)
    ensures offset !in visited
    ensures end <= 0x1_0000_0000 ==> offset % 0x1_0000_0000 == offset
    ensures Size(t.edges[i].child) < Size(t)
  {
    ChildSmaller(t.edges, i);
    if offset in visited {
      var j :| 0 <= j < |visited| && visited[j] == offset;
      EncodesUnique(mem, end, offset, path[j], t.edges[i].child);
    }
  }

  /** The walk below a node reached after `|visited|` nodes.  On every trie it stays in memory, and what it finds is an
      entry of the symbol, not too deep; with prefix-free labels it finds every such entry. */
  lemma {:induction false} WalkLooksUp(
      mem: seq<Byte>, end: nat, p: nat, t: Trie, symbol: seq<Byte>, visited: seq<nat>, path: seq<Trie>, pos: nat)
    requires 1 <= |visited| < 128 && end <= 0x1_0000_0000
    requires Encodes(mem, end, p, t) && Above(mem, end, visited, path, Size(t))
    ensures Walk(mem, end, p, symbol, visited).outcome != Fault
    ensures Walk(mem, end, p, symbol, visited).outcome == Found(pos) ==> Within(t, symbol, pos, 127 - |visited|)
    ensures PrefixFree(t) && Within(t, symbol, pos, 127 - |visited|) ==>
              Walk(mem, end, p, symbol, visited).outcome == Found(pos)
    decreases 128 - |visited|
  {
    hide VisitNode, Encodes, Within, PrefixFree, Size;
    EncodesInside(mem, end, p, t);
    var i := NodeVisit(mem, end, p, t, symbol);
    if symbol == [] && t.payload.Some? {
      TerminalWithin(t, pos, 127 - |visited|);
    } else if i == |t.edges| {
      NothingWithin(t, symbol, pos, 127 - |visited|);
    } else {
      var v := VisitNode(mem, end, p, symbol);
      var child := t.edges[i].child;
      ChildIsNew(mem, end, visited, path, t, i, v.offset);
      WithinThrough(t, i, symbol, pos, 127 - |visited|);
      if PrefixFree(t) { ChildPrefixFree(t, i); }
      var more := visited + [v.offset];
      if |more| < 128 {
        WalkLooksUp(mem, end, v.offset, child, v.rest, more, path + [child], pos);
      } else {
        NothingBelowZero(child, v.rest, pos);
      }
    }
  }

  /** The symbol is an entry at `pos` and at most `limit` edges deep. */
  ghost predicate Within(t: Trie, symbol: seq<Byte>, pos: nat, limit: int) {
    exists depth: nat :: depth <= limit && Entry(t, symbol, pos, depth)
  }

  lemma {:induction false} NothingBelowZero(t: Trie, symbol: seq<Byte>, pos: nat)
    ensures !Within(t, symbol, pos, -1)
  {}

  lemma {:induction false} TerminalWithin(t: Trie, pos: nat, limit: nat)
    ensures t.payload == Some(pos) ==> Within(t, [], pos, limit)
    ensures PrefixFree(t) && Within(t, [], pos, limit) ==> t.payload == Some(pos)
  {
    if t.payload == Some(pos) { assert Entry(t, [], pos, 0); }
    if PrefixFree(t) { TerminalEntry(t, pos); }
  }

  lemma {:induction false} NothingWithin(t: Trie, symbol: seq<Byte>, pos: nat, limit: nat)
    requires symbol != [] || t.payload.None?
    requires forall j :: 0 <= j < |t.edges| ==> !(t.edges[j].text <= symbol)
    ensures !Within(t, symbol, pos, limit)
  {
    NoEntry(t, symbol, pos);
  }

  /** An entry below an edge whose label starts the symbol is one of the node; with prefix-free labels there is no
      other. */
  lemma {:induction false} WithinThrough(t: Trie, i: nat, symbol: seq<Byte>, pos: nat, limit: nat)
    requires i < |t.edges| && t.edges[i].text <= symbol && (symbol != [] || t.payload.None?)
    ensures var rest := symbol[|t.edges[i].text|..];
            && (Within(t.edges[i].child, rest, pos, limit - 1) ==> Within(t, symbol, pos, limit))
            && (PrefixFree(t) && Within(t, symbol, pos, limit) ==> Within(t.edges[i].child, rest, pos, limit - 1))
  {
    hide PrefixFree;
    var child, rest := t.edges[i].child, symbol[|t.edges[i].text|..];
    if depth: nat :| depth <= limit - 1 && Entry(child, rest, pos, depth) {
      assert EntryBelow(t.edges[i], symbol, pos, depth + 1);
      assert Entry(t, symbol, pos, depth + 1);
    }
    if PrefixFree(t) {
      EntryThrough(t, i, symbol, pos);
      if depth: nat :| depth <= limit && Entry(t, symbol, pos, depth) {
        assert Entry(child, rest, pos, depth - 1);
      }
    }
  }

  lemma {:induction false} EncodesInside(mem: seq<Byte>, end: nat, p: nat, t: Trie)
    requires Encodes(mem, end, p, t)
    ensures p < end
  {}

  lemma {:induction false} ChildPrefixFree(t: Trie, i: nat)
    requires PrefixFree(t) && i < |t.edges|
    ensures PrefixFree(t.edges[i].child)
  {}

  /** The empty symbol at a terminal node is that node's entry and no other. */
  lemma {:induction false} TerminalEntry(t: Trie, pos: nat)
    requires PrefixFree(t)
    ensures forall depth: nat :: Entry(t, [], pos, depth) <==> depth == 0 && t.payload == Some(pos)
  {}

  lemma {:induction false} NoEntry(t: Trie, symbol: seq<Byte>, pos: nat)
    requires symbol != [] || t.payload.None?
    requires forall j :: 0 <= j < |t.edges| ==> !(t.edges[j].text <= symbol)
    ensures forall depth: nat :: !Entry(t, symbol, pos, depth)
  {}

  /** Entries of a nonempty symbol, or of a node that is not terminal, go through the edge the visit follows. */
  lemma {:induction false} EntryThrough(t: Trie, i: nat, symbol: seq<Byte>, pos: nat)
    requires PrefixFree(t) && i < |t.edges| && t.edges[i].text <= symbol
    requires symbol != [] || t.payload.None?
    ensures forall depth: nat :: Entry(t, symbol, pos, depth) <==>
              depth > 0 && Entry(t.edges[i].child, symbol[|t.edges[i].text|..], pos, depth - 1)
  {
    forall depth: nat
      ensures Entry(t, symbol, pos, depth) <==>
                depth > 0 && Entry(t.edges[i].child, symbol[|t.edges[i].text|..], pos, depth - 1)
    {
      if depth > 0 && Entry(t, symbol, pos, depth) {
        var j :| 0 <= j < |t.edges| && EntryBelow(t.edges[j], symbol, pos, depth);
        OnlyEdge(t.edges, i, j, symbol);
      }
      if depth > 0 && Entry(t.edges[i].child, symbol[|t.edges[i].text|..], pos, depth - 1) {
        assert EntryBelow(t.edges[i], symbol, pos, depth);
      }
    }
  }

  /** The main result, on every trie of at most 4 GiB: `walk_exported_trie` stays in memory and finds only entries of
      the symbol at most 126 edges deep; with prefix-free labels it finds a payload exactly when there is such an
      entry. */
  lemma {:induction false} WalkIsLookup(mem: seq<Byte>, end: nat, t: Trie, symbol: seq<Byte>, pos: nat)
    requires end <= 0x1_0000_0000 && Encodes(mem, end, 0, t)
    ensures Walk(mem, end, 0, symbol, [0]).outcome != Fault
    ensures Walk(mem, end, 0, symbol, [0]).outcome == Found(pos) ==> Within(t, symbol, pos, 126)
    ensures PrefixFree(t) ==> (Walk(mem, end, 0, symbol, [0]).outcome == Found(pos) <==> Within(t, symbol, pos, 126))
  {
    hide Walk, Encodes, Within, PrefixFree;
    WalkLooksUp(mem, end, 0, t, symbol, [0], [t], pos);
  }

  /** A symbol has at most one payload, at one depth. */
  lemma {:induction false} EntryUnique(t: Trie, symbol: seq<Byte>, p1: nat, d1: nat, p2: nat, d2: nat)
    requires PrefixFree(t) && Entry(t, symbol, p1, d1) && Entry(t, symbol, p2, d2)
    ensures p1 == p2 && d1 == d2
    decreases t
  {
    if d1 > 0 && d2 > 0 {
      var i :| 0 <= i < |t.edges| && EntryBelow(t.edges[i], symbol, p1, d1);
      var j :| 0 <= j < |t.edges| && EntryBelow(t.edges[j], symbol, p2, d2);
      OnlyEdge(t.edges, i, j, symbol);
      EntryUnique(t.edges[i].child, symbol[|t.edges[i].text|..], p1, d1 - 1, p2, d2 - 1);
    }
  }

  // ----- any bytes at all -----

  ghost predicate Distinct(s: seq<nat>) {
    forall i, j :: 0 <= i < j < |s| ==> s[i] != s[j]
  }

  /** On any bytes the walk records at most 128 offsets, and no offset twice if the trie is below 4 GiB. */
  lemma {:induction false} WalkVisitsDistinct(mem: seq<Byte>, end: nat, p: nat, symbol: seq<Byte>, visited: seq<nat>)
    requires |visited| < 128 && end < 0x1_0000_0000
    requires Distinct(visited)
    ensures Distinct(Walk(mem, end, p, symbol, visited).visited)
    ensures |Walk(mem, end, p, symbol, visited).visited| <= 128
    ensures visited <= Walk(mem, end, p, symbol, visited).visited
    decreases 128 - |visited|
  {
    hide VisitNode;
    if p < end {
      var v := VisitNode(mem, end, p, symbol);
      ChildInside(mem, end, p, symbol);
      if v.Child? && v.offset !in visited {
        var more := visited + [v.offset % 0x1_0000_0000];
        assert Distinct(more);
        if |more| < 128 { WalkVisitsDistinct(mem, end, v.offset, v.rest, more); }
      }
    }
  }

  lemma {:induction false} EdgesInside(mem: seq<Byte>, end: nat, p: nat, n: nat, symbol: seq<Byte>)
    ensures Edges(mem, end, p, n, symbol).Child? ==> 0 < Edges(mem, end, p, n, symbol).offset <= end
    decreases n
  {
    if n > 0 && LabelEnd(mem, p).Some? {
      var z := LabelEnd(mem, p).value;
      if !(mem[p..z] <= symbol) && EndOf(mem, z + 1).Some? {
        EdgesInside(mem, end, EndOf(mem, z + 1).value, n - 1, symbol);
      }
    }
  }

  lemma {:induction false} ChildInside(mem: seq<Byte>, end: nat, p: nat, symbol: seq<Byte>)
    ensures VisitNode(mem, end, p, symbol).Child? ==> 0 < VisitNode(mem, end, p, symbol).offset <= end
  {
    match Unsigned(mem, p)
    case None =>
    case Some(r) =>
      if r.next + r.value < |mem| {
        EdgesInside(mem, end, r.next + r.value + 1, mem[r.next + r.value], symbol);
      }
  }
}
