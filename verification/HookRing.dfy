/** The intrusive circular list of hook entries, as the sequence of entries it stands for. */
module HookRing {
  import opened Common
  import opened Bytes

  /** A hook: the patched address, the replacement it jumps to, and the bytes saved before patching. */
  datatype HookEntry = HookEntry(address: nat, target: nat, saved: seq<Byte>)

  /** The index of the first entry for an address, or the length. */
  function FirstFor(entries: seq<HookEntry>, address: nat): (i: nat)
    ensures i <= |entries|
    ensures i < |entries| ==> entries[i].address == address
    ensures forall j :: 0 <= j < i ==> entries[j].address != address
  {
    if entries == [] || entries[0].address == address then 0 else 1 + FirstFor(entries[1..], address)
  }

  function Without(entries: seq<HookEntry>, i: nat): seq<HookEntry>
    requires i < |entries|
  {
    entries[..i] + entries[i + 1..]
  }

  class Node {
    var next: Node?
    var prev: Node?
    var info: HookEntry

    constructor (entry: HookEntry)
      ensures next == null && prev == null && info == entry
    {
      next, prev, info := null, null, entry;
    }
  }

  class Interceptor {
    const head: Node
    ghost var nodes: seq<Node>

    /** The node at place `i` of the ring; the head is at both ends. */
    ghost function At(i: int): Node
      requires 0 <= i <= |nodes| + 1
      reads this
    {
      if i == 0 || i == |nodes| + 1 then head else nodes[i - 1]
    }

    /** next and prev are mutually inverse all the way round, and no node occurs twice. */
    ghost predicate Valid()
      reads this, head, nodes
    {
      && head !in nodes
      && (forall i, j :: 0 <= i < j < |nodes| ==> nodes[i] != nodes[j])
      && (forall i :: 0 <= i <= |nodes| ==> At(i).next == At(i + 1))
      && (forall i :: 0 <= i <= |nodes| ==> At(i + 1).prev == At(i))
    }

    ghost function Contents(): (s: seq<HookEntry>)
      reads this, nodes
      ensures |s| == |nodes| && forall i :: 0 <= i < |s| ==> s[i] == nodes[i].info
    {
      seq(|nodes|, i requires 0 <= i < |nodes| reads this, nodes => nodes[i].info)
    }

    constructor ()
      ensures Valid() && Contents() == [] && fresh(head)
    {
      var h := new Node(HookEntry(0, 0, []));
      h.next := h;
      h.prev := h;
      head := h;
      nodes := [];
    }

    /** `list_add` after the head. */
    method AddHookEntry(entry: HookEntry)
      requires Valid()
      modifies this, head, nodes
      ensures Valid() && Contents() == [entry] + old(Contents())
      ensures fresh(set n | n in nodes && n !in old(nodes))
    {
      var node := new Node(entry);
      var after := head.next;
      assert At(0).next == At(1);
      after.prev := node;
      node.next := after;
      node.prev := head;
      head.next := node;
      nodes := [node] + nodes;
      assert forall i :: 2 <= i <= |nodes| + 1 ==> At(i) == old(At(i - 1));
    }

    method FindHookEntryNode(address: nat) returns (found: Node?)
      requires Valid()
      ensures var i := FirstFor(Contents(), address);
              if i < |nodes| then found == nodes[i] else found == null
    {
      var node := head.next;
      ghost var i := 0;
      assert At(0).next == At(1);
      while node != head
        invariant 0 <= i <= |nodes| && node == At(i + 1)
        invariant forall j :: 0 <= j < i ==> Contents()[j].address != address
        decreases |nodes| - i
      {
        if node.info.address == address { return node; }
        assert At(i + 1).next == At(i + 2);
        node := node.next;
        i := i + 1;
      }
      assert i == |nodes|;
      return null;
    }

    method FindHookEntry(address: nat) returns (entry: Option<HookEntry>)
      requires Valid()
      ensures var i := FirstFor(Contents(), address);
              entry == if i < |Contents()| then Some(Contents()[i]) else None
    {
      var node := FindHookEntryNode(address);
      if node != null { return Some(node.info); }
      return None;
    }

    /** `list_del`. */
    method ListDel(node: Node, ghost i: nat)
      requires Valid() && i < |nodes| && node == nodes[i]
      modifies this`nodes, head`next, head`prev, nodes`next, nodes`prev
      ensures Valid() && nodes == old(nodes[..i] + nodes[i + 1..])
    {
      var prev, next := node.prev, node.next;
      assert At(i).next == At(i + 1) && At(i + 1).prev == At(i) && At(i + 1).next == At(i + 2);
      next.prev := prev;
      prev.next := next;
      node.next := null;
      node.prev := null;
      nodes := nodes[..i] + nodes[i + 1..];
      assert forall j :: 0 <= j <= i ==> At(j) == old(At(j));
      assert forall j :: i < j <= |nodes| + 1 ==> At(j) == old(At(j + 1));
      assert forall j :: 0 <= j <= |nodes| + 1 ==> At(j) != node;
      assert forall j :: 0 <= j <= |nodes| ==> At(j).next == At(j + 1);
    }

    method RemoveHookEntry(address: nat)
      requires Valid()
      modifies this`nodes, head`next, head`prev, nodes`next, nodes`prev
      ensures Valid()
      ensures FirstFor(old(Contents()), address) == |old(Contents())| ==> Contents() == old(Contents())
      ensures FirstFor(old(Contents()), address) < |old(Contents())| ==>
                Contents() == Without(old(Contents()), FirstFor(old(Contents()), address))
      ensures forall n :: n in nodes ==> n in old(nodes)
    {
      hide Valid, FirstFor;
      var node := FindHookEntryNode(address);
      if node != null {
        ghost var was, i := Contents(), FirstFor(Contents(), address);
        ListDel(node, i);
        assert forall k :: 0 <= k < |nodes| ==> nodes[k] == if k < i then old(nodes)[k] else old(nodes)[k + 1];
        assert Contents() == Without(was, i);
      }
    }

    method GetHookEntryCount() returns (count: nat)
      requires Valid()
      ensures count == |Contents()|
    {
      count := 0;
      var node := head.next;
      assert At(0).next == At(1);
      while node != head
        invariant 0 <= count <= |nodes| && node == At(count + 1)
        decreases |nodes| - count
      {
        assert At(count + 1).next == At(count + 2);
        count := count + 1;
        node := node.next;
      }
    }
  }
}
