/** `DobbyHook` and `DobbyDestroy` on the ring of entries and an array of code bytes. */
module HookEngine {
  import opened Bytes
  import opened Common
  import opened HookRing
  import opened HookMemory

  /** `CodePatch`. */
  method CodePatch(memory: array<Byte>, address: nat, bytes: seq<Byte>)
    requires address + |bytes| <= memory.Length
    modifies memory
    ensures memory[..] == Write(old(memory[..]), address, bytes)
  {
    for i := 0 to |bytes|
      invariant forall x :: 0 <= x < memory.Length ==>
                  memory[x] == if address <= x < address + i then bytes[x - address] else old(memory[x])
    {
      memory[address + i] := bytes[i];
    }
  }

  lemma {:induction false} HookFits(e: Engine, q: Request)
    requires EntriesFit(e.mem, e.entries) && Handles(e, q)
    ensures var h := Hook(e, q); EntriesFit(h.mem, h.entries)
  {}

  lemma {:induction false} DestroyFits(e: Engine, address: nat)
    requires EntriesFit(e.mem, e.entries)
    ensures var d := Destroy(e, address); EntriesFit(d.mem, d.entries)
  {
    var i := FirstFor(e.entries, address);
    if i < |e.entries| {
      var r := Without(e.entries, i);
      assert forall k :: 0 <= k < |r| ==> r[k] == e.entries[if k < i then k else k + 1];
    }
  }

  lemma {:induction false} FirstExists(entries: seq<HookEntry>, address: nat)
    ensures FirstFor(entries, address) < |entries| <==> exists i :: 0 <= i < |entries| && entries[i].address == address
  {}

  class Dobby {
    const interceptor: Interceptor
    const memory: array<Byte>

    ghost predicate Valid()
      reads this, interceptor, interceptor.head, interceptor.nodes, memory
    {
      interceptor.Valid() && EntriesFit(memory[..], interceptor.Contents())
    }

    ghost function View(): Engine
      reads this, interceptor, interceptor.nodes, memory
    {
      Engine(memory[..], interceptor.Contents())
    }

    constructor (code: array<Byte>)
      ensures Valid() && memory == code && View() == Engine(code[..], [])
      ensures fresh(interceptor) && fresh(interceptor.head)
    {
      interceptor := new Interceptor();
      memory := code;
    }

    /** True where `DobbyHook` returns success. */
    method Hook(q: Request) returns (ok: bool)
      requires Valid() && Handles(View(), q)
      modifies interceptor, interceptor.head, interceptor.nodes, memory
      ensures Valid() && View() == HookMemory.Hook(old(View()), q)
      ensures ok == !Repeats(old(View()), q)
      ensures fresh(set n | n in interceptor.nodes && n !in old(interceptor.nodes))
    {
      hide Interceptor.Valid, Write, FirstFor, EntriesFit, Repeats;
      ghost var was := View();
      RepeatsExactly(was, q);
      HookFits(was, q);
      if q.address == 0 { return false; }
      var entry := interceptor.FindHookEntry(q.address);
      if entry.Some? && entry.value.target == q.target { return false; }
      var saved := if q.relocated then memory[q.address..q.address + q.length] else [];
      interceptor.AddHookEntry(HookEntry(q.address, q.target, saved));
      ghost var entries := interceptor.Contents();
      CodePatch(memory, q.address, q.trampoline);
      assert interceptor.Contents() == entries;
      return true;
    }

    method Destroy(address: nat) returns (ok: bool)
      requires Valid()
      modifies interceptor, interceptor.head, interceptor.nodes, memory
      ensures Valid() && View() == HookMemory.Destroy(old(View()), address)
      ensures ok <==> exists i :: 0 <= i < |old(View()).entries| && old(View()).entries[i].address == address
    {
      FirstExists(View().entries, address);
      hide Interceptor.Valid, Write, FirstFor;
      ghost var was := View();
      DestroyFits(was, address);
      var entry := interceptor.FindHookEntry(address);
      if entry.None? { return false; }
      hide EntriesFit;
      CodePatch(memory, address, entry.value.saved);
      assert interceptor.Contents() == was.entries;
      ghost var patched := memory[..];
      interceptor.RemoveHookEntry(address);
      assert memory[..] == patched;
      return true;
    }
  }
}
