/** The kernel's map of hooked members and the registry above it, as objects. */
module PatchKernel {
  import opened Common
  import opened PatchSet
  import opened PatchRegistry

  class ExternalKernel {
    /** The hooked members, by the equality of members. */
    var memberMapping: map<nat, CopyOnWriteSortedSet>

    ghost predicate Valid()
      reads this
    {
      forall j, k :: j in memberMapping && k in memberMapping && j != k ==> memberMapping[j] != memberMapping[k]
    }

    ghost function Sets(): map<nat, seq<Patch>>
      reads this, memberMapping.Values, set k | k in memberMapping :: memberMapping[k].elements
    {
      map k | k in memberMapping :: memberMapping[k].elements[..]
    }

    constructor ()
      ensures Valid() && memberMapping == map[] && Sets() == map[]
    {
      memberMapping := map[];
    }

    /** `hookMember` succeeds for a member that is not hooked yet. */
    method Hooked(m: Member) returns (hooked: CopyOnWriteSortedSet)
      requires Valid() && m.key !in memberMapping
      modifies this
      ensures Valid() && fresh(hooked) && memberMapping == old(memberMapping)[m.key := hooked]
      ensures Sets() == old(Sets())[m.key := []]
    {
      hooked := new CopyOnWriteSortedSet();
      memberMapping := memberMapping[m.key := hooked];
    }

    /** The patch goes into the set of a member that is hooked. */
    method AddTo(m: Member, p: Patch)
      requires Valid() && m.key in memberMapping
      modifies memberMapping[m.key]
      ensures Valid() && Sets() == old(Sets())[m.key := Added(old(Sets())[m.key], p)]
    {
      hide Added;
      var patches := memberMapping[m.key];
      var added := patches.Add(p);
    }

    method AddPatch(m: Member, p: Patch, hookable: bool) returns (ok: bool)
      requires Valid()
      modifies this, memberMapping.Values
      ensures Valid() && forall k :: k in memberMapping ==> k in old(memberMapping) || fresh(memberMapping[k])
      ensures forall k :: k in old(memberMapping) ==> k in memberMapping && memberMapping[k] == old(memberMapping[k])
      ensures ok == (m.key in old(memberMapping) || hookable)
      ensures !ok ==> Sets() == old(Sets())
      ensures ok ==> Sets() == WithPatch(old(Sets()), m.key, p)
    {
      hide Added;
      ghost var before := Sets();
      if m.key !in memberMapping {
        if !hookable { return false; }
        var hooked := Hooked(m);
      }
      ghost var sets := Sets();
      assert sets[m.key] == if m.key in before then before[m.key] else [];
      AddTo(m, p);
      assert Sets() == before[m.key := Added(sets[m.key], p)];
      return true;
    }

    method RemovePatch(m: Member, p: Patch)
      requires Valid()
      modifies memberMapping.Values
      ensures Valid() && memberMapping == old(memberMapping)
      ensures Sets() == if m.key in old(Sets()) then old(Sets())[m.key := Removed(old(Sets())[m.key], p)]
                        else old(Sets())
    {
      if m.key in memberMapping {
        var patches := memberMapping[m.key];
        var removed := patches.Remove(p);
      }
    }
  }

  /** What `patch` returns or throws. */
  datatype PatchResult = Id(id: nat) | IllegalArgument | PatchError

  class Patchwork {
    var count: nat
    var pairs: map<nat, (Member, Patch)>
    const kernel: ExternalKernel

    constructor (k: ExternalKernel)
      requires k.Valid() && k.memberMapping == map[]
      ensures kernel == k && count == 0 && pairs == map[] && View() == Empty
    {
      kernel := k;
      count, pairs := 0, map[];
    }

    ghost function View(): Registry
      reads this, kernel, kernel.memberMapping.Values,
            set k | k in kernel.memberMapping :: kernel.memberMapping[k].elements
    {
      Registry(count, pairs, kernel.Sets())
    }

    /** Look through `pairs` for the very same member and patch. */
    method FindPair(m: Member, p: Patch) returns (r: Option<nat>)
      ensures r.Some? ==> Registered(pairs, m, p, r.value)
      ensures r.None? ==> forall id :: !Registered(pairs, m, p, id)
    {
      var todo := pairs.Keys;
      while todo != {}
        invariant todo <= pairs.Keys
        invariant forall id :: id in pairs.Keys - todo ==> !Registered(pairs, m, p, id)
        decreases |todo|
      {
        var id :| id in todo;
        if pairs[id] == (m, p) { return Some(id); }
        todo := todo - {id};
      }
      return None;
    }

    /** A pair that is not registered yet. */
    method PatchPair(m: Member, p: Patch, hookable: bool) returns (r: Option<nat>)
      requires kernel.Valid()
      modifies this, kernel, kernel.memberMapping.Values
      ensures kernel.Valid()
      ensures (View(), r) == PatchNew(old(View()), m, p, hookable)
    {
      hide WithPatch;
      var ok := kernel.AddPatch(m, p, hookable);
      if !ok { return None; }
      ghost var sets := kernel.Sets();
      count := count + 1;
      pairs := pairs[count := (m, p)];
      assert kernel.Sets() == sets;
      return Some(count);
    }

    method Patch(member: Option<Member>, patch: Option<Patch>, hookable: bool) returns (r: PatchResult)
      requires kernel.Valid()
      modifies this, kernel, kernel.memberMapping.Values
      ensures kernel.Valid()
      ensures r.IllegalArgument? <==> member.None? || patch.None?
      ensures r.IllegalArgument? ==> View() == old(View())
      ensures member.Some? && patch.Some? && IsRegistered(old(View()), member.value, patch.value) ==>
                View() == old(View()) && r.Id? && Registered(old(View()).pairs, member.value, patch.value, r.id)
      ensures member.Some? && patch.Some? && !IsRegistered(old(View()), member.value, patch.value) ==>
                && View() == PatchNew(old(View()), member.value, patch.value, hookable).0
                && match PatchNew(old(View()), member.value, patch.value, hookable).1
                   case Some(id) => r == Id(id)
                   case None => r == PatchError
    {
      hide PatchNew;
      if member.None? || patch.None? { return IllegalArgument; }
      var found := FindPair(member.value, patch.value);
      if found.Some? {
        assert IsRegistered(View(), member.value, patch.value);
        return Id(found.value);
      }
      var id := PatchPair(member.value, patch.value, hookable);
      return if id.Some? then Id(id.value) else PatchError;
    }

    method RecoverId(id: int) returns (existed: bool)
      requires kernel.Valid()
      modifies this, kernel.memberMapping.Values
      ensures kernel.Valid()
      ensures (View(), existed) == Recover(old(View()), id)
    {
      if id < 0 || id !in pairs { return false; }
      var pair := pairs[id];
      pairs := pairs - {id};
      kernel.RemovePatch(pair.0, pair.1);
      return true;
    }
  }
}
