/**
 The patch registry over whole runs: the `pairs` that `Patchwork` remembers against the patch sets that the
 kernel keeps for each hooked member.

 Java members are compared in two ways: `pairs` is searched by identity, the kernel's map by `equals`.  A member
 here has an identity and a `key`; members are `equals` when their keys are.
 */
module PatchRegistry {
  import opened Common
  import opened PatchSet

  datatype Member = Member(identity: nat, key: nat)

  datatype Registry = Registry(count: nat, pairs: map<nat, (Member, Patch)>, sets: map<nat, seq<Patch>>)

  const Empty := Registry(0, map[], map[])

  // ----- the operations -----

  /** Some id under which the very pair is registered. */
  predicate Registered(pairs: map<nat, (Member, Patch)>, m: Member, p: Patch, id: nat) {
    id in pairs && pairs[id] == (m, p)
  }

  ghost predicate IsRegistered(r: Registry, m: Member, p: Patch) {
    exists id :: Registered(r.pairs, m, p, id)
  }

  /** `addPatch`: `None` when the member is not hooked yet and hooking throws. */
  function AddPatch(r: Registry, m: Member, p: Patch, hookable: bool): Option<Registry> {
    if m.key in r.sets || hookable then Some(r.(sets := WithPatch(r.sets, m.key, p))) else None
  }

  /** The patch added to the member's set; a member that was not hooked starts with an empty set. */
  function WithPatch(sets: map<nat, seq<Patch>>, k: nat, p: Patch): map<nat, seq<Patch>> {
    sets[k := Added(if k in sets then sets[k] else [], p)]
  }

  /** `patch` for a pair that is not registered: the registry afterwards and the new id, or an error. */
  function PatchNew(r: Registry, m: Member, p: Patch, hookable: bool): (Registry, Option<nat>) {
    match AddPatch(r, m, p, hookable)
    case None => (r, None)
    case Some(a) => (a.(count := r.count + 1, pairs := r.pairs[r.count + 1 := (m, p)]), Some(r.count + 1))
  }

  function RemovePatch(r: Registry, m: Member, p: Patch): Registry {
    if m.key in r.sets then r.(sets := r.sets[m.key := Removed(r.sets[m.key], p)]) else r
  }

  /** `recover`. */
  function Recover(r: Registry, id: int): (Registry, bool) {
    if id >= 0 && id in r.pairs
    then (RemovePatch(r.(pairs := r.pairs - {id}), r.pairs[id].0, r.pairs[id].1), true)
    else (r, false)
  }

  /** One call; `hookable` says whether hooking would succeed if it came to it. */
  datatype Call = Patching(m: Member, p: Patch, hookable: bool) | Recovering(id: int)

  /** The registry after a call, and the id that the call returned. */
  ghost function Step(r: Registry, c: Call): (Registry, Option<nat>) {
    match c
    case Patching(m, p, hookable) =>
      if id: nat :| Registered(r.pairs, m, p, id) then (r, Some(id)) else PatchNew(r, m, p, hookable)
    case Recovering(id) => (Recover(r, id).0, None)
  }

  /** The registry after a run of calls. */
  ghost function Run(r: Registry, calls: seq<Call>): Registry
    decreases |calls|
  {
    if calls == [] then r else Run(Step(r, calls[0]).0, calls[1..])
  }

  // ----- the invariant -----

  /** Id `id` stands for patch `p` on the members with key `k`. */
  predicate Names(pairs: map<nat, (Member, Patch)>, k: nat, p: Patch, id: nat) {
    id in pairs && pairs[id].0.key == k && pairs[id].1 == p
  }

  ghost predicate SetMatches(r: Registry, k: nat)
    requires k in r.sets
  {
    && Sorted(r.sets[k]) && Distinct(r.sets[k])
    && forall p :: p in r.sets[k] <==> exists id :: Names(r.pairs, k, p, id)
  }

  /** Live ids were issued, no two stand for the same thing, and every set is exactly the patches paired with it. */
  ghost predicate Consistent(r: Registry) {
    && (forall id :: id in r.pairs ==> 1 <= id <= r.count && r.pairs[id].0.key in r.sets)
    && (forall a, b, k, p :: Names(r.pairs, k, p, a) && Names(r.pairs, k, p, b) ==> a == b)
    && (forall k :: k in r.sets ==> SetMatches(r, k))
  }

  /** The patch is registered on an equal member that is another object. */
  ghost predicate Aliased(r: Registry, m: Member, p: Patch) {
    exists id :: Names(r.pairs, m.key, p, id) && r.pairs[id].0 != m
  }

  // ----- one call -----

  lemma {:induction false} RegisteredNames(r: Registry, m: Member, p: Patch, id: nat)
    requires Consistent(r) && Registered(r.pairs, m, p, id)
    ensures Names(r.pairs, m.key, p, id) && !Aliased(r, m, p)
    ensures forall other :: Registered(r.pairs, m, p, other) ==> other == id
  {
    assert Names(r.pairs, m.key, p, id);
    forall other | Names(r.pairs, m.key, p, other)
      ensures other == id
    {}
    forall other | Registered(r.pairs, m, p, other)
      ensures other == id
    {
      assert Names(r.pairs, m.key, p, other);
    }
  }

  /** Patching a live pair again returns its id and changes nothing. */
  lemma {:induction false} RepatchReturnsOldId(r: Registry, m: Member, p: Patch, id: nat, hookable: bool)
    requires Consistent(r) && Registered(r.pairs, m, p, id)
    ensures Step(r, Patching(m, p, hookable)) == (r, Some(id))
  {
    RegisteredNames(r, m, p, id);
  }

  lemma {:induction false} NotRegistered(r: Registry, m: Member, p: Patch)
    requires !IsRegistered(r, m, p) && !Aliased(r, m, p)
    ensures forall id :: !Names(r.pairs, m.key, p, id)
  {
    forall id
      ensures !Names(r.pairs, m.key, p, id)
    {
      if Names(r.pairs, m.key, p, id) {
        assert r.pairs[id].0 == m;
        assert Registered(r.pairs, m, p, id);
      }
    }
  }

  /** What a new pair changes in the names. */
  lemma {:induction false} NewNames(r: Registry, m: Member, p: Patch)
    requires forall id :: id in r.pairs ==> id <= r.count
    ensures forall k, q, id :: Names(r.pairs[r.count + 1 := (m, p)], k, q, id) <==>
              Names(r.pairs, k, q, id) || (id == r.count + 1 && k == m.key && q == p)
  {
    var after := r.pairs[r.count + 1 := (m, p)];
    forall k, q, id
      ensures Names(after, k, q, id) <==> Names(r.pairs, k, q, id) || (id == r.count + 1 && k == m.key && q == p)
    {
      if id == r.count + 1 {
        assert id !in r.pairs && after[id] == (m, p);
      } else {
        assert id in after <==> id in r.pairs;
        assert id in r.pairs ==> after[id] == r.pairs[id];
      }
    }
  }

  lemma {:induction false} PatchNewKeeps(r: Registry, m: Member, p: Patch, hookable: bool)
    requires Consistent(r) && !IsRegistered(r, m, p) && !Aliased(r, m, p)
    ensures Consistent(PatchNew(r, m, p, hookable).0)
  {
    var a := PatchNew(r, m, p, hookable).0;
    if AddPatch(r, m, p, hookable).Some? {
      NotRegistered(r, m, p);
      NewNames(r, m, p);
      forall x, y, k, q | Names(a.pairs, k, q, x) && Names(a.pairs, k, q, y)
        ensures x == y
      {
        assert Names(r.pairs, k, q, x) || (x == r.count + 1 && k == m.key && q == p);
        assert Names(r.pairs, k, q, y) || (y == r.count + 1 && k == m.key && q == p);
      }
      forall id | id in a.pairs
        ensures 1 <= id <= a.count && a.pairs[id].0.key in a.sets
      {
        if id != r.count + 1 { assert id in r.pairs; }
      }
      forall k | k in a.sets
        ensures SetMatches(a, k)
      {
        PatchNewSet(r, m, p, a, k);
      }
    }
  }

  /** Every set after a new pair. */
  lemma {:induction false} PatchNewSet(r: Registry, m: Member, p: Patch, a: Registry, k: nat)
    requires Consistent(r) && k in a.sets && a.pairs == r.pairs[r.count + 1 := (m, p)]
    requires k != m.key ==> k in r.sets && a.sets[k] == r.sets[k]
    requires k == m.key ==> a.sets[k] == Added(if k in r.sets then r.sets[k] else [], p)
    ensures SetMatches(a, k)
  {
    var s := if k in r.sets then r.sets[k] else [];
    NewNames(r, m, p);
    SetStart(r, k);
    AddRemoveKeep(s, p);
    hide Added, Sorted, Distinct, Consistent, Names;
    assert Names(a.pairs, m.key, p, r.count + 1);
    forall q
      ensures q in a.sets[k] <==> exists id :: Names(a.pairs, k, q, id)
    {
      if id :| Names(r.pairs, k, q, id) { assert Names(a.pairs, k, q, id); }
      if id :| Names(a.pairs, k, q, id) { assert id == r.count + 1 || Names(r.pairs, k, q, id); }
    }
  }

  lemma {:induction false} SetStart(r: Registry, k: nat)
    requires Consistent(r)
    ensures var s := if k in r.sets then r.sets[k] else [];
            Sorted(s) && Distinct(s) && forall q :: q in s <==> exists id :: Names(r.pairs, k, q, id)
  {
    if k !in r.sets {
      forall q, id
        ensures !Names(r.pairs, k, q, id)
      {}
    } else {
      assert SetMatches(r, k);
    }
  }

  /** A second object for the same member makes the registry inconsistent. */
  lemma {:induction false} AliasBreaks(r: Registry, m: Member, p: Patch, hookable: bool)
    requires Consistent(r) && Aliased(r, m, p)
    ensures !IsRegistered(r, m, p) && !Consistent(Step(r, Patching(m, p, hookable)).0)
  {
    var id :| Names(r.pairs, m.key, p, id) && r.pairs[id].0 != m;
    if other :| Registered(r.pairs, m, p, other) { RegisteredNames(r, m, p, other); }
    var a := PatchNew(r, m, p, hookable).0;
    NewNames(r, m, p);
    assert Names(a.pairs, m.key, p, id) && Names(a.pairs, m.key, p, r.count + 1);
  }

  /** A `patch` call keeps the registry consistent exactly when the pair is not registered through another object
      for the same member; failing hooks included. */
  lemma {:induction false} PatchKeepsConsistent(r: Registry, m: Member, p: Patch, hookable: bool)
    requires Consistent(r)
    ensures Consistent(Step(r, Patching(m, p, hookable)).0) <==> !Aliased(r, m, p)
  {
    if Aliased(r, m, p) {
      AliasBreaks(r, m, p, hookable);
    } else if IsRegistered(r, m, p) {
      var id :| Registered(r.pairs, m, p, id);
      RepatchReturnsOldId(r, m, p, id, hookable);
    } else {
      PatchNewKeeps(r, m, p, hookable);
    }
  }

  /** A `recover` call always does. */
  lemma {:induction false} RecoverKeepsConsistent(r: Registry, id: int)
    requires Consistent(r)
    ensures Consistent(Recover(r, id).0)
  {
    hide Removed, Sorted, Distinct;
    if id >= 0 && id in r.pairs {
      var a, m, p := Recover(r, id).0, r.pairs[id].0, r.pairs[id].1;
      assert Names(r.pairs, m.key, p, id);
      assert SetMatches(r, m.key);
      AddRemoveKeep(r.sets[m.key], p);
      assert forall k, q, other :: Names(a.pairs, k, q, other) <==> Names(r.pairs, k, q, other) && other != id;
      forall k | k in a.sets
        ensures SetMatches(a, k)
      {
        assert SetMatches(r, k);
        forall q
          ensures q in a.sets[k] <==> exists other :: Names(a.pairs, k, q, other)
        {
          if other :| Names(r.pairs, k, q, other) {
            if k != m.key || q != p { assert Names(a.pairs, k, q, other); }
          }
        }
      }
    }
  }

  // ----- whole runs -----

  /** No two members are equal without being the same object. */
  ghost predicate Canonical(members: iset<Member>) {
    forall a, b :: a in members && b in members && a.key == b.key ==> a == b
  }

  ghost predicate Uses(calls: seq<Call>, members: iset<Member>) {
    forall i :: 0 <= i < |calls| && calls[i].Patching? ==> calls[i].m in members
  }

  ghost predicate Holds(r: Registry, members: iset<Member>) {
    forall id :: id in r.pairs ==> r.pairs[id].0 in members
  }

  // ----- what one call does -----

  /** `patch` for a new pair: an error, without change, if and only if the member is not hooked and cannot be;
      otherwise the next id stands for the pair, the member's set gets the patch, and all else is as before. */
  lemma {:induction false} PatchEffect(r: Registry, m: Member, p: Patch, hookable: bool)
    requires Consistent(r) && !IsRegistered(r, m, p)
    ensures Step(r, Patching(m, p, hookable)) == PatchNew(r, m, p, hookable)
    ensures var (a, id) := PatchNew(r, m, p, hookable);
            && (id.None? <==> m.key !in r.sets && !hookable) && (id.None? ==> a == r)
            && (id.Some? ==>
                  && id.value == a.count == r.count + 1
                  && a.pairs.Keys == r.pairs.Keys + {r.count + 1} && a.pairs[r.count + 1] == (m, p)
                  && (forall x :: x in r.pairs ==> a.pairs[x] == r.pairs[x])
                  && a.sets.Keys == r.sets.Keys + {m.key}
                  && (forall k :: k in r.sets && k != m.key ==> a.sets[k] == r.sets[k])
                  && forall q :: q in a.sets[m.key] <==> q == p || (m.key in r.sets && q in r.sets[m.key]))
  {
    SetStart(r, m.key);
    AddRemoveKeep(if m.key in r.sets then r.sets[m.key] else [], p);
    hide Added, Sorted, Distinct;
    assert forall x :: x in r.pairs ==> x != r.count + 1;
  }

  /** `recover`: true exactly for a live id, which is then gone; its patch leaves the member's set, and all else is as
      before. */
  lemma {:induction false} RecoverEffect(r: Registry, id: int)
    requires Consistent(r)
    ensures var (a, existed) := Recover(r, id);
            && (existed <==> id >= 0 && id in r.pairs) && (!existed ==> a == r)
            && (existed ==>
                  && a.count == r.count && a.pairs.Keys == r.pairs.Keys - {id}
                  && (forall x :: x in a.pairs ==> a.pairs[x] == r.pairs[x])
                  && a.sets.Keys == r.sets.Keys && r.pairs[id].0.key in r.sets
                  && (forall k :: k in r.sets && k != r.pairs[id].0.key ==> a.sets[k] == r.sets[k])
                  && forall q :: q in a.sets[r.pairs[id].0.key] <==>
                       q in r.sets[r.pairs[id].0.key] && q != r.pairs[id].1)
  {
    if id >= 0 && id in r.pairs {
      SetStart(r, r.pairs[id].0.key);
      AddRemoveKeep(r.sets[r.pairs[id].0.key], r.pairs[id].1);
      hide Removed, Sorted, Distinct;
    }
  }

  /** Over every run of calls on members with one object each, the registry stays consistent. */
  lemma {:induction false} RunKeepsConsistent(r: Registry, calls: seq<Call>, members: iset<Member>)
    requires Consistent(r) && Canonical(members) && Uses(calls, members) && Holds(r, members)
    ensures Consistent(Run(r, calls))
    decreases |calls|
  {
    if calls != [] {
      var a := Step(r, calls[0]).0;
      match calls[0] {
        case Patching(m, p, hookable) => PatchKeepsConsistent(r, m, p, hookable);
        case Recovering(id) => RecoverKeepsConsistent(r, id);
      }
      hide Consistent;
      RunKeepsConsistent(a, calls[1..], members);
    }
  }

  lemma {:induction false} EmptyConsistent()
    ensures Consistent(Empty)
  {}

  /** From the start: after any run of calls on members with one object each. */
  lemma {:induction false} RunFromStartConsistent(calls: seq<Call>, members: iset<Member>)
    requires Canonical(members) && Uses(calls, members)
    ensures Consistent(Run(Empty, calls))
  {
    hide Consistent, Canonical, Uses;
    EmptyConsistent();
    RunKeepsConsistent(Empty, calls, members);
  }

  /** The ids that the calls of a run issue. */
  ghost function Issued(r: Registry, calls: seq<Call>): seq<nat>
    decreases |calls|
  {
    if calls == [] then [] else
      var (a, id) := Step(r, calls[0]);
      (if a.count > r.count then [a.count] else []) + Issued(a, calls[1..])
  }

  ghost predicate IncreasingFrom(ids: seq<nat>, low: nat) {
    && (forall i :: 0 <= i < |ids| ==> ids[i] > low)
    && (forall i, j :: 0 <= i < j < |ids| ==> ids[i] < ids[j])
  }

  /** Ids are issued in increasing order, so none is ever used again, whatever is recovered in between. */
  lemma {:induction false} IdsIncrease(r: Registry, calls: seq<Call>)
    ensures IncreasingFrom(Issued(r, calls), r.count)
    decreases |calls|
  {
    if calls != [] {
      var a := Step(r, calls[0]).0;
      assert r.count <= a.count;
      IdsIncrease(a, calls[1..]);
    }
  }

  /** The keys whose members are hooked successfully during a run. */
  ghost function Hooked(r: Registry, calls: seq<Call>): seq<nat>
    decreases |calls|
  {
    if calls == [] then [] else
      var a := Step(r, calls[0]).0;
      (if calls[0].Patching? && calls[0].m.key !in r.sets && calls[0].m.key in a.sets then [calls[0].m.key] else [])
      + Hooked(a, calls[1..])
  }

  ghost predicate NewOnce(keys: seq<nat>, known: set<nat>) {
    && (forall i :: 0 <= i < |keys| ==> keys[i] !in known)
    && (forall i, j :: 0 <= i < j < |keys| ==> keys[i] != keys[j])
  }

  /** Every member is hooked at most once. */
  lemma {:induction false} HookedOnce(r: Registry, calls: seq<Call>)
    ensures NewOnce(Hooked(r, calls), r.sets.Keys)
    decreases |calls|
  {
    if calls != [] {
      var a := Step(r, calls[0]).0;
      assert r.sets.Keys <= a.sets.Keys;
      HookedOnce(a, calls[1..]);
    }
  }

  // ----- undoing -----

  lemma {:induction false} InsertThenRemove(s: seq<Patch>, e: Patch)
    requires e !in s
    ensures Removed(Insert(s, e), e) == s
  {
    InsertShape(s, e);
  }

  /** Inserting puts the element somewhere and leaves the rest in order. */
  lemma {:induction false} InsertShape(s: seq<Patch>, e: Patch)
    requires e !in s
    ensures exists i :: 0 <= i <= |s| && Insert(s, e) == s[..i] + [e] + s[i..] && IndexOf(Insert(s, e), e) == i
  {
    if s == [] || AtMost(s[|s| - 1], e) {
      assert Insert(s, e) == s[..|s|] + [e] + s[|s|..];
      FirstIndex(s, e, []);
    } else {
      var front := s[..|s| - 1];
      InsertShape(front, e);
      var i :| && 0 <= i <= |front| && Insert(front, e) == front[..i] + [e] + front[i..]
               && IndexOf(Insert(front, e), e) == i;
      assert s[..i] == front[..i] && s[i..] == front[i..] + [s[|s| - 1]];
      assert Insert(s, e) == s[..i] + [e] + s[i..];
      FirstIndex(s[..i], e, s[i..]);
    }
  }

  lemma {:induction false} FirstIndex(a: seq<Patch>, e: Patch, b: seq<Patch>)
    requires e !in a
    ensures IndexOf(a + [e] + b, e) == |a|
  {
    hide IndexOf;
    var s := a + [e] + b;
    assert s[|a|] == e;
    assert forall k :: 0 <= k < |a| ==> s[k] == a[k];
    assert forall k :: |a| < k <= |s| ==> s[..k][|a|] == e;
  }

  /** Recovering a fresh patch restores the pairs and the member's set; a member hooked for it stays hooked. */
  lemma {:induction false} PatchThenRecover(r: Registry, m: Member, p: Patch, hookable: bool)
    requires Consistent(r) && !IsRegistered(r, m, p) && !Aliased(r, m, p)
    requires PatchNew(r, m, p, hookable).1.Some?
    ensures var (a, id) := PatchNew(r, m, p, hookable);
            var b := Recover(a, id.value).0;
            && b.pairs == r.pairs
            && b.sets == (if m.key in r.sets then r.sets else r.sets[m.key := []])
  {
    hide IndexOf, Insert, SetMatches, Removed;
    var s := if m.key in r.sets then r.sets[m.key] else [];
    SetStart(r, m.key);
    NotRegistered(r, m, p);
    assert p !in s;
    InsertThenRemove(s, p);
    assert (r.count + 1) !in r.pairs;
    var b := Recover(PatchNew(r, m, p, hookable).0, r.count + 1).0;
    assert b.sets[m.key] == s;
  }

  /** The same member reached through two objects: after the first id is recovered, the second is still live but its
      patch is gone from the member's set. */
  lemma {:induction false} AliasExample(p: Patch)
    ensures var m1, m2 := Member(1, 7), Member(2, 7);
            var r := Run(Empty, [Patching(m1, p, true), Patching(m2, p, true), Recovering(1)]);
            r.pairs == map[2 := (m2, p)] && r.sets == map[7 := []]
  {
    var m1, m2 := Member(1, 7), Member(2, 7);
    assert Added([], p) == [p] && Added([p], p) == [p];
    var r1 := PatchNew(Empty, m1, p, true).0;
    assert r1 == Registry(1, map[1 := (m1, p)], map[7 := [p]]);
    var r2 := PatchNew(r1, m2, p, true).0;
    assert r2 == Registry(2, map[1 := (m1, p), 2 := (m2, p)], map[7 := [p]]);
    var r3 := Recover(r2, 1).0;
    assert Removed([p], p) == [];
    assert r3.pairs == map[2 := (m2, p)];
    var calls := [Patching(m1, p, true), Patching(m2, p, true), Recovering(1)];
    assert Step(Empty, calls[0]).0 == r1;
    assert Step(r1, calls[1]).0 == r2;
    assert calls[1..][1..] == [calls[2]] && calls[1..][0] == calls[1] && [calls[2]][1..] == [];
    assert Run(Empty, calls) == Run(r1, calls[1..]) == Run(r2, [calls[2]]) == Run(r3, []);
  }
}
