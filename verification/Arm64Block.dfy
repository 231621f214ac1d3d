/**
 Whole blocks: from any instruction of the block, the relocated code leaves at the same address and in
 the same state as the original.
 */
module Arm64Block {
  import opened Arm64Machine
  import opened Arm64Relocator
  import opened Arm64Layout
  import opened Arm64Simulation

  /** The bytes of `n` words at `base` are private. */
  ghost predicate Covers(private: iset<bv64>, base: bv64, n: nat) {
    forall i :: 0 <= i < n ==> WordInside(private, Place(base, i))
  }

  ghost predicate WordInside(private: iset<bv64>, a: bv64) {
    a in private && a + 1 in private && a + 2 in private && a + 3 in private
  }

  lemma {:induction false} WordKept<R>(c: Core<R>, d: Core<R>, private: iset<bv64>, a: bv64)
    requires WordInside(private, a) && Untouched(c, d, private)
    ensures Load32(d.mem, a) == Load32(c.mem, a)
  {}

  lemma {:induction false} HoldsKept<R>(c: Core<R>, d: Core<R>, private: iset<bv64>, base: bv64, words: seq<bv32>)
    requires Covers(private, base, |words|) && Untouched(c, d, private) && Holds(c.mem, base, words)
    ensures Holds(d.mem, base, words)
  {
    hide Load32, Place, WordInside, Untouched;
    forall i | 0 <= i < |words|
      ensures Load32(d.mem, Place(base, i)) == words[i]
    {
      WordKept(c, d, private, Place(base, i));
    }
  }

  /** The guard holds of every instruction that the original executes from index `k` on, up to the first
      transfer of control. */
  ghost predicate GuardedRun<R(!new)>(sem: Semantics<R>, block: seq<bv32>, org: bv64, k: nat, c: Core<R>,
                                      private: iset<bv64>)
    requires k <= |block|
    decreases |block| - k
  {
    k < |block| ==>
      && Guard(sem, block[k], Place(org, k), c, private)
      && var e := Execute(sem, block[k], Place(org, k), c);
         e.Next? ==> GuardedRun(sem, block, org, k + 1, e.core, private)
  }

  /** Where the image of instruction `k` starts. */
  function Image(block: seq<bv32>, org: bv64, base: bv64, k: nat): bv64
    requires k <= |block|
  {
    Place(base, |Body(block, org, k)|)
  }

  /** The two machines hold their code, agree, and stand at instruction `k` and at its image. */
  ghost predicate Matched<R>(block: seq<bv32>, org: bv64, base: bv64, private: iset<bv64>, k: nat,
                             s: State<R>, t: State<R>)
    requires k <= |block|
  {
    && s.pc == Place(org, k) && t.pc == Image(block, org, base, k) && Agree(s.core, t.core, private)
    && Holds(s.core.mem, org, block) && Holds(t.core.mem, base, Relocated(block, org))
    && Covers(private, org, |block|) && Covers(private, base, |Relocated(block, org)|)
  }

  /** The two machines have left at the same address.  Either they agree, or the last instruction linked, and
      then LR holds the address of instruction `j` on one side and of its image on the other. */
  ghost predicate LeftTogether<R>(block: seq<bv32>, org: bv64, base: bv64, private: iset<bv64>, j: nat,
                                  s: State<R>, t: State<R>)
    requires j <= |block|
  {
    && s.pc == t.pc
    && (|| Agree(s.core, t.core, private)
        || (&& AgreeButLink(s.core, t.core, private)
            && s.core.x(30) == Place(org, j) && t.core.x(30) == Image(block, org, base, j)))
  }

  lemma {:induction false} RunSum<R>(sem: Semantics<R>, s: State<R>, m: nat, n: nat)
    ensures Run(sem, s, m + n) == Run(sem, Run(sem, s, m), n)
    decreases m
  {
    hide Step;
    if m > 0 { RunSum(sem, Step(sem, s), m - 1, n); }
  }

  /** The jump back goes to the address after the block. */
  lemma {:induction false} JumpBackRuns<R>(
      sem: Semantics<R>, block: seq<bv32>, org: bv64, base: bv64, private: iset<bv64>, s: State<R>, t: State<R>)
    requires |Relocated(block, org)| < 0x40000 && Matched(block, org, base, private, |block|, s, t)
    ensures LeftTogether(block, org, base, private, |block|, s, Run(sem, t, 2))
  {
    hide Relocated, Body, Place, LinkedIn, LdrLabelWord, BrWord, Run, Agree, AgreeButLink, Covers;
    JumpBackStands(block, org);
    var at := |Body(block, org, |block|)|;
    LiteralBranches(sem, t, base, Relocated(block, org), at, false, Place(org, |block|));
    ScratchAgrees(s.core, t.core, Place(org, |block|), 0, private);
  }

  /** One instruction of a matched pair: both machines move on to the next instruction, or leave together. */
  lemma {:induction false} InstructionMatches<R(!new)>(
      sem: Semantics<R>, block: seq<bv32>, org: bv64, base: bv64, private: iset<bv64>, k: nat, s: State<R>,
      t: State<R>)
    returns (m: nat)
    requires k < |block| && |Relocated(block, org)| < 0x40000 && Matched(block, org, base, private, k, s, t)
    requires Guard(sem, block[k], Place(org, k), s.core, private)
    ensures var e := Execute(sem, block[k], Place(org, k), s.core);
            && Step(sem, s) == Commit(s.pc, e)
            && (if e.Next? then Matched(block, org, base, private, k + 1, Step(sem, s), Run(sem, t, m))
                else LeftTogether(block, org, base, private, k + 1, Step(sem, s), Run(sem, t, m)))
  {
    hide Relocated, Body, Place, Run, Guard, Execute, Relocate, PieceIn, Agree, AgreeButLink, Covers, Untouched, Holds;
    hide Step, WriteX, Plus;
    var w, pc, c, at := block[k], Place(org, k), s.core, |Body(block, org, k)|;
    var code := Relocated(block, org);
    PieceStands(block, org, k);
    PieceShape(w, pc);
    RelocatedSize(block, org, k);
    m := PieceSimulates(sem, w, pc, c, t, base, code, at, private);
    StepAt(sem, s, org, block, k);
    var e := Execute(sem, w, pc, c);
    HoldsKept(t.core, Run(sem, t, m).core, private, base, code);
    HoldsKept(c, e.core, private, org, block);
    NextPlace(org, k);
    if e.Call? { LinkedAgree(e.core, Run(sem, t, m).core, Place(org, k + 1), private); }
  }

  lemma {:induction false} LinkedAgree<R>(c: Core<R>, d: Core<R>, lr: bv64, private: iset<bv64>)
    requires AgreeButLink(c, d, private)
    ensures AgreeButLink(WriteX(c, 30, lr), d, private) && WriteX(c, 30, lr).x(30) == lr
  {}

  /** The main result.  From any instruction `k`, after `n` steps of the original that all stay in the block and
      `m` steps of the relocated code, both have left at the same address and agree.  The original left either
      off the end of the block or by its last executed instruction. */
  lemma {:induction false} BlockSimulates<R(!new)>(
      sem: Semantics<R>, block: seq<bv32>, org: bv64, base: bv64, private: iset<bv64>, k: nat, s: State<R>,
      t: State<R>)
      returns (n: nat, m: nat)
    requires k <= |block| && |Relocated(block, org)| < 0x40000 && Matched(block, org, base, private, k, s, t)
    requires GuardedRun(sem, block, org, k, s.core, private)
    ensures k + n <= |block|
    ensures forall j :: 0 <= j < n ==> Run(sem, s, j).pc == Place(org, k + j)
    ensures LeftTogether(block, org, base, private, k + n, Run(sem, s, n), Run(sem, t, m))
    ensures || (k + n == |block| && Run(sem, s, n).pc == Place(org, |block|))
            || (0 < n && !Execute(sem, block[k + n - 1], Place(org, k + n - 1), Run(sem, s, n - 1).core).Next?)
    decreases |block| - k
  {
    hide Relocated, Place, Guard, Execute, Relocate, Matched, LeftTogether, Step;
    if k == |block| {
      n, m := 0, 2;
      JumpBackRuns(sem, block, org, base, private, s, t);
      MatchedPc(block, org, base, private, k, s, t);
    } else {
      var m1 := InstructionMatches(sem, block, org, base, private, k, s, t);
      var e := Execute(sem, block[k], Place(org, k), s.core);
      var s1, t1 := Step(sem, s), Run(sem, t, m1);
      MatchedPc(block, org, base, private, k, s, t);
      if e.Next? {
        var n2, m2 := BlockSimulates(sem, block, org, base, private, k + 1, s1, t1);
        n, m := n2 + 1, m1 + m2;
        RunSum(sem, t, m1, m2);
        forall j | 0 <= j < n
          ensures Run(sem, s, j).pc == Place(org, k + j)
        {
          if j > 0 { assert Run(sem, s, j) == Run(sem, s1, j - 1); }
        }
      } else {
        n, m := 1, m1;
        RunMore(sem, s, 0);
      }
    }
  }

  lemma {:induction false} MatchedPc<R>(
      block: seq<bv32>, org: bv64, base: bv64, private: iset<bv64>, k: nat, s: State<R>, t: State<R>)
    requires k <= |block| && Matched(block, org, base, private, k, s, t)
    ensures s.pc == Place(org, k)
  {
    hide Place;
  }

  /** A block in which every instruction passes the guard in some state is not refused. */
  lemma {:induction false} GuardedNotRefused<R(!new)>(
      sem: Semantics<R>, block: seq<bv32>, org: bv64, cores: seq<Core<R>>, private: iset<bv64>)
    requires |cores| == |block|
    requires forall i :: 0 <= i < |block| ==> Guard(sem, block[i], Place(org, i), cores[i], private)
    ensures forall i :: 0 <= i < |block| ==> !(Decode(block[i]).LoadLiteral? && Decode(block[i]).opc >= 2)
  {
    hide Decode, Place, CopySafe, DoubleWordOutside, WordLoadGuard, IsCondBranch;
  }
}
