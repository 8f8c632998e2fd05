/** From the jumps that the first pass found to the flags that every instruction must compute: the
    resolution of the jumps and the flag analysis on one block (src/dynarec/dynarec_arm.c:496-555). */
module MiddleEnd {
  import opened X86Flags
  import opened FlagNeed
  import opened FlowGraph
  import opened FlagFlow
  import opened JumpTargets
  import opened Translator

  /** The places in the array at which the first pass noted a jump. Every jump of the block is
      among them; so may be jumps of instructions behind the block, which were given up again. */
  ghost predicate Noted(s: seq<Inst>, size: nat, jmps: seq<int>) {
    && size < |s| && (forall x | 0 <= x < |jmps| :: 0 <= jmps[x] < |s|)
    && forall i | 0 <= i < size && s[i].jmp != 0 :: Seen(jmps, |jmps|, i)
  }

  /** Resolution makes the flow graph: every jump leaves the block or has its target in it. */
  lemma ResolvedTargets(s: seq<Inst>, t: seq<Inst>, size: nat, jmps: seq<int>, start: nat, end: nat)
    requires Noted(s, size, jmps) && Resolved(s, t, size, jmps, |jmps|, start, end)
    ensures Targets(t[..size + 1])
    ensures forall i, j | 0 <= i < size && s[i].jmp != 0 :: Jumps(t[i]) && t[i].jmpInsts == j ==>
              0 <= j < size && s[j].addr == s[i].jmp
  {
    hide Seen, Entered;
    forall i | 0 <= i < size && s[i].jmp != 0
      ensures t[i].jmp == s[i].jmp
      ensures t[i].jmpInsts == -1 || (0 <= t[i].jmpInsts < size && s[t[i].jmpInsts].addr == s[i].jmp)
    {
      assert ResolvedAt(s, t[i], size, jmps, |jmps|, start, end, i);
    }
    forall i | 0 <= i < size ensures t[i].jmp == s[i].jmp {
      assert ResolvedAt(s, t[i], size, jmps, |jmps|, start, end, i);
    }
  }

  /** Where a jump of the block leads in the end: to the instruction at its target address, the first
      one included, if that is another one of the block. All flags are asked for behind it exactly
      when it goes out of the address range of the block, or to itself; one into the middle of an
      instruction leads nowhere, and asks for nothing. */
  lemma JumpOutcome(s: seq<Inst>, t: seq<Inst>, size: nat, isize: nat, jmps: seq<int>, start: nat, end: nat, i: int)
    requires Noted(s, size, jmps) && Resolved(s, t, size, jmps, |jmps|, start, end) && Ascending(s, size, isize)
    requires start == s[0].addr && (forall j | 0 <= j < size :: s[j].addr < end) && 0 <= i < size && s[i].jmp != 0
    ensures forall j | 0 <= j < size && j != i && s[j].addr == s[i].jmp :: t[i].jmpInsts == j
    ensures t[i].jmpInsts == -1 <==> forall j | 0 <= j < size && j != i :: s[j].addr != s[i].jmp
    ensures t[i].needAfter == if start <= s[i].jmp < end && s[i].jmp != s[i].addr then s[i].needAfter
                              else s[i].needAfter | X_PEND
  {
    hide Entered;
    assert Seen(jmps, |jmps|, i) && ResolvedAt(s, t[i], size, jmps, |jmps|, start, end, i);
    assert s[0].addr <= s[i].addr;
    forall j | 0 <= j < size ensures start <= s[j].addr && (j != i ==> s[j].addr != s[i].addr) {}
  }

  /** Which instructions get a full barrier: just those that a noted jump of another instruction
      goes to, unless that one is marked as needing none. */
  lemma BarrierOutcome(s: seq<Inst>, t: seq<Inst>, size: nat, isize: nat, jmps: seq<int>, start: nat, end: nat, j: int)
    requires Noted(s, size, jmps) && Resolved(s, t, size, jmps, |jmps|, start, end) && Ascending(s, size, isize)
    requires start == s[0].addr && (forall i | 0 <= i < size :: s[i].addr < end) && 0 <= j < size
    ensures t[j].flags.barrier ==
            if exists x ::
              0 <= x < |jmps| && s[jmps[x]].jmp == s[j].addr && s[jmps[x]].addr != s[j].addr && !s[jmps[x]].barrierMaybe
            then s[j].flags.barrier | 3 else s[j].flags.barrier
  {
    assert ResolvedAt(s, t[j], size, jmps, |jmps|, start, end, j);
    assert s[0].addr <= s[j].addr;
    if x :| 0 <= x < |jmps| && s[jmps[x]].jmp == s[j].addr && s[jmps[x]].addr != s[j].addr && !s[jmps[x]].barrierMaybe {
      assert Entered(s, size, jmps, |jmps|, start, end, j);
    }
    hide ResolvesTo, Seen;
  }

  /** Instruction x jumps to itself. */
  predicate Loops(x: Inst) {
    x.jmp == x.addr
  }

  /** A jump that was given up with its instruction loops on itself. */
  ghost predicate GivenUpLoop(s: seq<Inst>, size: nat, jmps: seq<int>) {
    exists x :: 0 <= x < |jmps| && size <= jmps[x] < |s| && Loops(s[jmps[x]])
  }

  /** The block is to be tested always when one of its instructions jumps to itself; and, although
      none does, exactly when one that was given up did. */
  lemma AlwaysTestIs(s: seq<Inst>, size: nat, jmps: seq<int>)
    requires Noted(s, size, jmps) && forall i | 0 <= i < size :: s[i].addr != 0
    ensures (exists x :: 0 <= x < |jmps| && Loops(s[jmps[x]])) <==>
            (exists i :: 0 <= i < size && Loops(s[i])) || GivenUpLoop(s, size, jmps)
  {
    if i :| 0 <= i < size && Loops(s[i]) {
      assert Seen(jmps, |jmps|, i);
      var x :| 0 <= x < |jmps| && jmps[x] == i;
      assert Loops(s[jmps[x]]);
    }
    if x :| 0 <= x < |jmps| && Loops(s[jmps[x]]) {
      assert jmps[x] < size ==> Loops(s[jmps[x]]);
    }
  }

  function Plain(addr: nat, jmp: nat): Inst {
    Inst(addr, jmp, 0, false, false, false, FlagUse(0, 0, 0, false, 0), 0, 0, 0, 0, 0)
  }

  /** An input: the block is a conditional jump and a return. Behind it the first pass had gone on
      over a nop and a jump to itself, up to which it gave up. No instruction of the block jumps to
      itself, and the block is always tested. */
  method SpuriousAlwaysTest() returns (insts: array<Inst>, alwaysTest: bool)
    ensures insts.Length == 4 && alwaysTest && forall i | 0 <= i < 2 :: !Loops(insts[i])
  {
    var s := [Plain(0x1000, 0x1010), Plain(0x1002, 0), Plain(0x1003, 0), Plain(0x1004, 0x1004)];
    insts := new Inst[4](i requires 0 <= i < 4 => s[i]);
    assert insts[..] == s;
    var jmps := [0, 3];
    assert insts[jmps[1]].jmp == insts[jmps[1]].addr;
    alwaysTest := ResolveJumps(insts, 2, 3, jmps, 0x1000, 0x1003);
    SameJump(s, insts[..], 2, jmps, |jmps|, 0x1000, 0x1003, 0);
    SameJump(s, insts[..], 2, jmps, |jmps|, 0x1000, 0x1003, 1);
  }

  /** What the analysis of a block has not touched yet. */
  ghost predicate Untouched(s: seq<Inst>) {
    |s| >= 1 && s[|s| - 1].pred == 0 && forall k | 0 <= k < |s| ::
      !s[k].alive && s[k].predSz == 0 && s[k].needBefore == 0
  }

  lemma StillUntouched(s: seq<Inst>, t: seq<Inst>, size: nat, jmps: seq<int>, start: nat, end: nat)
    requires Noted(s, size, jmps) && Resolved(s, t, size, jmps, |jmps|, start, end) && Untouched(s[..size + 1])
    ensures Untouched(t[..size + 1])
  {
    hide Seen, Entered, ResolvesTo;
    forall k | 0 <= k <= size
      ensures !t[k].alive && t[k].predSz == 0 && t[k].needBefore == 0 && t[k].pred == s[k].pred
    {
      assert ResolvedAt(s, t[k], size, jmps, |jmps|, start, end, k);
      assert s[..size + 1][k] == s[k];
    }
  }

  lemma StillRegular(s: seq<Inst>, t: seq<Inst>, size: nat, jmps: seq<int>, start: nat, end: nat)
    requires Noted(s, size, jmps) && Resolved(s, t, size, jmps, |jmps|, start, end)
    requires forall k | 0 <= k <= size :: RegularFlags(s[k].flags)
    ensures forall k | 0 <= k <= size :: RegularFlags(t[k].flags)
  {
    hide Seen, Entered, ResolvesTo;
    forall k | 0 <= k <= size ensures RegularFlags(t[k].flags) {
      assert ResolvedAt(s, t[k], size, jmps, |jmps|, start, end, k) && RegularFlags(s[k].flags);
    }
  }

  /** After the analysis no instruction lacks a flag that is live behind it, and those that set
      it compute it, or defer all flags. */
  ghost predicate LiveFlagsMet(s: seq<Inst>, t: seq<Inst>) {
    |s| == |t| && forall q, f | LiveAlong(s, q, f) && OneFlag(f) && Reaches(s, 0, q[0]) :: LiveMet(s[q[0]], t[q[0]], f)
  }

  predicate LiveMet(x: Inst, y: Inst, f: bv8) {
    && y.needAfter & (f | X_PEND) != 0
    && (x.flags.setFlags & f != 0 ==> y.genFlags & (f | X_PEND) != 0)
  }

  /** And none has one without a reason: what is computed is set there and needed behind, what is
      needed in front is read, or needed behind and not certainly overwritten, and what is needed
      behind is asked for along a path. */
  ghost predicate NothingSpare(s: seq<Inst>, t: seq<Inst>) {
    |s| == |t| && forall i, f | 0 <= i < |s| && OneFlag(f) :: ReasonsAt(s, i, t[i], f)
  }

  ghost predicate ReasonsAt(s: seq<Inst>, i: int, y: Inst, f: bv8)
    requires 0 <= i < |s|
  {
    && Moves(s[i].flags, y.needAfter, y.genFlags, y.needBefore, f)
    && (y.needAfter & f != 0 ==> Wanted(s, i, f))
    && (y.genFlags & X_PEND != 0 ==> y.needAfter & X_PEND != 0)
    && (y.needAfter & X_PEND != 0 ==> Wanted(s, i, 0) && !Direct(s[i].flags))
  }

  lemma LeastMeetsLive(s: seq<Inst>, t: seq<Inst>)
    requires LeastFlow(s, t) && NodesOK(t, 0, |t|)
    requires forall k | 0 <= k < |s| :: t[k].flags == s[k].flags && RegularFlags(s[k].flags)
    ensures LiveFlagsMet(s, t)
  {
    hide Settle, Gen, Before, Reaches, RegularFlags, OneFlag, FlowSolution, NodesOK, Path, Transparent, LiveMet;
    NodesAre(s, t);
    forall q, f | LiveAlong(s, q, f) && OneFlag(f) && Reaches(s, 0, q[0]) ensures LiveMet(s[q[0]], t[q[0]], f) {
      LiveFlagCovered(s, Needs(t), q, f);
      CoveredIsMet(s[q[0]], t[q[0]], f);
    }
  }

  lemma CoveredIsMet(x: Inst, y: Inst, f: bv8)
    requires OneFlag(f) && RegularFlags(x.flags) && Settle(x.flags, y.needAfter) == y.needAfter
    requires y.needAfter & (f | X_PEND) != 0 && y.genFlags == Gen(x.flags, y.needAfter)
    ensures LiveMet(x, y, f)
  {
    hide Settle, Gen, OneFlag, RegularFlags;
    if x.flags.setFlags & f != 0 { GenCovers(x.flags, y.needAfter, f); }
  }

  lemma NodesAre(s: seq<Inst>, t: seq<Inst>)
    requires |s| == |t| && NodesOK(t, 0, |t|) && forall k | 0 <= k < |s| :: t[k].flags == s[k].flags
    ensures forall i | 0 <= i < |s| ::
        Settle(s[i].flags, Needs(t)[i]) == Needs(t)[i] && t[i].genFlags == Gen(s[i].flags, t[i].needAfter) &&
          t[i].needBefore == Before(s[i].flags, t[i].needAfter)
  {
    hide Settle, Gen, Before;
    forall i | 0 <= i < |s|
      ensures Settle(s[i].flags, Needs(t)[i]) == Needs(t)[i] && t[i].genFlags == Gen(s[i].flags, t[i].needAfter)
      ensures t[i].needBefore == Before(s[i].flags, t[i].needAfter)
    {
      assert NodeOK(t, i);
    }
  }

  lemma LeastHasReasons(s: seq<Inst>, t: seq<Inst>)
    requires LeastFlow(s, t) && NodesOK(t, 0, |t|)
    requires forall k | 0 <= k < |s| :: t[k].flags == s[k].flags && RegularFlags(s[k].flags)
    ensures NothingSpare(s, t)
  {
    hide LeastFlow, Settle, Before, Gen, Wanted, RegularFlags, OneFlag, Direct, Moves, NodesOK;
    LeastLength(s, t);
    NodesAre(s, t);
    forall i, f | 0 <= i < |s| && OneFlag(f) ensures ReasonsAt(s, i, t[i], f) {
      EachMoves(s[i].flags, t[i].needAfter);
      SettleFlag(s[i].flags, t[i].needAfter, f);
      PendGenerated(s[i].flags, t[i].needAfter);
      NeedHasReason(s, t, i, f);
    }
  }

  lemma PendGenerated(x: FlagUse, after: bv8)
    ensures Gen(x, after) & X_PEND != 0 ==> after & X_PEND != 0
  {}

  lemma LeastLength(s: seq<Inst>, t: seq<Inst>)
    requires LeastFlow(s, t)
    ensures |s| == |t|
  {}

  /** Both passes on one array: `s` is the array with its jumps resolved. What is computed on the
      block in it is the least solution on the flow graph that the resolved jumps make; no live flag
      is missed, and none is computed without a reason, whatever the first pass has left behind the block. */
  method ResolveAndAnalyse(h: Helper, isize: nat, jmps: seq<int>, start: nat, end: nat)
    returns (alwaysTest: bool, ghost s: seq<Inst>)
    requires h.insts.Length > h.size >= 1 && Ascending(h.insts[..], h.size, isize)
    requires Noted(h.insts[..], h.size, jmps) && Untouched(h.Block())
    requires forall k | 0 <= k <= h.size :: RegularFlags(h.insts[k].flags)
    modifies h`predecessor, h.insts
    ensures Noted(old(h.insts[..]), h.size, jmps)
    ensures Resolved(old(h.insts[..]), s, h.size, jmps, |jmps|, start, end) && Targets(s[..h.size + 1])
    ensures LeastFlow(s[..h.size + 1], h.Block())
    ensures LiveFlagsMet(s[..h.size + 1], h.Block()) && NothingSpare(s[..h.size + 1], h.Block())
    ensures h.insts[h.size + 1..] == s[h.size + 1..]
    ensures alwaysTest <==> exists x :: 0 <= x < |jmps| && old(Loops(h.insts[jmps[x]]))
  {
    hide Resolved, LeastFlow, LiveFlagsMet, NothingSpare, Reaches, NodesOK, RegularFlags, EdgeOK, Edge, Ascending, Seen;
    ghost var s0 := h.insts[..];
    assert h.Block() == s0[..h.size + 1];
    alwaysTest := ResolveJumps(h.insts, h.size, isize, jmps, start, end);
    s := h.insts[..];
    ghost var b := h.Block();
    assert b == s[..h.size + 1];
    ResolvedTargets(s0, s, h.size, jmps, start, end);
    StillUntouched(s0, s, h.size, jmps, start, end);
    StillRegular(s0, s, h.size, jmps, start, end);
    h.AnalyseFlags();
    LeastMeetsLive(b, h.Block());
    LeastHasReasons(b, h.Block());
  }
}
