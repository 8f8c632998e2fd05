/** The middle end of the translator: the helper object of one translation and the passes
    that run over it between pass 0 and pass 1 (src/dynarec/dynarec_arm.c). */
module Translator {
  import opened X86Flags
  import opened FlagNeed
  import opened FlowGraph
  import opened FlagFlow

  class Helper {
    const size: nat                // number of instructions; slot `size` is the one behind the block
    const insts: array<Inst>
    var predecessor: array<int>

    constructor (size: nat, insts: array<Inst>)
      requires insts.Length > size
      ensures this.size == size && this.insts == insts
    {
      this.size := size;
      this.insts := insts;
      this.predecessor := new int[0];
    }

    /** The instructions of the block with the slot behind them. What lies behind that is what the
        first pass left of instructions that it gave up. */
    ghost function Block(): (s: seq<Inst>)
      requires insts.Length > size
      reads insts
      ensures |s| == size + 1 && forall i | 0 <= i <= size :: s[i] == insts[i]
    {
      insts[..size + 1]
    }

    /** Nothing behind the block has changed. */
    twostate predicate RestSame()
      reads insts
    {
      forall k | size < k < insts.Length :: insts[k] == old(insts[k])
    }

    ghost predicate Linked()
      reads this, insts, predecessor
    {
      insts.Length > size && WellFormed(Block(), predecessor[..])
    }

    static method SettleNeed(x: FlagUse, asked: bv8) returns (need: bv8)
      ensures need == Settle(x, asked)
    {
      need := asked;
      if need & X_PEND != 0 && (x.stateFlags == SF_SUBSET || x.stateFlags == SF_SET || x.stateFlags == SF_SET_NODF) {
        need := need & !X_PEND;
        need := need | X_ALL;
      }
      if need & X_PEND != 0 && x.stateFlags == SF_SUBSET_PENDING {
        need := need | (X_ALL & !x.setFlags);
      }
    }

    static method GenerateFlags(x: FlagUse, need: bv8) returns (gen: bv8)
      ensures gen == Gen(x, need)
    {
      gen := need & x.setFlags;
      if need & X_PEND != 0 && x.stateFlags & SF_PENDING != 0 {
        gen := gen | X_PEND;
      }
    }

    static method NeedInFront(x: FlagUse, after: bv8, gen: bv8) returns (need: bv8)
      requires gen == Gen(x, after)
      ensures need == Before(x, after)
    {
      need := after & !gen;
      if x.maySet {
        need := need | gen;
      } else if need & X_PEND != 0 && x.setFlags & SF_PENDING != 0 {
        need := need & !X_PEND;
      }
      need := need | x.useFlags;
    }

    static method CollapseAtBarrier(x: FlagUse, before: bv8) returns (need: bv8)
      ensures need == Offer(x, before)
    {
      need := before;
      if x.barrier & BARRIER_FLAGS != 0 {
        need := if need != 0 then X_PEND else 0;
      }
    }

    /** The masks of one instruction once it has been asked for `asked`. */
    static method Transfer(x: Inst, asked: bv8) returns (y: Inst)
      ensures y == Visit(x, asked)
      ensures forall f | OneFlag(f) :: Moves(x.flags, y.needAfter, y.genFlags, y.needBefore, f)
    {
      hide Settle, Gen, Before, OneFlag, Moves;
      var need := SettleNeed(x.flags, asked | x.needAfter);
      assert asked | x.needAfter == x.needAfter | asked;
      var gen := GenerateFlags(x.flags, need);
      y := x.(genFlags := gen, needAfter := need);
      need := NeedInFront(x.flags, y.needAfter, gen);
      y := y.(needBefore := need);
      EachMoves(x.flags, y.needAfter);
    }

    /** Walks backward from ninst0, asking each instruction for what its successor needs, and
        recursing into the predecessors that are not just above. */
    method UpdateNeed(ninst0: int, need0: bv8, ghost bounds: iset<seq<bv8>>) returns (r: int)
      requires Linked() && -1 <= ninst0 <= size
      requires Ready(Block(), predecessor[..], bounds)
      requires 0 <= ninst0 ==> MayAsk(Block(), ninst0, need0, bounds)
      modifies insts
      ensures RestSame()
      ensures Linked() && Done(old(Block()), Block(), predecessor[..], bounds)
      ensures -1 <= r && (if ninst0 < 0 then r == ninst0 else r < ninst0)
      ensures NodesOK(Block(), r + 1, ninst0 + 1)
      ensures 0 <= ninst0 ==> Sub(Settle(insts[ninst0].flags, need0), insts[ninst0].needAfter)
      decreases Work(Block()), ninst0 + 1
    {
      hide Settle, Gen, Before, Offer, Sub, Visit, Ready, Running, Done, Serving, MayAsk, Work, NodeOK, Grows, SameInst,
           NodesOK;
      var ninst, need := ninst0, need0;
      ghost var s0 := Block();
      ghost var p := predecessor[..];
      BeginRun(s0, p, ninst, need, bounds);
      NodesNone(s0, ninst0 + 1);
      while ninst >= 0
        invariant RestSame()
        invariant -1 <= ninst <= ninst0
        invariant Linked() && Running(s0, Block(), p, ninst, need, bounds)
        invariant NodesOK(Block(), ninst + 1, ninst0 + 1)
        invariant if ninst == ninst0 then need == need0
            else Sub(Settle(insts[ninst0].flags, need0), insts[ninst0].needAfter)
      {
        ghost var s := Block();
        var x := insts[ninst];
        var y := Transfer(x, need);
        VisitStep(s0, s, p, ninst, need, bounds);
        insts[ninst] := y;
        ghost var t := Block();
        assert t == s[ninst := Visit(s[ninst], need)];
        NodesGrow(s, t, ninst + 1, ninst0 + 1);
        NodesFrom(t, ninst, ninst0 + 1);
        if ninst < ninst0 { StillCovered(s, t, ninst + 1, ninst0, need0); }
        if x.needBefore == y.needBefore {
          return ninst - 1;
        }
        need := CollapseAtBarrier(y.flags, y.needBefore);
        ServingWork(s0, t, p, ninst, y.needBefore, 0, bounds);
        var ok := AskPredecessors(ninst, need, s0, bounds);
        NodesGrow(t, Block(), ninst, ninst0 + 1);
        StillCovered(t, Block(), ninst, ninst0, need0);
        ninst := ninst - 1;
        if !ok {
          return ninst;
        }
      }
      EndRun(s0, Block(), p, ninst, need, bounds);
      return ninst;
    }

    /** Asks the predecessors of n for `need`, but for the one just above n, which the caller
        goes on to; tells whether there is one. */
    method AskPredecessors(n: int, need: bv8, ghost s0: seq<Inst>, ghost bounds: iset<seq<bv8>>) returns (ok: bool)
      requires Linked() && 0 <= n <= size
      requires Serving(s0, Block(), predecessor[..], n, insts[n].needBefore, 0, bounds)
      requires need == Offer(insts[n].flags, insts[n].needBefore)
      modifies insts
      ensures RestSame()
      ensures Linked() && Grows(old(Block()), Block())
      ensures if ok then 0 < n && Running(s0, Block(), predecessor[..], n - 1, need, bounds)
              else Done(s0, Block(), predecessor[..], bounds)
      decreases Work(Block()), size + 2
    {
      hide Settle, Gen, Before, Offer, Sub, Ready, Running, Done, Serving, MayAsk, Work, SameInst;
      ghost var s := Block();
      ghost var p := predecessor[..];
      ghost var before := insts[n].needBefore;
      GrowsRefl(s);
      ok := false;
      var i := 0;
      while i < insts[n].predSz
        invariant RestSame()
        invariant Linked() && i <= insts[n].predSz == s[n].predSz && insts[n].pred == s[n].pred
        invariant insts[n].flags == s[n].flags
        invariant Grows(s, Block()) && Work(Block()) <= Work(s)
        invariant Serving(s0, Block(), p, n, before, i, bounds)
        invariant ok <==> exists k | s[n].pred <= k < s[n].pred + i :: p[k] == n - 1
      {
        ghost var t := Block();
        var a := predecessor[insts[n].pred + i];
        if a == n - 1 {
          ok := true;
          SkipStep(s0, t, p, n, before, i, bounds);
        } else {
          ServingFacts(s0, t, p, n, before, i, a, bounds);
          var r := UpdateNeed(a, need, bounds);
          DoneFacts(t, Block(), p, bounds);
          assert NodeOK(Block(), a);
          CallStep(s0, t, Block(), p, n, before, i, bounds);
          GrowsTrans(s, t, Block());
        }
        i := i + 1;
      }
      ServedStep(s0, Block(), p, n, before, ok, bounds);
    }

    /** Marks i and everything it flows to. */
    method RecurseMarkAlive(i: int)
      requires insts.Length > size && Targets(Block()) && 0 <= i < size
      modifies insts
      ensures RestSame()
      ensures Targets(Block()) && Marked(old(Block()), Block(), i)
      decreases Dead(Block())
    {
      hide Reaches, Path, Dead;
      ghost var s := Block();
      if insts[i].alive {
        return;
      }
      insts[i] := insts[i].(alive := true);
      ghost var t := Block();
      DeadShrinks(s, t);
      EdgesIgnoreAlive(s, t);
      if insts[i].jmp != 0 && insts[i].jmpInsts != -1 {
        RecurseMarkAlive(insts[i].jmpInsts);
      }
      ghost var u := Block();
      DeadShrinks(t, u);
      if i < size - 1 && insts[i].hasNext {
        RecurseMarkAlive(i + 1);
      }
      MarkedThrough(s, t, u, Block(), i);
    }

    /** First counting pass: the jumps of alive instructions. */
    method CountJumps() returns (predSz: nat)
      requires insts.Length > size && Targets(Block())
      requires forall k | 0 <= k <= size :: insts[k].predSz == 0
      modifies insts
      ensures RestSame()
      ensures JumpsCounted(old(Block()), Block(), size)
      ensures predSz == 1 + Reserved(Block(), size + 1)
    {
      hide JumpCount, Reserved;
      ghost var s := Block();
      predSz := 1;
      NothingReserved(s, size + 1);
      StartCounting(s);
      for i := 0 to size
        invariant RestSame()
        invariant JumpsCounted(s, Block(), i) && predSz == 1 + Reserved(Block(), size + 1)
      {
        ghost var t := Block();
        JumpCountStep(s, t, i);
        if insts[i].alive && insts[i].jmp != 0 && insts[i].jmpInsts != -1 {
          var jmpto := insts[i].jmpInsts;
          predSz := predSz + 1;
          insts[jmpto] := insts[jmpto].(predSz := insts[jmpto].predSz + 1);
          assert Block() == t[jmpto := t[jmpto].(predSz := t[jmpto].predSz + 1)];
        }
      }
    }

    /** Removes the fall-through of instructions that nothing alive follows. */
    method CutOrphans()
      requires insts.Length > size && size >= 1
      modifies insts
      ensures RestSame()
      ensures OrphansCut(old(Block()), Block(), size - 1)
    {
      ghost var s := Block();
      for i := 0 to size - 1
        invariant RestSame()
        invariant OrphansCut(s, Block(), i)
      {
        ghost var t := Block();
        CutStep(s, t, i);
        if insts[i].hasNext && !insts[i + 1].alive {
          insts[i] := insts[i].(hasNext := false);
          assert Block() == t[i := t[i].(hasNext := false)];
        }
      }
    }

    /** Second counting pass: the fall-throughs, of dead instructions too. */
    method CountFalls(predSz0: nat) returns (predSz: nat)
      requires insts.Length > size && size >= 1
      requires predSz0 == 1 + Reserved(Block(), size + 1)
      modifies insts
      ensures RestSame()
      ensures FallsCounted(old(Block()), Block(), size - 1)
      ensures predSz == 1 + Reserved(Block(), size + 1)
    {
      hide FallCount, Reserved;
      ghost var s := Block();
      predSz := predSz0;
      StartCounting(s);
      for i := 0 to size - 1
        invariant RestSame()
        invariant FallsCounted(s, Block(), i) && predSz == 1 + Reserved(Block(), size + 1)
      {
        ghost var t := Block();
        FallCountStep(s, t, i);
        if insts[i].hasNext {
          predSz := predSz + 1;
          insts[i + 1] := insts[i + 1].(predSz := insts[i + 1].predSz + 1);
          assert Block() == t[i + 1 := t[i + 1].(predSz := t[i + 1].predSz + 1)];
        }
      }
    }

    /** Marks what the entry reaches, drops orphan fall-throughs and counts predecessors;
        returns the size of the array to reserve for them. */
    method SizePredecessors() returns (predSz: nat)
      requires insts.Length > size && size >= 1 && Targets(Block())
      requires forall k | 0 <= k <= size :: !insts[k].alive && insts[k].predSz == 0
      modifies insts
      ensures RestSame()
      ensures Targets(Block()) && Counted(old(Block()), Block())
      ensures predSz == 1 + Reserved(Block(), size)
      ensures forall k | 0 <= k <= size :: insts[k].alive <==> Reaches(old(Block()), 0, k)
      ensures forall i, j | 0 <= i < size && insts[i].alive :: Edge(Block(), i, j) <==> Edge(old(Block()), i, j)
    {
      hide Reaches, Path, Reserved, Marked, JumpsCounted, OrphansCut, FallsCounted, Counted, Edge;
      ghost var s := Block();
      RecurseMarkAlive(0);
      ghost var s1 := Block();
      MarkedTargets(s, s1);
      predSz := CountJumps();
      ghost var s2 := Block();
      CutOrphans();
      ghost var s3 := Block();
      SameSizes(s2, s3, size - 1);
      ReservedSame(s2, s3, size + 1);
      predSz := CountFalls(predSz);
      SizedInAll(s, s1, s2, s3, Block());
      LastReserved(Block());
    }

    /** Appends instruction i to the predecessors of j. */
    method AddPredecessor(j: int, i: int, ghost s: seq<Inst>, ghost lists: seq<seq<int>>)
      requires insts.Length > size && |s| == size + 1 && 0 <= j < size
      requires |lists| == size && Filled(s, Block(), predecessor[..], lists) && |lists[j]| < s[j].predSz
      modifies insts, predecessor
      ensures RestSame()
      ensures Filled(s, Block(), predecessor[..], lists[j := lists[j] + [i]])
    {
      hide Filled, Reserved;
      ghost var t, p := Block(), predecessor[..];
      FilledAppend(s, t, p, lists, j, i);
      predecessor[insts[j].pred + insts[j].predSz] := i;
      insts[j] := insts[j].(predSz := insts[j].predSz + 1);
      assert Block() == t[j := t[j].(predSz := t[j].predSz + 1)];
      assert predecessor[..] == p[t[j].pred + t[j].predSz := i];
    }

    /** Lays the segments out one behind the other and empties them. */
    method LayOutSegments()
      requires insts.Length > size && Reserved(Block(), size) <= predecessor.Length
      modifies insts
      ensures RestSame()
      ensures Filled(old(Block()), Block(), predecessor[..], seq(size, _ => []))
    {
      hide Reserved;
      ghost var s := Block();
      var p := 0;
      ReservedStart(s);
      for i := 0 to size
        invariant RestSame()
        invariant p == Reserved(s, i)
        invariant forall k | 0 <= k < i :: insts[k] == s[k].(pred := Reserved(s, k), predSz := 0)
        invariant forall k | i <= k <= size :: insts[k] == s[k]
      {
        ReservedNext(s, i);
        insts[i] := insts[i].(pred := p);
        p := p + insts[i].predSz;
        insts[i] := insts[i].(predSz := 0);
      }
      assert forall k | 0 <= k < size :: LaidOutAt(s, Block(), k);
      LaidOut(s, Block(), predecessor[..]);
    }

    /** Fills the predecessor lists of all instructions. */
    method FillPredecessors(ghost s0: seq<Inst>)
      requires insts.Length > size && size >= 1 && Targets(Block()) && Counted(s0, Block())
      requires Reserved(Block(), size) <= predecessor.Length
      modifies insts, predecessor
      ensures RestSame()
      ensures Filled(old(Block()), Block(), predecessor[..], SourceLists(old(Block()), size))
    {
      hide Filled, Reserved, Sources, FallSource, JumpCount, FallCount;
      ghost var s := Block();
      LayOutSegments();
      SourceListsEmpty(s);
      for i := 0 to size
        invariant RestSame()
        invariant |s| == size + 1 && Filled(s, Block(), predecessor[..], SourceLists(s, i))
      {
        FilledKeeps(s, Block(), predecessor[..], SourceLists(s, i));
        FallAdvances(s, i);
        JumpAdvances(s, i);
        if insts[i].alive {
          if i != size - 1 && insts[i].hasNext {
            FallFits(s, i);
            AddPredecessor(i + 1, i, s, SourceLists(s, i));
          }
          FilledKeeps(s, Block(), predecessor[..], MidLists(s, i));
          if insts[i].jmp != 0 && insts[i].jmpInsts != -1 {
            var j := insts[i].jmpInsts;
            JumpFits(s, i);
            AddPredecessor(j, i, s, MidLists(s, i));
          }
        }
      }
    }

    /** The driver loop: from the slot behind the block backward, until nothing is left. */
    method PropagateNeeds()
      requires Linked() && size >= 1
      requires forall i | 0 <= i <= size :: insts[i].needBefore == 0
      modifies insts
      ensures RestSame()
      ensures Linked() && Grows(old(Block()), Block()) && NodesOK(Block(), 0, size + 1)
      ensures Solution(old(Block()), predecessor[..], Needs(Block()))
      ensures forall v, i | Solution(old(Block()), predecessor[..], v) && 0 <= i <= size ::
          Sub(insts[i].needAfter, v[i])
      ensures forall i, a | Pred(old(Block()), predecessor[..], i, a) :: EdgeOK(Block(), i, a)
    {
      hide Settle, Gen, Before, Offer, Sub, Done, Ready, MayAsk, Solution, Settled, NodeOK, EdgeOK, Grows, SameInst;
      ghost var s, p := Block(), predecessor[..];
      ghost var bounds := iset v | Solution(s, p, v);
      Fresh(s, p);
      var pos: int := size;
      while pos >= 0
        invariant RestSame()
        invariant -1 <= pos <= size
        invariant Linked() && Done(s, Block(), p, bounds)
        invariant NodesOK(Block(), pos + 1, size + 1)
      {
        ghost var t := Block();
        ghost var pos0 := pos;
        AskNothing(s, t, p, pos, bounds);
        pos := UpdateNeed(pos, 0, bounds);
        DoneFacts(t, Block(), p, bounds);
        NodesGrow(t, Block(), pos0 + 1, size + 1);
        DoneTrans(s, t, Block(), p, bounds);
      }
      DoneFacts(s, Block(), p, bounds);
      AnalysisIsLeast(s, Block(), p);
    }

    /** The flag analysis of a block, from the resolved jumps to the final needs. */
    method AnalyseFlags()
      requires insts.Length > size && size >= 1 && Targets(Block())
      requires forall k | 0 <= k <= size :: !insts[k].alive && insts[k].predSz == 0 && insts[k].needBefore == 0
      requires insts[size].pred == 0
      modifies this`predecessor, insts
      ensures RestSame()
      ensures LeastFlow(old(Block()), Block())
      ensures NodesOK(Block(), 0, size + 1)
      ensures forall k | 0 <= k <= size :: insts[k].alive <==> Reaches(old(Block()), 0, k)
      ensures forall i, a | 0 <= i < size && Edge(old(Block()), a, i) && insts[a].alive :: EdgeOK(Block(), i, a)
      ensures forall k | 0 <= k <= size :: insts[k].flags == old(insts[k].flags)
    {
      hide Reaches, Filled, Reserved, EdgeOK, Solution, Sub, NodesOK, LeastFlow, Counted, WellFormed, Pred;
      ghost var s0 := Block();
      var n := SizePredecessors();
      ghost var s := Block();
      predecessor := new int[n];
      FillPredecessors(s0);
      ghost var t, p := Block(), predecessor[..];
      FilledBlock(s0, s, t, p);
      PropagateNeeds();
      LeastOnFlow(s0, t, Block(), p);
      forall k | 0 <= k <= size ensures insts[k].flags == s0[k].flags { assert SameInst(t[k], insts[k]); }
    }
  }
}
