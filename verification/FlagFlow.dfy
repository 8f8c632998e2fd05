/** What the flag analysis means on the flow graph of the block: the least solution of the
    flow equations, and why no live flag is missed by one. */
module FlagFlow {
  import opened X86Flags
  import opened FlagNeed
  import opened FlowGraph

  /** v gives every instruction its own requests, and every reachable flow edge a -> i is
      covered: what i asks for is in the needs of a. */
  ghost predicate FlowSolution(s: seq<Inst>, v: seq<bv8>) {
    && |v| == |s|
    && (forall i | 0 <= i < |s| :: Sub(Settle(s[i].flags, s[i].needAfter), v[i]))
    && (forall a, i | Edge(s, a, i) && Reaches(s, 0, a) && 0 <= i < |s| ::
          Sub(Settle(s[a].flags, Offer(s[i].flags, Before(s[i].flags, v[i]))), v[a]))
  }

  function Needs(s: seq<Inst>): (v: seq<bv8>) {
    seq(|s|, i requires 0 <= i < |s| => s[i].needAfter)
  }

  /** The needs of t are the least solution for the block s. */
  ghost predicate LeastFlow(s: seq<Inst>, t: seq<Inst>) {
    && |s| == |t|
    && FlowSolution(s, Needs(t))
    && forall v, i | FlowSolution(s, v) && 0 <= i < |s| :: Sub(t[i].needAfter, v[i])
  }

  /** The filled array records, for every instruction, exactly the alive flow into it. */
  lemma FilledPreds(s: seq<Inst>, t: seq<Inst>, p: seq<int>, i: int, a: int)
    requires |s| >= 1 && Filled(s, t, p, SourceLists(s, |s| - 1)) && 0 <= i < |s| - 1
    ensures t[i].pred + t[i].predSz <= |p|
    ensures Listed(t[i], p, a) <==> FlowsAlive(s, a, i)
  {
    hide Reserved, Sources;
    var o, l := t[i].pred, Sources(s, i, |s| - 1);
    SourcesAreEdges(s, i, a);
    assert p[o..o + t[i].predSz] == l;
    if Listed(t[i], p, a) {
      var k :| o <= k < o + t[i].predSz && p[k] == a;
      assert l[k - o] == a;
    }
    if a in l {
      var x :| 0 <= x < |l| && l[x] == a;
      assert p[o + x] == a;
    }
  }

  /** a flows into i, a alive. */
  ghost predicate FlowsAlive(s: seq<Inst>, a: int, i: int) {
    0 <= i < |s| - 1 && 0 <= a < |s| - 1 && s[a].alive && Edge(s, a, i)
  }

  lemma PredsAreFlow(s: seq<Inst>, t: seq<Inst>, p: seq<int>)
    requires |s| >= 1 && Filled(s, t, p, SourceLists(s, |s| - 1))
    requires s[|s| - 1].pred == 0 && s[|s| - 1].predSz == 0
    ensures WellFormed(t, p)
    ensures forall i, a :: Pred(t, p, i, a) <==> FlowsAlive(s, a, i)
  {
    FilledKeeps(s, t, p, SourceLists(s, |s| - 1));
    assert t[|s| - 1] == s[|s| - 1];
    hide Filled, SourceLists, Edge, Listed;
    forall i | 0 <= i < |s| - 1
      ensures t[i].pred + t[i].predSz <= |p| && forall a :: Listed(t[i], p, a) <==> FlowsAlive(s, a, i)
    {
      FilledPreds(s, t, p, i, 0);
      forall a ensures Listed(t[i], p, a) <==> FlowsAlive(s, a, i) { FilledPreds(s, t, p, i, a); }
    }
    ListedInRange(s, t, p);
  }

  lemma ListedInRange(s: seq<Inst>, t: seq<Inst>, p: seq<int>)
    requires |t| == |s| >= 1 && t[|s| - 1].pred == 0 && t[|s| - 1].predSz == 0
    requires forall i | 0 <= i < |s| - 1 ::
        t[i].pred + t[i].predSz <= |p| && forall a :: Listed(t[i], p, a) <==> FlowsAlive(s, a, i)
    ensures WellFormed(t, p)
    ensures forall i, a :: Pred(t, p, i, a) <==> FlowsAlive(s, a, i)
  {
    hide Edge;
    forall i, k | 0 <= i < |s| - 1 && t[i].pred <= k < t[i].pred + t[i].predSz ensures 0 <= p[k] < |s| - 1 {
      assert Listed(t[i], p, p[k]);
    }
  }

  lemma DoneTrans(s: seq<Inst>, t: seq<Inst>, u: seq<Inst>, p: seq<int>, bounds: iset<seq<bv8>>)
    requires Done(s, t, p, bounds) && Done(t, u, p, bounds)
    ensures Done(s, u, p, bounds)
  {
    hide EdgeOK, Bounded, Settled, Settle, Sub, NodeOK, Work;
    GrowsTrans(s, t, u);
    PredSame(s, t, p);
  }

  /** A block whose analysis has not begun may start it, under all solutions at once. */
  lemma Fresh(s: seq<Inst>, p: seq<int>)
    requires WellFormed(s, p) && forall i | 0 <= i < |s| :: s[i].needBefore == 0
    ensures Done(s, s, p, iset v | Solution(s, p, v))
    ensures forall i, a | Pred(s, p, i, a) :: EdgeOK(s, i, a)
  {}

  lemma AskNothing(s: seq<Inst>, t: seq<Inst>, p: seq<int>, n: int, bounds: iset<seq<bv8>>)
    requires Done(s, t, p, bounds) && 0 <= n < |t|
    ensures Ready(t, p, bounds) && MayAsk(t, n, 0, bounds)
  {
    assert Settle(t[n].flags, 0) == 0;
    hide Settle, EdgeClosed;
  }

  /** When all instructions are consistent and nothing is left to pass on, the needs are the
      least solution of the constraints. */
  lemma AnalysisIsLeast(s: seq<Inst>, t: seq<Inst>, p: seq<int>)
    requires WellFormed(s, p) && forall i | 0 <= i < |s| :: s[i].needBefore == 0
    requires Done(s, t, p, iset v | Solution(s, p, v)) && NodesOK(t, 0, |t|)
    ensures Solution(s, p, Needs(t))
    ensures forall v, i | Solution(s, p, v) && 0 <= i < |s| :: Sub(t[i].needAfter, v[i])
    ensures forall i, a | Pred(s, p, i, a) :: EdgeOK(t, i, a)
  {
    Fresh(s, p);
    hide Settle, Before, Gen, Offer;
    var w := Needs(t);
    forall i | 0 <= i < |s| ensures Sub(Settle(s[i].flags, s[i].needAfter), w[i]) {
      assert SameInst(s[i], t[i]) && NodeOK(t, i);
    }
    forall i, a | Pred(s, p, i, a)
      ensures EdgeOK(t, i, a) && Sub(Settle(s[a].flags, Offer(s[i].flags, Before(s[i].flags, w[i]))), w[a])
    {
      assert EdgeOK(s, i, a) && EdgeOK(t, i, a);
      assert SameInst(s[i], t[i]) && SameInst(s[a], t[a]) && NodeOK(t, i) && NodeOK(t, a);
    }
    forall v, i | Solution(s, p, v) && 0 <= i < |s| ensures Sub(t[i].needAfter, v[i]) {
      assert v in iset v | Solution(s, p, v);
      assert Under(t, v) && NodeOK(t, i);
    }
  }

  /** Constraints over the recorded predecessors are the flow equations of the block. */
  lemma SolutionsAgree(s0: seq<Inst>, s: seq<Inst>, p: seq<int>, v: seq<bv8>)
    requires WellFormed(s, p) && |s0| == |s|
    requires forall i | 0 <= i < |s| :: s[i].flags == s0[i].flags && s[i].needAfter == s0[i].needAfter
    requires forall i, a ::
        Pred(s, p, i, a) <==> 0 <= i < |s| - 1 && 0 <= a < |s| - 1 && Reaches(s0, 0, a) && Edge(s0, a, i)
    requires Targets(s0)
    ensures Solution(s, p, v) <==> FlowSolution(s0, v)
  {
    hide Settle, Before, Offer, Sub, Reaches;
    forall a, i | Edge(s0, a, i) && Reaches(s0, 0, a) && 0 <= i < |s| ensures Pred(s, p, i, a) {}
  }

  /** The marks and edges of the counted block are those of the block before. */
  ghost predicate SameFlow(s0: seq<Inst>, s: seq<Inst>) {
    && |s0| == |s| && Targets(s0) && Counted(s0, s)
    && (forall k | 0 <= k < |s| :: s[k].alive <==> Reaches(s0, 0, k))
    && (forall i, j | 0 <= i < |s| - 1 && s[i].alive :: Edge(s, i, j) <==> Edge(s0, i, j))
  }

  lemma AliveFlow(s0: seq<Inst>, s: seq<Inst>, a: int, i: int)
    requires SameFlow(s0, s)
    ensures FlowsAlive(s, a, i) <==> 0 <= i < |s| - 1 && 0 <= a < |s| - 1 && Reaches(s0, 0, a) && Edge(s0, a, i)
  {
    hide Reaches;
  }

  /** The block with its predecessors filled is the block before as far as needs go. */
  lemma FilledBlock(s0: seq<Inst>, s: seq<Inst>, t: seq<Inst>, p: seq<int>)
    requires SameFlow(s0, s) && Filled(s, t, p, SourceLists(s, |s| - 1))
    requires s0[|s| - 1].pred == 0
    ensures WellFormed(t, p) && |t| == |s0|
    ensures forall i | 0 <= i < |s| ::
              t[i].flags == s0[i].flags && t[i].needAfter == s0[i].needAfter && t[i].needBefore == s0[i].needBefore &&
                t[i].alive == s[i].alive
    ensures forall i, a ::
        Pred(t, p, i, a) <==> 0 <= i < |s| - 1 && 0 <= a < |s| - 1 && Reaches(s0, 0, a) && Edge(s0, a, i)
  {
    hide Reaches, Pred, WellFormed, JumpCount, FallCount, Edge, OrphanCut;
    FilledKeeps(s, t, p, SourceLists(s, |s| - 1));
    hide Filled;
    PredsAreFlow(s, t, p);
    forall i, a
      ensures Pred(t, p, i, a) <==> 0 <= i < |s| - 1 && 0 <= a < |s| - 1 && Reaches(s0, 0, a) && Edge(s0, a, i)
    {
      AliveFlow(s0, s, a, i);
    }
  }

  /** The least solution over the recorded predecessors is the least solution on the flow. */
  lemma LeastOnFlow(s0: seq<Inst>, t: seq<Inst>, u: seq<Inst>, p: seq<int>)
    requires WellFormed(t, p) && |t| == |s0| == |u| && Targets(s0)
    requires forall i | 0 <= i < |t| :: t[i].flags == s0[i].flags && t[i].needAfter == s0[i].needAfter
    requires forall i, a ::
        Pred(t, p, i, a) <==> 0 <= i < |t| - 1 && 0 <= a < |t| - 1 && Reaches(s0, 0, a) && Edge(s0, a, i)
    requires Solution(t, p, Needs(u))
    requires forall v, i | Solution(t, p, v) && 0 <= i < |t| :: Sub(u[i].needAfter, v[i])
    ensures LeastFlow(s0, u)
  {
    hide Reaches, Pred, WellFormed, Edge, FlowSolution, Solution, Sub;
    forall v ensures Solution(t, p, v) <==> FlowSolution(s0, v) { SolutionsAgree(s0, t, p, v); }
    SolutionsAgree(s0, t, p, Needs(u));
  }

  // ---- Why the needs are right: paths

  /** Along the path q, flag f is read by the last instruction and by none of the others
      after the first overwritten. */
  ghost predicate LiveAlong(s: seq<Inst>, q: seq<int>, f: bv8) {
    && Path(s, q) && |q| >= 2
    && (forall k | 0 <= k < |q| :: 0 <= q[k] < |s|)
    && s[q[|q| - 1]].flags.useFlags & f != 0
    && forall k | 0 < k < |q| - 1 :: Transparent(s[q[k]].flags, f)
  }

  lemma BeforeKeeps(y: FlagUse, after: bv8, f: bv8)
    requires OneFlag(f) && RegularFlags(y)
    requires y.useFlags & f != 0 || (Transparent(y, f) && after & (f | X_PEND) != 0 && Settle(y, after) == after)
    ensures Before(y, after) & (f | X_PEND) != 0
  {}

  lemma OfferKeeps(x: FlagUse, y: FlagUse, b: bv8, f: bv8)
    requires OneFlag(f) && b & (f | X_PEND) != 0
    ensures Settle(x, Offer(y, b)) & (f | X_PEND) != 0
  {}

  lemma KeepsDirectly(x: FlagUse, y: FlagUse, after: bv8, f: bv8)
    requires OneFlag(f) && y.barrier & BARRIER_FLAGS == 0
    requires y.useFlags & f != 0 || (Transparent(y, f) && after & f != 0)
    ensures Settle(x, Offer(y, Before(y, after))) & f != 0
  {}

  lemma ReachesOn(s: seq<Inst>, i: int, m: int, j: int)
    requires Reaches(s, i, m) && Edge(s, m, j)
    ensures Reaches(s, i, j)
  {
    var q :| Path(s, q) && q[0] == i && q[|q| - 1] == m;
    assert Path(s, q + [j]);
  }

  lemma LiveTail(s: seq<Inst>, q: seq<int>, f: bv8)
    requires LiveAlong(s, q, f) && Reaches(s, 0, q[0])
    ensures Edge(s, q[0], q[1]) && Reaches(s, 0, q[1])
    ensures |q| > 2 ==> LiveAlong(s, q[1..], f)
  {
    ReachesOn(s, 0, q[0], q[1]);
    forall k | 0 <= k < |q| - 2 ensures Edge(s, q[1..][k], q[1..][k + 1]) { assert Edge(s, q[k + 1], q[k + 2]); }
  }

  /** No live flag is missed: behind any reachable instruction from which a path leads to a
      reader of f without f being certainly overwritten on the way, a solution holds f, or
      the pending request that stands for all flags. */
  lemma {:induction false} LiveFlagCovered(s: seq<Inst>, v: seq<bv8>, q: seq<int>, f: bv8)
    requires FlowSolution(s, v)
    requires forall i | 0 <= i < |s| :: Settle(s[i].flags, v[i]) == v[i] && RegularFlags(s[i].flags)
    requires LiveAlong(s, q, f) && OneFlag(f) && Reaches(s, 0, q[0])
    ensures v[q[0]] & (f | X_PEND) != 0
    decreases |q|
  {
    hide Before, Settle, Offer, Sub, Reaches, Path, RegularFlags, Transparent, Edge, OneFlag, FlowSolution;
    assert |v| == |s| by { SolutionLength(s, v); }
    LiveTail(s, q, f);
    var x, y := s[q[0]].flags, s[q[1]].flags;
    if |q| == 2 {
    } else {
      LiveFlagCovered(s, v, q[1..], f);
    }
    BeforeKeeps(y, v[q[1]], f);
    OfferKeeps(x, y, Before(y, v[q[1]]), f);
    CoveredBy(s, v, q[0], q[1], f | X_PEND);
  }

  /** On a path without flag barriers the flag itself is held. */
  lemma {:induction false} LiveFlagHeld(s: seq<Inst>, v: seq<bv8>, q: seq<int>, f: bv8)
    requires FlowSolution(s, v) && LiveAlong(s, q, f) && OneFlag(f) && Reaches(s, 0, q[0])
    requires forall k | 0 < k < |q| :: s[q[k]].flags.barrier & BARRIER_FLAGS == 0
    ensures v[q[0]] & f != 0
    decreases |q|
  {
    hide Before, Settle, Offer, Sub, Reaches, Path, Transparent, Edge, OneFlag, FlowSolution;
    assert |v| == |s| by { SolutionLength(s, v); }
    LiveTail(s, q, f);
    if |q| == 2 {
    } else {
      LiveFlagHeld(s, v, q[1..], f);
    }
    HeldOver(s, v, q[0], q[1], f);
  }

  /** A flag that is read by i, or held behind i and not overwritten there, is held behind a. */
  lemma HeldOver(s: seq<Inst>, v: seq<bv8>, a: int, i: int, f: bv8)
    requires FlowSolution(s, v) && Edge(s, a, i) && Reaches(s, 0, a) && 0 <= i < |s| && 0 <= a < |s| && OneFlag(f)
    requires s[i].flags.barrier & BARRIER_FLAGS == 0
    requires s[i].flags.useFlags & f != 0 || (Transparent(s[i].flags, f) && v[i] & f != 0)
    ensures v[a] & f != 0
  {
    hide Before, Settle, Offer, Reaches, Transparent, OneFlag;
    KeepsDirectly(s[a].flags, s[i].flags, v[i], f);
    CoveredBy(s, v, a, i, f);
  }

  lemma SolutionLength(s: seq<Inst>, v: seq<bv8>)
    requires FlowSolution(s, v)
    ensures |v| == |s|
  {}

  lemma CoveredBy(s: seq<Inst>, v: seq<bv8>, a: int, i: int, m: bv8)
    requires FlowSolution(s, v) && Edge(s, a, i) && Reaches(s, 0, a) && 0 <= i < |s| && 0 <= a < |s|
    requires Settle(s[a].flags, Offer(s[i].flags, Before(s[i].flags, v[i]))) & m != 0
    ensures v[a] & m != 0
  {
    hide Settle, Offer, Before, Reaches;
  }

  // ---- Why there are no more: every need has a reason

  /** What is asked for may come from behind the instruction: flag f if it is not certainly
      overwritten there, a request for all flags (f being 0) if the instruction has a part in none. */
  predicate Passes(x: FlagUse, f: bv8) {
    x.maySet || if f == 0 then x.stateFlags == 0 else f & x.setFlags == 0
  }

  /** The instruction itself asks for flag f in front of it, or for all of them. */
  predicate Asks(x: FlagUse, f: bv8) {
    x.useFlags & (f | X_PEND) != 0 || x.barrier & BARRIER_FLAGS != 0
  }

  /** Along the path q, flag f (or all flags, f being 0) is asked for behind the first instruction:
      the last one asks for it, or has a request of its own behind it; all between let it pass. */
  ghost predicate WantedAlong(s: seq<Inst>, q: seq<int>, f: bv8) {
    && |q| > 0 && Path(s, q) && (forall k | 0 <= k < |q| :: 0 <= q[k] < |s|)
    && (forall k | 0 < k < |q| - 1 :: Passes(s[q[k]].flags, f))
    && var y := s[q[|q| - 1]];
       || (|q| > 1 && Asks(y.flags, f))
       || (y.needAfter & (f | X_PEND) != 0 && (|q| > 1 ==> Passes(y.flags, f)))
  }

  ghost predicate Wanted(s: seq<Inst>, i: int, f: bv8) {
    exists q :: WantedAlong(s, q, f) && q[0] == i
  }

  lemma WantedHere(s: seq<Inst>, i: int, f: bv8)
    requires 0 <= i < |s| && s[i].needAfter & (f | X_PEND) != 0
    ensures Wanted(s, i, f)
  {
    assert WantedAlong(s, [i], f);
  }

  lemma WantedNext(s: seq<Inst>, a: int, i: int, f: bv8)
    requires 0 <= a < |s| && 0 <= i < |s| && Edge(s, a, i)
    requires Asks(s[i].flags, f) || (Wanted(s, i, f) && Passes(s[i].flags, f))
    ensures Wanted(s, a, f)
  {
    hide Edge, Asks, Passes;
    if Asks(s[i].flags, f) {
      assert WantedAlong(s, [a, i], f);
    } else {
      var q :| WantedAlong(s, q, f) && q[0] == i;
      var r := [a] + q;
      forall k | 0 <= k < |r| - 1 ensures Edge(s, r[k], r[k + 1]) { if k > 0 { assert Edge(s, q[k - 1], q[k]); } }
      forall k | 0 < k < |r| - 1 ensures Passes(s[r[k]].flags, f) { assert r[k] == q[k - 1]; }
      assert WantedAlong(s, r, f);
    }
  }

  /** Who asks for all flags asks for each. */
  lemma WantedEach(s: seq<Inst>, i: int, f: bv8)
    requires OneFlag(f) && Wanted(s, i, 0) && forall k | 0 <= k < |s| :: RegularFlags(s[k].flags)
    ensures Wanted(s, i, f)
  {
    hide Path;
    var q :| WantedAlong(s, q, 0) && q[0] == i;
    forall k | 0 <= k < |q| && Passes(s[q[k]].flags, 0) ensures Passes(s[q[k]].flags, f) {
      assert RegularFlags(s[q[k]].flags);
    }
    AllIsEach(s[q[|q| - 1]], f);
    assert WantedAlong(s, q, f);
  }

  lemma AllIsEach(y: Inst, f: bv8)
    ensures Asks(y.flags, 0) ==> Asks(y.flags, f)
    ensures y.needAfter & (0 | X_PEND) != 0 ==> y.needAfter & (f | X_PEND) != 0
  {}

  ghost function Bit(s: seq<Inst>, i: int, f: bv8): bv8 {
    if Wanted(s, i, f) then f else 0
  }

  /** Everything that is asked for behind instruction i. */
  ghost function Wants(s: seq<Inst>, i: int): bv8
    requires 0 <= i < |s|
  {
    0x40 | Bit(s, i, 1) | Bit(s, i, 2) | Bit(s, i, 4) | Bit(s, i, 8) | Bit(s, i, 16) | Bit(s, i, 32)
    | if Wanted(s, i, 0) && !Direct(s[i].flags) then X_PEND else 0
  }

  lemma WantsAre(s: seq<Inst>, i: int, f: bv8)
    requires 0 <= i < |s| && OneFlag(f)
    ensures Wants(s, i) & f != 0 <==> Wanted(s, i, f)
    ensures Wants(s, i) & X_PEND != 0 <==> Wanted(s, i, 0) && !Direct(s[i].flags)
  {
    hide Wanted, Direct;
  }

  lemma SubOfWants(s: seq<Inst>, i: int, m: bv8)
    requires 0 <= i < |s|
    requires forall f | OneFlag(f) && m & f != 0 :: Wanted(s, i, f)
    requires m & X_PEND != 0 ==> Wanted(s, i, 0) && !Direct(s[i].flags)
    ensures Sub(m, Wants(s, i))
  {
    hide Wanted, Direct, Wants;
    var w := Wants(s, i);
    forall f | OneFlag(f) ensures m & f != 0 ==> w & f != 0 { WantsAre(s, i, f); }
    WantsAre(s, i, 1);
    WantsRest(s, i);
    SubByBits(m, w);
  }

  lemma WantsRest(s: seq<Inst>, i: int)
    requires 0 <= i < |s|
    ensures Wants(s, i) & 0x40 != 0
  {
    hide Wanted, Direct;
  }

  lemma SubByBits(m: bv8, w: bv8)
    requires forall f | OneFlag(f) :: m & f != 0 ==> w & f != 0
    requires (m & X_PEND != 0 ==> w & X_PEND != 0) && w & 0x40 != 0
    ensures Sub(m, w)
  {
    assert OneFlag(1) && OneFlag(2) && OneFlag(4) && OneFlag(8) && OneFlag(16) && OneFlag(32);
  }

  /** A pending request that an instruction passes on comes from itself, or it has no part in it. */
  lemma PendFrom(y: FlagUse, after: bv8)
    requires RegularFlags(y) && Before(y, after) & X_PEND != 0 && (after & X_PEND != 0 ==> !Direct(y))
    ensures y.useFlags & X_PEND != 0 || (after & X_PEND != 0 && Passes(y, 0))
  {}

  /** At a flags barrier no flag is asked for by itself: all are, if any need is left. */
  lemma OfferFlag(y: FlagUse, b: bv8, f: bv8)
    requires OneFlag(f)
    ensures Offer(y, b) & f != 0 <==> b & f != 0 && y.barrier & BARRIER_FLAGS == 0
    ensures Offer(y, b) & X_PEND != 0 <==> if y.barrier & BARRIER_FLAGS != 0 then b != 0 else b & X_PEND != 0
  {}

  lemma AsksFor(y: FlagUse, f: bv8)
    ensures y.useFlags & f != 0 ==> Asks(y, f)
    ensures y.useFlags & X_PEND != 0 || y.barrier & BARRIER_FLAGS != 0 ==> Asks(y, f)
  {}

  lemma PassesOne(y: FlagUse, f: bv8)
    requires OneFlag(f)
    ensures Passes(y, f) <==> Transparent(y, f)
  {}

  /** What i asks of a is wanted behind a. */
  lemma OfferedIsWanted(s: seq<Inst>, a: int, i: int, f: bv8)
    requires 0 <= a < |s| && 0 <= i < |s| && Edge(s, a, i) && RegularFlags(s[i].flags) && OneFlag(f)
    ensures var o := Offer(s[i].flags, Before(s[i].flags, Wants(s, i)));
            (o & f != 0 ==> Wanted(s, a, f)) && (o & X_PEND != 0 ==> Wanted(s, a, 0))
  {
    hide Wanted, Wants, Direct, Before, Offer, Passes, Asks, Transparent, RegularFlags, Edge, OneFlag;
    var y, w := s[i].flags, Wants(s, i);
    var b := Before(y, w);
    WantsAre(s, i, f);
    OfferFlag(y, b, f);
    BeforeFlag(y, w, f);
    AsksFor(y, f);
    AsksFor(y, 0);
    PassesOne(y, f);
    if b & X_PEND != 0 { PendFrom(y, w); }
    if Asks(y, f) || (Wanted(s, i, f) && Passes(y, f)) { WantedNext(s, a, i, f); }
    if Asks(y, 0) || (Wanted(s, i, 0) && Passes(y, 0)) { WantedNext(s, a, i, 0); }
  }

  lemma SettledIsWanted(s: seq<Inst>, a: int, o: bv8)
    requires 0 <= a < |s| && forall k | 0 <= k < |s| :: RegularFlags(s[k].flags)
    requires forall f | OneFlag(f) && o & f != 0 :: Wanted(s, a, f)
    requires o & X_PEND != 0 ==> Wanted(s, a, 0)
    ensures Sub(Settle(s[a].flags, o), Wants(s, a))
  {
    hide Wanted, Wants, Direct, Settle, RegularFlags, OneFlag;
    var m := Settle(s[a].flags, o);
    forall f | OneFlag(f) && m & f != 0 ensures Wanted(s, a, f) {
      SettleFlag(s[a].flags, o, f);
      if o & X_PEND != 0 { WantedEach(s, a, f); }
    }
    PendSettled(s[a].flags, o);
    SubOfWants(s, a, m);
  }

  lemma PendSettled(x: FlagUse, need: bv8)
    ensures Settle(x, need) & X_PEND != 0 ==> need & X_PEND != 0 && !Direct(x)
  {}

  lemma WantsSolve(s: seq<Inst>)
    requires forall k | 0 <= k < |s| :: RegularFlags(s[k].flags)
    ensures FlowSolution(s, seq(|s|, i requires 0 <= i < |s| => Wants(s, i)))
  {
    hide Wanted, Wants, Direct, Settle, RegularFlags, OneFlag, Sub, Edge, Reaches, Offer, Before;
    forall i | 0 <= i < |s| ensures Sub(Settle(s[i].flags, s[i].needAfter), Wants(s, i)) { OwnIsWanted(s, i); }
    forall a, i | Edge(s, a, i) && 0 <= i < |s|
      ensures 0 <= a < |s|
      ensures Sub(Settle(s[a].flags, Offer(s[i].flags, Before(s[i].flags, Wants(s, i)))), Wants(s, a))
    {
      EdgeFrom(s, a, i);
      var o := Offer(s[i].flags, Before(s[i].flags, Wants(s, i)));
      OfferedIsWanted(s, a, i, 1);
      forall f | OneFlag(f) && o & f != 0 ensures Wanted(s, a, f) { OfferedIsWanted(s, a, i, f); }
      SettledIsWanted(s, a, o);
    }
  }

  lemma EdgeFrom(s: seq<Inst>, a: int, i: int)
    requires Edge(s, a, i)
    ensures 0 <= a < |s| && OneFlag(1)
  {}

  lemma OwnIsWanted(s: seq<Inst>, i: int)
    requires 0 <= i < |s| && forall k | 0 <= k < |s| :: RegularFlags(s[k].flags)
    ensures Sub(Settle(s[i].flags, s[i].needAfter), Wants(s, i))
  {
    hide Wanted, Wants, Settle, RegularFlags;
    var o := s[i].needAfter;
    forall f | OneFlag(f) && o & f != 0 ensures Wanted(s, i, f) {
      assert o & (f | X_PEND) != 0;
      WantedHere(s, i, f);
    }
    if o & X_PEND != 0 {
      assert o & (0 | X_PEND) != 0;
      WantedHere(s, i, 0);
    }
    SettledIsWanted(s, i, o);
  }

  /** Nothing is needed without a reason: a flag that the least solution holds behind an
      instruction is wanted along some path that begins there, and so is a pending request. */
  lemma NeedHasReason(s: seq<Inst>, t: seq<Inst>, i: int, f: bv8)
    requires LeastFlow(s, t) && (forall k | 0 <= k < |s| :: RegularFlags(s[k].flags)) && 0 <= i < |s| && OneFlag(f)
    ensures t[i].needAfter & f != 0 ==> Wanted(s, i, f)
    ensures t[i].needAfter & X_PEND != 0 ==> Wanted(s, i, 0)
  {
    hide Wanted, Wants, RegularFlags, FlowSolution, OneFlag, Direct;
    var v := seq(|s|, i requires 0 <= i < |s| => Wants(s, i));
    WantsSolve(s);
    assert Sub(t[i].needAfter, v[i]);
    WantsAre(s, i, f);
  }
}
