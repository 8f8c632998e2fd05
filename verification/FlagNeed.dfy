/** The backward flag analysis over a translated block: its constraint system, and how the
    state of the analysis may evolve. `s` is the instruction array, whose last slot (index
    |s|-1) is the one behind the block, and `p` the shared predecessor array. */
module FlagNeed {
  import opened X86Flags

  predicate WellFormed(s: seq<Inst>, p: seq<int>) {
    && |s| >= 1
    && s[|s| - 1].predSz == 0
    && forall i | 0 <= i < |s| ::
         && s[i].pred + s[i].predSz <= |p|
         && forall k | s[i].pred <= k < s[i].pred + s[i].predSz :: 0 <= p[k] < |s| - 1
  }

  /** a is one of the recorded predecessors of i. */
  predicate Pred(s: seq<Inst>, p: seq<int>, i: int, a: int)
    requires WellFormed(s, p)
  {
    0 <= i < |s| && Listed(s[i], p, a)
  }

  predicate Listed(x: Inst, p: seq<int>, a: int)
    requires x.pred + x.predSz <= |p|
  {
    exists k :: x.pred <= k < x.pred + x.predSz && p[k] == a
  }

  /** s and t differ only in what the analysis computes. */
  predicate SameInst(x: Inst, y: Inst) {
    y == x.(genFlags := y.genFlags, needBefore := y.needBefore, needAfter := y.needAfter)
  }

  ghost predicate SameShape(s: seq<Inst>, t: seq<Inst>) {
    |s| == |t| && forall i | 0 <= i < |s| :: SameInst(s[i], t[i])
  }

  /** Instruction i is consistent: its three computed masks are the transfer of its needs. */
  predicate NodeOK(s: seq<Inst>, i: int)
    requires 0 <= i < |s|
  {
    && Settle(s[i].flags, s[i].needAfter) == s[i].needAfter
    && s[i].genFlags == Gen(s[i].flags, s[i].needAfter)
    && s[i].needBefore == Before(s[i].flags, s[i].needAfter)
  }

  /** What i asks of its predecessor a is covered by the needs of a, widened by `extra` when
      a is the instruction `at` that is visited next. */
  predicate EdgeOKWith(s: seq<Inst>, i: int, a: int, at: int, extra: bv8)
    requires 0 <= i < |s| && 0 <= a < |s|
  {
    Sub(Settle(s[a].flags, Offer(s[i].flags, s[i].needBefore)),
        Settle(s[a].flags, if a == at then s[a].needAfter | extra else s[a].needAfter))
  }

  predicate EdgeOK(s: seq<Inst>, i: int, a: int)
    requires 0 <= i < |s| && 0 <= a < |s|
  {
    Sub(Settle(s[a].flags, Offer(s[i].flags, s[i].needBefore)), Settle(s[a].flags, s[a].needAfter))
  }

  /** Either never completed (nothing needed in front yet) or consistent. */
  predicate Settled(s: seq<Inst>, i: int)
    requires 0 <= i < |s|
  {
    s[i].needBefore == 0 || NodeOK(s, i)
  }

  /** A vector of after-needs that satisfies every constraint of the block. */
  ghost predicate Solution(s: seq<Inst>, p: seq<int>, v: seq<bv8>)
    requires WellFormed(s, p)
  {
    && |v| == |s|
    && (forall i | 0 <= i < |s| :: Sub(Settle(s[i].flags, s[i].needAfter), v[i]))
    && (forall i, a | Pred(s, p, i, a) :: Sub(Settle(s[a].flags, Offer(s[i].flags, Before(s[i].flags, v[i]))), v[a]))
  }

  /** The state s has not gone past the vector v. */
  ghost predicate Under(s: seq<Inst>, v: seq<bv8>) {
    && |v| == |s|
    && forall i | 0 <= i < |s| ::
         Sub(Settle(s[i].flags, s[i].needAfter), v[i]) && Sub(s[i].needBefore, Before(s[i].flags, v[i]))
  }

  /** v respects the edges of the block (the part of `Solution` that never changes). */
  ghost predicate EdgeClosed(s: seq<Inst>, p: seq<int>, v: seq<bv8>)
    requires WellFormed(s, p)
  {
    |v| == |s| && forall i, a | Pred(s, p, i, a) ::
      Sub(Settle(s[a].flags, Offer(s[i].flags, Before(s[i].flags, v[i]))), v[a])
  }

  /** The needs of t are at least those of s, and what was consistent stays so. */
  ghost predicate Grows(s: seq<Inst>, t: seq<Inst>) {
    && SameShape(s, t)
    && forall i | 0 <= i < |s| ::
         && Sub(s[i].needBefore, t[i].needBefore)
         && Sub(Settle(s[i].flags, s[i].needAfter), Settle(t[i].flags, t[i].needAfter))
         && (Settled(s, i) ==> Settled(t, i))
         && (NodeOK(s, i) ==> NodeOK(t, i))
  }

  /** Edges that were covered in s, or whose target changed since, are covered in t - but for
      the edge into `at`, which may still wait for `extra`. */
  ghost predicate EdgesKept(s: seq<Inst>, t: seq<Inst>, p: seq<int>, at: int, extra: bv8)
    requires WellFormed(s, p) && SameShape(s, t)
  {
    forall i, a | Pred(s, p, i, a) ::
      EdgeOK(s, i, a) || s[i].needBefore != t[i].needBefore ==> EdgeOKWith(t, i, a, at, extra)
  }

  /** As `EdgesKept`, with no edge left waiting. */
  ghost predicate EdgesDone(s: seq<Inst>, t: seq<Inst>, p: seq<int>)
    requires WellFormed(s, p) && SameShape(s, t)
  {
    forall i, a | Pred(s, p, i, a) ::
      EdgeOK(s, i, a) || s[i].needBefore != t[i].needBefore ==> EdgeOK(t, i, a)
  }

  /** As `EdgesKept`, leaving out the edges of instruction n. */
  ghost predicate OthersKept(s: seq<Inst>, t: seq<Inst>, p: seq<int>, n: int)
    requires WellFormed(s, p) && SameShape(s, t)
  {
    forall i, a | i != n && Pred(s, p, i, a) ::
      EdgeOK(s, i, a) || s[i].needBefore != t[i].needBefore ==> EdgeOK(t, i, a)
  }

  /** The first k predecessors of n - the one just above n excepted - have been told that n
      needs `before`; if n has come to need more since, all of them have been told. */
  ghost predicate Served(t: seq<Inst>, p: seq<int>, n: int, before: bv8, k: nat)
    requires WellFormed(t, p) && 0 <= n < |t| && k <= t[n].predSz
  {
    if t[n].needBefore == before
    then forall j | t[n].pred <= j < t[n].pred + k :: p[j] != n - 1 ==> EdgeOK(t, n, p[j])
    else forall a | Pred(t, p, n, a) :: EdgeOK(t, n, a)
  }

  /** No vector of `bounds` is overtaken when n is asked for `need`. */
  ghost predicate MayAsk(s: seq<Inst>, n: int, need: bv8, bounds: iset<seq<bv8>>)
    requires 0 <= n < |s|
  {
    forall v | v in bounds :: |v| == |s| && Sub(Settle(s[n].flags, need), v[n])
  }

  /** Every vector of `bounds` satisfies the edges and lies above s. */
  ghost predicate Bounded(s: seq<Inst>, p: seq<int>, bounds: iset<seq<bv8>>)
    requires WellFormed(s, p)
  {
    forall v | v in bounds :: EdgeClosed(s, p, v) && Under(s, v)
  }

  function Work(s: seq<Inst>): nat {
    if s == [] then 0 else Work(s[..|s| - 1]) + Missing(s[|s| - 1].needBefore)
  }

  lemma {:induction false} WorkShrinks(s: seq<Inst>, t: seq<Inst>)
    requires |s| == |t|
    requires forall i | 0 <= i < |s| :: Sub(s[i].needBefore, t[i].needBefore)
    ensures Work(t) <= Work(s)
    ensures (exists i :: 0 <= i < |s| && s[i].needBefore != t[i].needBefore) ==> Work(t) < Work(s)
  {
    if s == [] {
    } else {
      var n := |s| - 1;
      MissingShrinks(s[n].needBefore, t[n].needBefore);
      WorkShrinks(s[..n], t[..n]);
      if i :| 0 <= i < |s| && s[i].needBefore != t[i].needBefore {
        assert i < n ==> s[..n][i].needBefore != t[..n][i].needBefore;
      }
    }
  }

  lemma PredSame(s: seq<Inst>, t: seq<Inst>, p: seq<int>)
    requires WellFormed(s, p) && SameShape(s, t)
    ensures WellFormed(t, p)
    ensures forall i, a :: Pred(s, p, i, a) <==> Pred(t, p, i, a)
  {
    forall i | 0 <= i < |s| ensures t[i].pred == s[i].pred && t[i].predSz == s[i].predSz {
      assert SameInst(s[i], t[i]);
    }
    forall i, a ensures Pred(s, p, i, a) <==> Pred(t, p, i, a) {
    }
  }

  /** The instruction after it has been asked for `need`. */
  function Visit(x: Inst, need: bv8): Inst {
    var after := Settle(x.flags, x.needAfter | need);
    x.(needAfter := after, genFlags := Gen(x.flags, after), needBefore := Before(x.flags, after))
  }

  lemma VisitInst(x: Inst, need: bv8)
    ensures SameInst(x, Visit(x, need))
    ensures Sub(Settle(x.flags, need), Visit(x, need).needAfter)
    ensures Sub(Settle(x.flags, x.needAfter), Visit(x, need).needAfter)
    ensures Settle(x.flags, Visit(x, need).needAfter) == Visit(x, need).needAfter
    ensures x.needBefore == 0 ==> Sub(x.needBefore, Visit(x, need).needBefore)
    ensures Settle(x.flags, x.needAfter) == x.needAfter && x.needBefore == Before(x.flags, x.needAfter) ==>
              Sub(x.needBefore, Visit(x, need).needBefore)
  {
    SettleMonotone(x.flags, need, x.needAfter | need);
    SettleMonotone(x.flags, x.needAfter, x.needAfter | need);
    SettleIdempotent(x.flags, x.needAfter | need);
    if Settle(x.flags, x.needAfter) == x.needAfter {
      BeforeMonotone(x.flags, x.needAfter, Visit(x, need).needAfter);
    }
  }

  lemma VisitGrows(s: seq<Inst>, n: int, need: bv8)
    requires 0 <= n < |s| && Settled(s, n)
    ensures var t := s[n := Visit(s[n], need)];
            && Grows(s, t) && NodeOK(t, n)
            && (s[n].needBefore != t[n].needBefore ==> Work(t) < Work(s))
  {
    VisitInst(s[n], need);
    WorkShrinks(s, s[n := Visit(s[n], need)]);
  }

  lemma VisitUnder(s: seq<Inst>, n: int, need: bv8, v: seq<bv8>)
    requires 0 <= n < |s| && Under(s, v) && Sub(Settle(s[n].flags, need), v[n])
    ensures Under(s[n := Visit(s[n], need)], v)
  {
    hide Settle, Gen, Before, Sub;
    var y := Visit(s[n], need);
    VisitInst(s[n], need);
    SettleJoin(s[n].flags, s[n].needAfter, need, v[n]);
    BeforeMonotone(s[n].flags, y.needAfter, v[n]);
  }

  /** Below a bound, what n asks of a predecessor stays below the bound too. */
  lemma OfferUnder(t: seq<Inst>, p: seq<int>, n: int, a: int, v: seq<bv8>)
    requires WellFormed(t, p) && EdgeClosed(t, p, v) && Under(t, v) && Pred(t, p, n, a)
    ensures Sub(Settle(t[a].flags, Offer(t[n].flags, t[n].needBefore)), v[a])
  {
    OfferMonotone(t[n].flags, t[n].needBefore, Before(t[n].flags, v[n]));
    SettleMonotone(t[a].flags, Offer(t[n].flags, t[n].needBefore), Offer(t[n].flags, Before(t[n].flags, v[n])));
  }

  lemma BoundedShape(s: seq<Inst>, t: seq<Inst>, p: seq<int>, bounds: iset<seq<bv8>>)
    requires WellFormed(s, p) && Bounded(s, p, bounds) && SameShape(s, t)
    requires forall v | v in bounds :: Under(t, v)
    ensures WellFormed(t, p) && Bounded(t, p, bounds)
  {
    PredSame(s, t, p);
    forall v | v in bounds ensures EdgeClosed(t, p, v) {
      forall i, a | Pred(t, p, i, a)
        ensures Sub(Settle(t[a].flags, Offer(t[i].flags, Before(t[i].flags, v[i]))), v[a])
      {
        assert Pred(s, p, i, a);
        assert SameInst(s[i], t[i]) && SameInst(s[a], t[a]);
      }
    }
  }

  lemma VisitedEdge(s: seq<Inst>, i: int, a: int, n: int, need: bv8)
    requires 0 <= i < |s| && 0 <= a < |s| && 0 <= n < |s|
    requires EdgeOKWith(s, i, a, n, need) && s[i].needBefore == s[n := Visit(s[n], need)][i].needBefore
    ensures EdgeOK(s[n := Visit(s[n], need)], i, a)
  {
    hide Gen, Before, Offer, Sub, Settle;
    SettleIdempotent(s[n].flags, s[n].needAfter | need);
  }

  /** Visiting n settles what was pending on the edge into n. */
  lemma VisitEdges(s0: seq<Inst>, s: seq<Inst>, p: seq<int>, n: int, need: bv8)
    requires WellFormed(s0, p) && SameShape(s0, s) && 0 <= n < |s|
    requires EdgesKept(s0, s, p, n, need)
    ensures var t := s[n := Visit(s[n], need)];
            && SameShape(s0, t) && OthersKept(s0, t, p, n)
            && (s[n].needBefore == t[n].needBefore ==> EdgesDone(s0, t, p))
  {
    hide Settle, Gen, Before, Offer, Sub, EdgeOK, EdgeOKWith;
    var t := s[n := Visit(s[n], need)];
    VisitInst(s[n], need);
    forall i | 0 <= i < |s| ensures SameInst(s0[i], t[i]) { assert SameInst(s0[i], s[i]); }
    forall i, a | Pred(s0, p, i, a) && EdgeOKWith(s, i, a, n, need) && s[i].needBefore == t[i].needBefore
      ensures EdgeOK(t, i, a)
    {
      VisitedEdge(s, i, a, n, need);
    }
  }

  lemma GrowsTrans(s: seq<Inst>, t: seq<Inst>, u: seq<Inst>)
    requires Grows(s, t) && Grows(t, u)
    ensures Grows(s, u)
  {
    forall i | 0 <= i < |s| ensures SameInst(s[i], u[i]) { assert SameInst(s[i], t[i]) && SameInst(t[i], u[i]); }
  }

  ghost predicate AllSettled(s: seq<Inst>) {
    forall i | 0 <= i < |s| :: Settled(s, i)
  }

  ghost predicate NodesOK(s: seq<Inst>, lo: int, hi: int)
    requires -1 <= lo && hi <= |s|
  {
    forall i | lo <= i < hi :: 0 <= i ==> NodeOK(s, i)
  }

  /** A state the analysis may start from. */
  ghost predicate Ready(s: seq<Inst>, p: seq<int>, bounds: iset<seq<bv8>>) {
    WellFormed(s, p) && AllSettled(s) && Bounded(s, p, bounds)
  }

  /** From s to t the analysis ran with nothing left to pass on. */
  ghost predicate Done(s: seq<Inst>, t: seq<Inst>, p: seq<int>, bounds: iset<seq<bv8>>) {
    WellFormed(s, p) && Ready(t, p, bounds) && Grows(s, t) && EdgesDone(s, t, p) && Work(t) <= Work(s)
  }

  /** From s to t the analysis ran and is about to ask n for `need`. */
  ghost predicate Running(s: seq<Inst>, t: seq<Inst>, p: seq<int>, n: int, need: bv8, bounds: iset<seq<bv8>>) {
    && WellFormed(s, p) && Ready(t, p, bounds) && Grows(s, t) && Work(t) <= Work(s)
    && EdgesKept(s, t, p, n, need)
    && (0 <= n ==> n < |t| && MayAsk(t, n, need, bounds))
  }

  /** From s to t the analysis ran; n needs `before` and has told its first k predecessors. */
  ghost predicate Serving(s: seq<Inst>, t: seq<Inst>, p: seq<int>, n: int, before: bv8, k: nat,
                          bounds: iset<seq<bv8>>)
  {
    && WellFormed(s, p) && Ready(t, p, bounds) && Grows(s, t) && Work(t) < Work(s)
    && 0 <= n < |t| && k <= t[n].predSz
    && OthersKept(s, t, p, n) && Served(t, p, n, before, k)
    && (forall a | Pred(t, p, n, a) :: MayAsk(t, a, Offer(t[n].flags, before), bounds))
  }

  lemma BeginRun(s: seq<Inst>, p: seq<int>, n: int, need: bv8, bounds: iset<seq<bv8>>)
    requires Ready(s, p, bounds) && n < |s| && (0 <= n ==> MayAsk(s, n, need, bounds))
    ensures Running(s, s, p, n, need, bounds)
  {
    forall i, a | Pred(s, p, i, a) && EdgeOK(s, i, a) ensures EdgeOKWith(s, i, a, n, need) {
      SettleMonotone(s[a].flags, s[a].needAfter, s[a].needAfter | need);
      SubTrans(Settle(s[a].flags, Offer(s[i].flags, s[i].needBefore)), Settle(s[a].flags, s[a].needAfter),
        Settle(s[a].flags, s[a].needAfter | need));
    }
  }

  lemma EndRun(s: seq<Inst>, t: seq<Inst>, p: seq<int>, n: int, need: bv8, bounds: iset<seq<bv8>>)
    requires Running(s, t, p, n, need, bounds) && n < 0
    ensures Done(s, t, p, bounds)
  {
    hide Settle, Offer, Sub;
  }

  /** One visit, with all it keeps. */
  lemma VisitStep(s0: seq<Inst>, s: seq<Inst>, p: seq<int>, n: int, need: bv8, bounds: iset<seq<bv8>>)
    requires Running(s0, s, p, n, need, bounds) && 0 <= n
    ensures var t := s[n := Visit(s[n], need)];
            && WellFormed(t, p) && Grows(s, t) && NodeOK(t, n) && Sub(Settle(t[n].flags, need), t[n].needAfter)
            && if s[n].needBefore == t[n].needBefore then Done(s0, t, p, bounds)
               else Serving(s0, t, p, n, t[n].needBefore, 0, bounds)
  {
    var t := s[n := Visit(s[n], need)];
    VisitInst(s[n], need);
    VisitGrows(s, n, need);
    forall v | v in bounds ensures Under(t, v) { VisitUnder(s, n, need, v); }
    hide Settle, Gen, Before, Offer, Sub, Visit, Under, EdgeOKWith, EdgeOK, NodeOK, Missing, MayAsk;
    GrowsTrans(s0, s, t);
    VisitEdges(s0, s, p, n, need);
    BoundedShape(s, t, p, bounds);
    WorkShrinks(s, t);
    VisitAsks(t, p, n, bounds);
  }

  /** What n needs in front may be asked of its predecessors. */
  lemma VisitAsks(t: seq<Inst>, p: seq<int>, n: int, bounds: iset<seq<bv8>>)
    requires WellFormed(t, p) && Bounded(t, p, bounds) && 0 <= n < |t|
    ensures forall a | Pred(t, p, n, a) :: MayAsk(t, a, Offer(t[n].flags, t[n].needBefore), bounds)
  {
    hide Settle, Before, Offer, Sub;
    forall a | Pred(t, p, n, a) ensures MayAsk(t, a, Offer(t[n].flags, t[n].needBefore), bounds) {
      forall v | v in bounds ensures |v| == |t| && Sub(Settle(t[a].flags, Offer(t[n].flags, t[n].needBefore)), v[a]) {
        OfferUnder(t, p, n, a, v);
      }
    }
  }

  /** The predecessor just above n is left to the caller. */
  lemma SkipStep(s0: seq<Inst>, t: seq<Inst>, p: seq<int>, n: int, before: bv8, k: nat, bounds: iset<seq<bv8>>)
    requires Serving(s0, t, p, n, before, k, bounds) && k < t[n].predSz
    requires t[n].pred + k < |p| && p[t[n].pred + k] == n - 1
    ensures Serving(s0, t, p, n, before, k + 1, bounds)
  {
    hide Settle, Gen, Before, Offer, Sub, EdgeOK;
  }

  /** One more predecessor has been told. */
  lemma CallServes(t: seq<Inst>, u: seq<Inst>, p: seq<int>, n: int, before: bv8, k: nat)
    requires WellFormed(t, p) && WellFormed(u, p) && Grows(t, u) && EdgesDone(t, u, p)
    requires 0 <= n < |t| && k < t[n].predSz && u[n].predSz == t[n].predSz && Served(t, p, n, before, k)
    requires t[n].pred + k < |p| && 0 <= p[t[n].pred + k] < |u| && NodeOK(u, p[t[n].pred + k])
    requires var a := p[t[n].pred + k]; Sub(Settle(u[a].flags, Offer(t[n].flags, before)), u[a].needAfter)
    ensures Served(u, p, n, before, k + 1)
  {
    hide Settle, Gen, Before, Offer, Sub, Grows;
    GrowsShape(t, u);
    PredSame(t, u, p);
    assert SameInst(t[n], u[n]);
    if u[n].needBefore == before && t[n].needBefore == before {
      forall j | u[n].pred <= j < u[n].pred + k + 1 && p[j] != n - 1 ensures EdgeOK(u, n, p[j]) {
        assert Pred(t, p, n, p[j]);
        assert SameInst(t[p[j]], u[p[j]]);
      }
    }
    GrowsBefore(t, u, n);
  }

  lemma GrowsShape(s: seq<Inst>, t: seq<Inst>)
    requires Grows(s, t)
    ensures SameShape(s, t)
  {}

  lemma GrowsBefore(s: seq<Inst>, t: seq<Inst>, i: int)
    requires Grows(s, t) && 0 <= i < |s|
    ensures SameShape(s, t) && Sub(s[i].needBefore, t[i].needBefore)
  {}

  /** A completed edge stays completed when needs grow and its head is not touched. */
  lemma CallStep(s0: seq<Inst>, t: seq<Inst>, u: seq<Inst>, p: seq<int>, n: int, before: bv8, k: nat,
                 bounds: iset<seq<bv8>>)
    requires Serving(s0, t, p, n, before, k, bounds) && k < t[n].predSz
    requires Done(t, u, p, bounds)
    requires t[n].pred + k < |p| && 0 <= p[t[n].pred + k] < |u|
    requires NodeOK(u, p[t[n].pred + k])
    requires var a := p[t[n].pred + k]; Sub(Settle(u[a].flags, Offer(t[n].flags, before)), u[a].needAfter)
    ensures Serving(s0, u, p, n, before, k + 1, bounds)
    ensures u[n].pred == t[n].pred && u[n].predSz == t[n].predSz && u[n].flags == t[n].flags
  {
    hide Settle, Gen, Before, Offer, Sub, Work, Under, Served, NodeOK;
    GrowsTrans(s0, t, u);
    PredSame(s0, t, p);
    PredSame(t, u, p);
    assert SameInst(t[n], u[n]);
    CallServes(t, u, p, n, before, k);
    forall a | Pred(u, p, n, a) ensures MayAsk(u, a, Offer(u[n].flags, before), bounds) {
      assert SameInst(t[a], u[a]);
    }
  }

  /** Once all predecessors of n are served, only the one the caller goes on to may wait. */
  lemma ServedStep(s0: seq<Inst>, t: seq<Inst>, p: seq<int>, n: int, before: bv8, ok: bool, bounds: iset<seq<bv8>>)
    requires WellFormed(t, p) && 0 <= n < |t|
    requires Serving(s0, t, p, n, before, t[n].predSz, bounds)
    requires ok <==> exists k :: t[n].pred <= k < t[n].pred + t[n].predSz && p[k] == n - 1
    ensures if ok then 0 < n && Running(s0, t, p, n - 1, Offer(t[n].flags, before), bounds) else Done(s0, t, p, bounds)
  {
    hide Settle, Gen, Before, Sub, Work, Under, Offer, EdgeOK, Served;
    var need := Offer(t[n].flags, before);
    PredSame(s0, t, p);
    if ok { assert Pred(t, p, n, n - 1); }
    forall i, a | Pred(s0, p, i, a) && (EdgeOK(s0, i, a) || s0[i].needBefore != t[i].needBefore)
      ensures if ok then EdgeOKWith(t, i, a, n - 1, need) else EdgeOK(t, i, a)
    {
      assert Pred(t, p, i, a);
      if i == n { ServedEdge(t, p, n, before, a); }
      if ok { WaitingEdge(t, i, a, n - 1, need); }
    }
  }

  /** What n needs has been passed on to each predecessor, except for the one just above. */
  lemma ServedEdge(t: seq<Inst>, p: seq<int>, n: int, before: bv8, a: int)
    requires WellFormed(t, p) && 0 <= n < |t| && Served(t, p, n, before, t[n].predSz) && Pred(t, p, n, a)
    ensures 0 <= a < |t| && (EdgeOK(t, n, a) || (a == n - 1 && t[n].needBefore == before))
  {
    hide EdgeOK;
    var k :| t[n].pred <= k < t[n].pred + t[n].predSz && p[k] == a;
  }

  lemma WaitingEdge(t: seq<Inst>, i: int, a: int, at: int, need: bv8)
    requires 0 <= i < |t| && 0 <= a < |t|
    requires EdgeOK(t, i, a) || (a == at && need == Offer(t[i].flags, t[i].needBefore))
    ensures EdgeOKWith(t, i, a, at, need)
  {
    SettleMonotone(t[a].flags, t[a].needAfter, t[a].needAfter | need);
    SettleMonotone(t[a].flags, need, t[a].needAfter | need);
    if EdgeOK(t, i, a) {
      SubTrans(Settle(t[a].flags, Offer(t[i].flags, t[i].needBefore)), Settle(t[a].flags, t[a].needAfter),
        Settle(t[a].flags, t[a].needAfter | need));
    }
  }

  lemma ServingFacts(s0: seq<Inst>, t: seq<Inst>, p: seq<int>, n: int, before: bv8, k: nat, a: int,
                     bounds: iset<seq<bv8>>)
    requires Serving(s0, t, p, n, before, k, bounds) && k < t[n].predSz
    requires t[n].pred + k < |p| && p[t[n].pred + k] == a
    ensures Ready(t, p, bounds) && Work(t) < Work(s0)
    ensures 0 <= a < |t| - 1 && MayAsk(t, a, Offer(t[n].flags, before), bounds)
  {
    hide Settle, Offer, Sub, EdgeOK;
    assert Pred(t, p, n, a);
  }

  lemma DoneFacts(s: seq<Inst>, t: seq<Inst>, p: seq<int>, bounds: iset<seq<bv8>>)
    requires Done(s, t, p, bounds)
    ensures Grows(s, t) && Work(t) <= Work(s)
  {}

  lemma ServingWork(s0: seq<Inst>, t: seq<Inst>, p: seq<int>, n: int, before: bv8, k: nat, bounds: iset<seq<bv8>>)
    requires Serving(s0, t, p, n, before, k, bounds)
    ensures Work(t) < Work(s0)
  {}

  lemma GrowsRefl(s: seq<Inst>)
    ensures Grows(s, s)
  {}

  /** What n was asked for stays covered. */
  lemma StillCovered(s: seq<Inst>, t: seq<Inst>, lo: int, n: int, need: bv8)
    requires Grows(s, t) && 0 <= lo <= n < |s| && NodesOK(s, lo, n + 1) && Sub(Settle(s[n].flags, need), s[n].needAfter)
    ensures Sub(Settle(t[n].flags, need), t[n].needAfter)
  {
    assert NodeOK(s, n);
    hide Settle, Gen, Before, Offer;
    assert SameInst(s[n], t[n]);
    assert NodeOK(t, n);
  }

  lemma NodesGrow(s: seq<Inst>, t: seq<Inst>, lo: int, hi: int)
    requires Grows(s, t) && -1 <= lo && hi <= |s| && NodesOK(s, lo, hi)
    ensures |t| == |s| && NodesOK(t, lo, hi)
  {
    hide NodeOK;
  }

  lemma NodesFrom(s: seq<Inst>, lo: int, hi: int)
    requires 0 <= lo < |s| && hi <= |s| && NodesOK(s, lo + 1, hi) && NodeOK(s, lo)
    ensures NodesOK(s, lo, hi)
  {
    hide NodeOK;
  }

  lemma NodesNone(s: seq<Inst>, n: int)
    requires 0 <= n <= |s|
    ensures NodesOK(s, n, n)
  {}
}
