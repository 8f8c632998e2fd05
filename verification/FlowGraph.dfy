/** The flow graph of a translated block: in-block jumps and fall-throughs between its
    instructions, reachability from the entry, and the predecessor lists. Slot |s|-1 is
    the one behind the block. */
module FlowGraph {
  import opened X86Flags

  predicate Targets(s: seq<Inst>) {
    |s| >= 1 && forall i | 0 <= i < |s| - 1 :: s[i].jmp != 0 ==> s[i].jmpInsts == -1 || 0 <= s[i].jmpInsts < |s| - 1
  }

  predicate Jumps(x: Inst) {
    x.jmp != 0 && x.jmpInsts != -1
  }

  /** Control can pass from instruction i to instruction j inside the block. */
  predicate Edge(s: seq<Inst>, i: int, j: int) {
    && 0 <= i < |s| - 1
    && ((Jumps(s[i]) && s[i].jmpInsts == j) || (i < |s| - 2 && s[i].hasNext && j == i + 1))
  }

  ghost predicate Path(s: seq<Inst>, q: seq<int>) {
    |q| > 0 && forall k | 0 <= k < |q| - 1 :: Edge(s, q[k], q[k + 1])
  }

  ghost predicate Reaches(s: seq<Inst>, i: int, j: int) {
    exists q :: Path(s, q) && q[0] == i && q[|q| - 1] == j
  }

  /** The alive marks are closed under flow. */
  ghost predicate AliveClosed(s: seq<Inst>) {
    forall i, j | Edge(s, i, j) && s[i].alive :: 0 <= j < |s| && s[j].alive
  }

  /** s and t differ only in their alive marks. */
  ghost predicate SameButAlive(s: seq<Inst>, t: seq<Inst>) {
    |s| == |t| && forall i | 0 <= i < |s| :: t[i] == s[i].(alive := t[i].alive)
  }

  /** From s to t everything i flows to has been marked, and nothing else. */
  ghost predicate Marked(s: seq<Inst>, t: seq<Inst>, i: int) {
    && SameButAlive(s, t)
    && (forall k | 0 <= k < |s| :: s[k].alive ==> t[k].alive)
    && 0 <= i < |t| && t[i].alive
    && (forall k | 0 <= k < |s| :: t[k].alive && !s[k].alive ==> Reaches(s, i, k))
    && (forall k, j | Edge(s, k, j) && t[k].alive && !s[k].alive :: 0 <= j < |t| && t[j].alive)
  }

  lemma EdgesIgnoreAlive(s: seq<Inst>, t: seq<Inst>)
    requires SameButAlive(s, t)
    ensures forall i, j :: Edge(s, i, j) <==> Edge(t, i, j)
    ensures forall i, j :: Reaches(s, i, j) <==> Reaches(t, i, j)
    ensures Targets(s) <==> Targets(t)
  {
    forall q ensures Path(s, q) <==> Path(t, q) {}
  }

  /** Marking i, then what its jump and its fall-through lead to, marks all it flows to. */
  lemma MarkedThrough(s: seq<Inst>, t: seq<Inst>, u: seq<Inst>, w: seq<Inst>, i: int)
    requires 0 <= i < |s| - 1 && !s[i].alive && t == s[i := s[i].(alive := true)]
    requires if Jumps(s[i]) then Marked(t, u, s[i].jmpInsts) && Edge(s, i, s[i].jmpInsts) else u == t
    requires if i < |s| - 2 && s[i].hasNext then Marked(u, w, i + 1) else w == u
    ensures Marked(s, w, i)
  {
    MarkedSame(s, t, u, w, i);
    ThroughCloses(s, t, u, w, i);
    hide Reaches, Path, SameButAlive;
    EdgesIgnoreAlive(s, t);
    EdgesIgnoreAlive(s, u);
    if i < |s| - 2 && s[i].hasNext { assert Edge(s, i, i + 1); }
    hide Edge;
    forall k | 0 <= k < |s| && w[k].alive && !s[k].alive ensures Reaches(s, i, k) {
      if k == i { ReachesSelf(s, i); }
      else if u[k].alive { ReachesStep(s, i, s[i].jmpInsts, k); }
      else { ReachesStep(s, i, i + 1, k); }
    }
  }

  lemma ThroughCloses(s: seq<Inst>, t: seq<Inst>, u: seq<Inst>, w: seq<Inst>, i: int)
    requires 0 <= i < |s| - 1 && !s[i].alive && t == s[i := s[i].(alive := true)]
    requires if Jumps(s[i]) then Marked(t, u, s[i].jmpInsts) && Edge(s, i, s[i].jmpInsts) else u == t
    requires if i < |s| - 2 && s[i].hasNext then Marked(u, w, i + 1) else w == u
    ensures |w| == |s|
    ensures forall k, j | Edge(s, k, j) && w[k].alive && !s[k].alive :: 0 <= j < |w| && w[j].alive
  {
    MarkedSame(s, t, u, w, i);
    hide Reaches, Path, SameButAlive;
    EdgesIgnoreAlive(s, t);
    EdgesIgnoreAlive(s, u);
    forall k, j | Edge(s, k, j) && w[k].alive && !s[k].alive ensures 0 <= j < |w| && w[j].alive {
      assert Edge(t, k, j) && Edge(u, k, j);
    }
  }

  lemma MarkedSame(s: seq<Inst>, t: seq<Inst>, u: seq<Inst>, w: seq<Inst>, i: int)
    requires 0 <= i < |s| - 1 && t == s[i := s[i].(alive := true)] && (u == t || SameButAlive(t, u))
    requires w == u || SameButAlive(u, w)
    ensures SameButAlive(s, t) && SameButAlive(s, u) && SameButAlive(s, w)
  {}

  /** Marking from the entry of an unmarked block marks exactly what the entry reaches. */
  lemma MarkedIsReachable(s: seq<Inst>, t: seq<Inst>)
    requires Marked(s, t, 0) && forall k | 0 <= k < |s| :: !s[k].alive
    ensures AliveClosed(t)
    ensures forall k | 0 <= k < |t| :: t[k].alive <==> Reaches(t, 0, k)
  {
    EdgesIgnoreAlive(s, t);
    forall k | 0 <= k < |t| && Reaches(t, 0, k) ensures t[k].alive {
      var q :| Path(t, q) && q[0] == 0 && q[|q| - 1] == k;
      ClosedAlongPath(t, q);
    }
  }

  function Dead(s: seq<Inst>): nat {
    if s == [] then 0 else Dead(s[..|s| - 1]) + (if s[|s| - 1].alive then 0 else 1)
  }

  lemma {:induction false} DeadShrinks(s: seq<Inst>, t: seq<Inst>)
    requires |s| == |t| && forall i | 0 <= i < |s| :: s[i].alive ==> t[i].alive
    ensures Dead(t) <= Dead(s)
    ensures (exists i :: 0 <= i < |s| && !s[i].alive && t[i].alive) ==> Dead(t) < Dead(s)
  {
    if s == [] {
    } else {
      var n := |s| - 1;
      DeadShrinks(s[..n], t[..n]);
      if i :| 0 <= i < |s| && !s[i].alive && t[i].alive {
        assert i < n ==> !s[..n][i].alive && t[..n][i].alive;
      }
    }
  }

  lemma ReachesStep(s: seq<Inst>, i: int, m: int, j: int)
    requires Edge(s, i, m) && Reaches(s, m, j)
    ensures Reaches(s, i, j)
  {
    var q :| Path(s, q) && q[0] == m && q[|q| - 1] == j;
    var r := [i] + q;
    assert forall k | 0 <= k < |r| - 1 :: k > 0 ==> r[k] == q[k - 1] && r[k + 1] == q[k];
    assert Path(s, r);
  }

  lemma ReachesSelf(s: seq<Inst>, i: int)
    ensures Reaches(s, i, i)
  {
    assert Path(s, [i]);
  }

  /** Closed marks hold along a path. */
  lemma {:induction false} ClosedAlongPath(s: seq<Inst>, q: seq<int>)
    requires AliveClosed(s) && Path(s, q) && 0 <= q[0] < |s| && s[q[0]].alive
    ensures 0 <= q[|q| - 1] < |s| && s[q[|q| - 1]].alive
    decreases |q|
  {
    if |q| == 1 {
    } else {
      assert Edge(s, q[0], q[1]);
      var r := q[1..];
      forall k | 0 <= k < |r| - 1 ensures Edge(s, r[k], r[k + 1]) { assert Edge(s, q[k + 1], q[k + 2]); }
      ClosedAlongPath(s, r);
    }
  }

  /** The sources, in program order, of the flow edges into j that leave the first n
      instructions; an instruction that both falls through and jumps to j counts twice. */
  function Sources(s: seq<Inst>, j: int, n: nat): seq<int>
    requires n < |s|
  {
    if n == 0 then [] else Sources(s, j, n - 1) + FallSource(s, j, n - 1) + JumpSource(s, j, n - 1)
  }

  function FallSource(s: seq<Inst>, j: int, i: nat): seq<int>
    requires i < |s| - 1
  {
    if s[i].alive && i != |s| - 2 && s[i].hasNext && j == i + 1 then [i] else []
  }

  function JumpSource(s: seq<Inst>, j: int, i: nat): seq<int>
    requires i < |s| - 1
  {
    if s[i].alive && Jumps(s[i]) && s[i].jmpInsts == j then [i] else []
  }

  /** The multiplicity of a source is the number of ways it flows to j. */
  function Ways(s: seq<Inst>, i: int, j: int): nat
    requires 0 <= i < |s| - 1
  {
    (if i < |s| - 2 && s[i].hasNext && j == i + 1 then 1 else 0) + (if Jumps(s[i]) && s[i].jmpInsts == j then 1 else 0)
  }

  lemma CountThree(a: seq<int>, b: seq<int>, c: seq<int>, i: int)
    ensures multiset(a + b + c)[i] == multiset(a)[i] + multiset(b)[i] + multiset(c)[i]
    ensures i in a <==> multiset(a)[i] > 0
  {}

  lemma LastSources(s: seq<Inst>, j: int, n: nat, i: int)
    requires n < |s| - 1
    ensures multiset(Sources(s, j, n + 1))[i] ==
            multiset(Sources(s, j, n))[i] + (if i == n && s[i].alive then Ways(s, i, j) else 0)
  {
    CountThree(Sources(s, j, n), FallSource(s, j, n), JumpSource(s, j, n), i);
  }

  lemma NoSources(s: seq<Inst>, j: int, i: int)
    requires |s| > 0
    ensures multiset(Sources(s, j, 0))[i] == 0
  {
    assert Sources(s, j, 0) == [];
  }

  lemma {:induction false} SourcesExact(s: seq<Inst>, j: int, n: nat, i: int)
    requires n < |s|
    ensures multiset(Sources(s, j, n))[i] == if 0 <= i < n && s[i].alive then Ways(s, i, j) else 0
  {
    hide *;
    if n == 0 {
      NoSources(s, j, i);
    } else {
      SourcesExact(s, j, n - 1, i);
      LastSources(s, j, n - 1, i);
    }
  }

  /** The list holds exactly the alive instructions that flow to j. */
  lemma SourcesAreEdges(s: seq<Inst>, j: int, i: int)
    requires |s| >= 1
    ensures i in Sources(s, j, |s| - 1) <==> 0 <= i < |s| - 1 && s[i].alive && Edge(s, i, j)
  {
    hide Sources;
    SourcesExact(s, j, |s| - 1, i);
    CountThree(Sources(s, j, |s| - 1), [], [], i);
  }

  lemma SourcesGrow(s: seq<Inst>, j: int, m: nat, n: nat)
    requires m <= n < |s|
    ensures Sources(s, j, m) <= Sources(s, j, n)
    decreases n
  {
    if m == n {
    } else {
      SourcesGrow(s, j, m, n - 1);
    }
  }

  /** How often the jumps of the first n instructions are counted for j. */
  function JumpCount(s: seq<Inst>, j: int, n: nat): nat
    requires n < |s|
  {
    if n == 0 then 0 else JumpCount(s, j, n - 1) + |JumpSource(s, j, n - 1)|
  }

  /** How often the fall-throughs of the first n instructions are counted for j, alive or not. */
  function FallCount(s: seq<Inst>, j: int, n: nat): nat
    requires n < |s|
  {
    if n == 0 then 0 else FallCount(s, j, n - 1) + (if n - 1 < |s| - 2 && s[n - 1].hasNext && j == n then 1 else 0)
  }

  /** The counting passes reserve enough. */
  lemma {:induction false} ReservedEnough(s: seq<Inst>, j: int, n: nat)
    requires n < |s|
    ensures |Sources(s, j, n)| <= JumpCount(s, j, n) + FallCount(s, j, n)
  {
    if n == 0 {
    } else {
      ReservedEnough(s, j, n - 1);
    }
  }

  function Reserved(s: seq<Inst>, n: nat): nat
    requires n <= |s|
  {
    if n == 0 then 0 else Reserved(s, n - 1) + s[n - 1].predSz
  }

  lemma {:induction false} ReservedOne(s: seq<Inst>, t: seq<Inst>, j: nat, n: nat)
    requires |s| == |t| && n <= |s| && j < |s|
    requires forall i | 0 <= i < |s| :: t[i].predSz == s[i].predSz + (if i == j then 1 else 0)
    ensures Reserved(t, n) == Reserved(s, n) + (if j < n then 1 else 0)
  {
    if n == 0 {
    } else {
      ReservedOne(s, t, j, n - 1);
    }
  }

  /** s and t agree on what the jump edges and the alive marks say. */
  ghost predicate SameJumps(s: seq<Inst>, t: seq<Inst>) {
    |s| == |t| && forall i | 0 <= i < |s| ::
      t[i].alive == s[i].alive && t[i].jmp == s[i].jmp && t[i].jmpInsts == s[i].jmpInsts
  }

  lemma {:induction false} JumpCountSame(s: seq<Inst>, t: seq<Inst>, j: int, n: nat)
    requires SameJumps(s, t) && n < |s|
    ensures JumpCount(t, j, n) == JumpCount(s, j, n)
  {
    if n == 0 {
    } else {
      JumpCountSame(s, t, j, n - 1);
    }
  }

  lemma {:induction false} FallCountSame(s: seq<Inst>, t: seq<Inst>, j: int, n: nat)
    requires |s| == |t| && n < |s| && forall i | 0 <= i < |s| :: t[i].hasNext == s[i].hasNext
    ensures FallCount(t, j, n) == FallCount(s, j, n)
  {
    if n == 0 {
    } else {
      FallCountSame(s, t, j, n - 1);
    }
  }

  lemma {:induction false} SourcesSame(s: seq<Inst>, t: seq<Inst>, j: int, n: nat)
    requires SameJumps(s, t) && n < |s| && forall i | 0 <= i < |s| :: t[i].hasNext == s[i].hasNext
    ensures Sources(t, j, n) == Sources(s, j, n)
  {
    if n == 0 {
    } else {
      SourcesSame(s, t, j, n - 1);
    }
  }

  /** Instruction i of t has the fall-through flag of s unless nothing alive follows it. */
  predicate OrphanCut(s: seq<Inst>, t: seq<Inst>, i: int)
    requires 0 <= i < |s| - 2 && |s| == |t|
  {
    t[i].hasNext == (s[i].hasNext && t[i + 1].alive)
  }

  /** The block after marking and counting: only alive marks, orphan fall-throughs and
      predecessor counts have changed. */
  ghost predicate Counted(s: seq<Inst>, t: seq<Inst>) {
    && |s| == |t| >= 1
    && (forall i | 0 <= i < |s| :: t[i] == s[i].(alive := t[i].alive, hasNext := t[i].hasNext, predSz := t[i].predSz))
    && (forall i | 0 <= i < |s| - 2 :: OrphanCut(s, t, i))
    && (forall j | 0 <= j < |s| - 1 :: t[j].predSz == JumpCount(t, j, |s| - 1) + FallCount(t, j, |s| - 1))
    && t[|s| - 1].predSz == 0
  }

  /** The counts once the jumps of the first n instructions are in. */
  ghost predicate JumpsCounted(s: seq<Inst>, t: seq<Inst>, n: nat)
    requires n < |s|
  {
    |t| == |s| && forall k | 0 <= k < |s| :: t[k] == s[k].(predSz := JumpCount(s, k, n))
  }

  /** The counts once the fall-throughs of the first n instructions are in as well. */
  ghost predicate FallsCounted(s: seq<Inst>, t: seq<Inst>, n: nat)
    requires n < |s|
  {
    |t| == |s| && forall k | 0 <= k < |s| :: t[k] == s[k].(predSz := s[k].predSz + FallCount(s, k, n))
  }

  /** The fall-through flags once the first n have been checked for orphans. */
  ghost predicate OrphansCut(s: seq<Inst>, t: seq<Inst>, n: int) {
    && |t| == |s| && n <= |s| - 2
    && (forall k | 0 <= k < |s| :: t[k] == s[k].(hasNext := t[k].hasNext))
    && (forall k | 0 <= k < n :: OrphanCut(s, t, k))
    && (forall k | 0 <= n <= k < |s| :: t[k].hasNext == s[k].hasNext)
  }

  lemma JumpCountStep(s: seq<Inst>, t: seq<Inst>, n: nat)
    requires n < |s| - 1 && Targets(s) && JumpsCounted(s, t, n)
    ensures var u := if s[n].alive && Jumps(s[n])
                     then t[s[n].jmpInsts := t[s[n].jmpInsts].(predSz := t[s[n].jmpInsts].predSz + 1)] else t;
            && JumpsCounted(s, u, n + 1)
            && Reserved(u, |u|) == Reserved(t, |t|) + if s[n].alive && Jumps(s[n]) then 1 else 0
  {
    if s[n].alive && Jumps(s[n]) {
      ReservedOne(t, t[s[n].jmpInsts := t[s[n].jmpInsts].(predSz := t[s[n].jmpInsts].predSz + 1)], s[n].jmpInsts, |t|);
    }
  }

  lemma CutStep(s: seq<Inst>, t: seq<Inst>, n: nat)
    requires n < |s| - 2 && OrphansCut(s, t, n)
    ensures OrphansCut(s, if t[n].hasNext && !t[n + 1].alive then t[n := t[n].(hasNext := false)] else t, n + 1)
  {
    var u := if t[n].hasNext && !t[n + 1].alive then t[n := t[n].(hasNext := false)] else t;
    forall k | 0 <= k < n + 1 ensures OrphanCut(s, u, k) {
      if k < n { assert OrphanCut(s, t, k); }
    }
  }

  lemma FallCountStep(s: seq<Inst>, t: seq<Inst>, n: nat)
    requires n < |s| - 2 && FallsCounted(s, t, n)
    ensures var u := if s[n].hasNext then t[n + 1 := t[n + 1].(predSz := t[n + 1].predSz + 1)] else t;
            && FallsCounted(s, u, n + 1)
            && Reserved(u, |u|) == Reserved(t, |t|) + if s[n].hasNext then 1 else 0
  {
    if s[n].hasNext {
      ReservedOne(t, t[n + 1 := t[n + 1].(predSz := t[n + 1].predSz + 1)], n + 1, |t|);
    }
  }

  lemma {:induction false} NothingReserved(s: seq<Inst>, n: nat)
    requires n <= |s| && forall k | 0 <= k < |s| :: s[k].predSz == 0
    ensures Reserved(s, n) == 0
  {
    if n == 0 {
    } else {
      NothingReserved(s, n - 1);
    }
  }

  lemma {:induction false} ReservedSame(s: seq<Inst>, t: seq<Inst>, n: nat)
    requires |s| == |t| && n <= |s| && forall k | 0 <= k < |s| :: s[k].predSz == t[k].predSz
    ensures Reserved(s, n) == Reserved(t, n)
  {
    if n == 0 {
    } else {
      ReservedSame(s, t, n - 1);
    }
  }

  lemma {:induction false} NobodyFallsOut(s: seq<Inst>, n: nat)
    requires n < |s|
    ensures FallCount(s, |s| - 1, n) == 0
    ensures Targets(s) ==> JumpCount(s, |s| - 1, n) == 0
  {
    if n == 0 {
    } else {
      NobodyFallsOut(s, n - 1);
    }
  }

  /** The passes of sizePredecessors, put together. */
  lemma CountsTogether(s: seq<Inst>, s1: seq<Inst>, s2: seq<Inst>, s3: seq<Inst>, t: seq<Inst>)
    requires |s| >= 2 && Targets(s1) && SameButAlive(s, s1)
    requires JumpsCounted(s1, s2, |s| - 1) && OrphansCut(s2, s3, |s| - 2) && FallsCounted(s3, t, |s| - 2)
    ensures Counted(s, t)
  {
    var n := |s| - 1;
    assert SameJumps(s1, t);
    assert forall k | 0 <= k < |s| :: t[k].hasNext == s3[k].hasNext;
    forall k | 0 <= k < |s| ensures t[k].predSz == JumpCount(t, k, n) + FallCount(t, k, n) {
      JumpCountSame(s1, t, k, n);
      FallCountSame(s3, t, k, n);
      assert FallCount(s3, k, n) == FallCount(s3, k, n - 1);
    }
    NobodyFallsOut(t, n);
    forall k | 0 <= k < |s| - 2 ensures OrphanCut(s, t, k) { assert OrphanCut(s2, s3, k); }
  }

  /** After counting, the flow out of alive instructions is that of the block before, and the
      marks are exact. */
  lemma CountedKeepsFlow(s: seq<Inst>, t: seq<Inst>)
    requires Counted(s, t)
    requires forall k, j | Edge(s, k, j) && t[k].alive :: 0 <= j < |t| && t[j].alive
    ensures forall i, j | 0 <= i < |s| && t[i].alive :: Edge(t, i, j) <==> Edge(s, i, j)
  {
    forall i, j | 0 <= i < |s| && t[i].alive ensures Edge(t, i, j) <==> Edge(s, i, j) {
      assert t[i] == s[i].(alive := t[i].alive, hasNext := t[i].hasNext, predSz := t[i].predSz);
      if i < |s| - 2 {
        assert OrphanCut(s, t, i);
        assert s[i].hasNext ==> Edge(s, i, i + 1);
      }
    }
  }

  lemma ReservedStart(s: seq<Inst>)
    ensures Reserved(s, 0) == 0
  {}

  lemma ReservedNext(s: seq<Inst>, i: nat)
    requires i < |s|
    ensures Reserved(s, i + 1) == Reserved(s, i) + s[i].predSz
  {}

  lemma {:induction false} ReservedApart(s: seq<Inst>, j: nat, k: nat)
    requires j < k <= |s|
    ensures Reserved(s, j) + s[j].predSz <= Reserved(s, k)
  {
    if j + 1 == k {
    } else {
      ReservedApart(s, j, k - 1);
    }
  }

  /** Every list so far sits at the start of its own segment of the shared array. */
  ghost predicate Filled(s: seq<Inst>, t: seq<Inst>, p: seq<int>, lists: seq<seq<int>>) {
    && |s| == |t| == |lists| + 1
    && Reserved(s, |lists|) <= |p|
    && t[|lists|] == s[|lists|]
    && forall k | 0 <= k < |lists| ::
         && t[k] == s[k].(pred := Reserved(s, k), predSz := |lists[k]|)
         && |lists[k]| <= s[k].predSz
         && Reserved(s, k) + s[k].predSz <= |p|
         && p[Reserved(s, k)..Reserved(s, k) + |lists[k]|] == lists[k]
  }

  /** Appending to one list leaves the other segments alone. */
  lemma FilledAppend(s: seq<Inst>, t: seq<Inst>, p: seq<int>, lists: seq<seq<int>>, j: int, i: int)
    requires Filled(s, t, p, lists) && 0 <= j < |lists| && |lists[j]| < s[j].predSz
    ensures t[j].pred + t[j].predSz < |p|
    ensures Filled(s, t[j := t[j].(predSz := t[j].predSz + 1)], p[t[j].pred + t[j].predSz := i],
        lists[j := lists[j] + [i]])
  {
    hide Reserved;
    var at := t[j].pred + t[j].predSz;
    var t', p', lists' := t[j := t[j].(predSz := t[j].predSz + 1)], p[at := i], lists[j := lists[j] + [i]];
    forall k | 0 <= k < |lists'| ensures p'[Reserved(s, k)..Reserved(s, k) + |lists'[k]|] == lists'[k]
    {
      if k < j { ReservedApart(s, k, j); }
      if j < k { ReservedApart(s, j, k); }
      var o := Reserved(s, k);
      assert p[o..o + |lists[k]|] == lists[k];
      forall x | 0 <= x < |lists'[k]| ensures p'[o..o + |lists'[k]|][x] == lists'[k][x] {
        assert x < |lists[k]| ==> p[o..o + |lists[k]|][x] == p[o + x];
      }
    }
  }

  /** The lists after the first n instructions. */
  function SourceLists(s: seq<Inst>, n: nat): (r: seq<seq<int>>)
    requires n < |s|
  {
    seq(|s| - 1, j => Sources(s, j, n))
  }

  /** The lists after the fall-through of instruction n, before its jump. */
  function MidLists(s: seq<Inst>, n: nat): seq<seq<int>>
    requires n < |s| - 1
  {
    seq(|s| - 1, j => Sources(s, j, n) + FallSource(s, j, n))
  }

  lemma FallAdvances(s: seq<Inst>, n: nat)
    requires n < |s| - 1
    ensures MidLists(s, n) == if s[n].alive && n != |s| - 2 && s[n].hasNext
                              then SourceLists(s, n)[n + 1 := SourceLists(s, n)[n + 1] + [n]] else SourceLists(s, n)
  {
    hide Sources;
    var l := SourceLists(s, n);
    forall j | 0 <= j < |s| - 1
      ensures MidLists(s, n)[j] == if s[n].alive && n != |s| - 2 && s[n].hasNext && j == n + 1 then l[j] + [n] else l[j]
    {
      assert l[j] + [] == l[j];
    }
  }

  lemma JumpAdvances(s: seq<Inst>, n: nat)
    requires n < |s| - 1 && Targets(s)
    ensures SourceLists(s, n + 1) == if s[n].alive && Jumps(s[n])
                              then MidLists(s, n)[s[n].jmpInsts := MidLists(s, n)[s[n].jmpInsts] + [n]]
                                else MidLists(s, n)
  {
    forall j | 0 <= j < |s| - 1
      ensures Sources(s, j, n + 1) == Sources(s, j, n) + FallSource(s, j, n) + JumpSource(s, j, n)
    {}
    hide Sources, FallSource;
    var m := MidLists(s, n);
    forall j | 0 <= j < |s| - 1
      ensures SourceLists(s, n + 1)[j] == if s[n].alive && Jumps(s[n]) && j == s[n].jmpInsts then m[j] + [n] else m[j]
    {
      assert m[j] + [] == m[j];
    }
  }

  lemma SourcesStep(s: seq<Inst>, j: int, n: nat)
    requires n < |s| - 1
    ensures |Sources(s, j, n + 1)| == |Sources(s, j, n)| + |FallSource(s, j, n)| + |JumpSource(s, j, n)|
  {}

  /** While filling, the list of j has not outgrown its segment. */
  lemma ListsFit(s: seq<Inst>, j: int, n: nat)
    requires n < |s| - 1 && 0 <= j < |s| - 1
    requires s[j].predSz == JumpCount(s, j, |s| - 1) + FallCount(s, j, |s| - 1)
    ensures |Sources(s, j, n)| + |FallSource(s, j, n)| + |JumpSource(s, j, n)| <= s[j].predSz
  {
    hide *;
    SourcesStep(s, j, n);
    SourcesGrow(s, j, n + 1, |s| - 1);
    ReservedEnough(s, j, |s| - 1);
  }

  /** There is room for the fall-through of n, and then for its jump. */
  lemma FallFits(s: seq<Inst>, n: nat)
    requires n + 1 < |s| - 1 && s[n].alive && s[n].hasNext
    requires s[n + 1].predSz == JumpCount(s, n + 1, |s| - 1) + FallCount(s, n + 1, |s| - 1)
    ensures |SourceLists(s, n)[n + 1]| < s[n + 1].predSz
  {
    ListsFit(s, n + 1, n);
    hide Sources, JumpCount, FallCount;
    assert FallSource(s, n + 1, n) == [n];
  }

  lemma JumpFits(s: seq<Inst>, n: nat)
    requires n < |s| - 1 && s[n].alive && Jumps(s[n]) && 0 <= s[n].jmpInsts < |s| - 1
    requires var j := s[n].jmpInsts; s[j].predSz == JumpCount(s, j, |s| - 1) + FallCount(s, j, |s| - 1)
    ensures |MidLists(s, n)[s[n].jmpInsts]| < s[s[n].jmpInsts].predSz
  {
    var j := s[n].jmpInsts;
    ListsFit(s, j, n);
    hide Sources, JumpCount, FallCount, FallSource;
    assert JumpSource(s, j, n) == [n];
  }

  lemma StartCounting(s: seq<Inst>)
    requires |s| >= 1
    ensures FallsCounted(s, s, 0)
    ensures (forall k | 0 <= k < |s| :: s[k].predSz == 0) ==> JumpsCounted(s, s, 0)
  {}

  lemma MarkedTargets(s: seq<Inst>, t: seq<Inst>)
    requires Marked(s, t, 0) && Targets(s)
    ensures |t| == |s| && Targets(t) && forall k | 0 <= k < |s| :: t[k].predSz == s[k].predSz
  {}

  /** Cutting changes no count. */
  lemma SameSizes(s: seq<Inst>, t: seq<Inst>, n: int)
    requires OrphansCut(s, t, n)
    ensures |s| == |t| && forall k | 0 <= k < |s| :: s[k].predSz == t[k].predSz
  {}

  /** Marking, counting and cutting, put together. */
  lemma SizedInAll(s: seq<Inst>, s1: seq<Inst>, s2: seq<Inst>, s3: seq<Inst>, t: seq<Inst>)
    requires |s| >= 2 && Targets(s) && Marked(s, s1, 0) && forall k | 0 <= k < |s| :: !s[k].alive
    requires JumpsCounted(s1, s2, |s| - 1) && OrphansCut(s2, s3, |s| - 2) && FallsCounted(s3, t, |s| - 2)
    ensures Targets(t) && Counted(s, t) && |t| == |s| && t[|s| - 1].predSz == 0
    ensures forall k | 0 <= k < |s| :: t[k].alive <==> Reaches(s, 0, k)
    ensures forall i, j | 0 <= i < |s| && t[i].alive :: Edge(t, i, j) <==> Edge(s, i, j)
  {
    hide Reaches, Path;
    MarkedIsReachable(s, s1);
    EdgesIgnoreAlive(s, s1);
    CountsTogether(s, s1, s2, s3, t);
    CountedKeepsFlow(s, t);
  }

  lemma LastReserved(s: seq<Inst>)
    requires |s| >= 1 && s[|s| - 1].predSz == 0
    ensures Reserved(s, |s|) == Reserved(s, |s| - 1)
  {}

  lemma SegmentsFit(s: seq<Inst>, n: nat)
    requires n <= |s|
    ensures forall k | 0 <= k < n :: Reserved(s, k) + s[k].predSz <= Reserved(s, n)
  {
    forall k | 0 <= k < n ensures Reserved(s, k) + s[k].predSz <= Reserved(s, n) { ReservedApart(s, k, n); }
  }

  /** Empty segments, laid out one behind the other. */
  lemma LaidOut(s: seq<Inst>, t: seq<Inst>, p: seq<int>)
    requires |s| >= 1 && |t| == |s| && t[|s| - 1] == s[|s| - 1] && Reserved(s, |s| - 1) <= |p|
    requires forall k | 0 <= k < |s| - 1 :: LaidOutAt(s, t, k)
    ensures Filled(s, t, p, seq(|s| - 1, _ => []))
  {
    hide Reserved;
    SegmentsFit(s, |s| - 1);
    forall k | 0 <= k < |s| - 1 ensures LaidOutAt(s, t, k) && Reserved(s, k) + s[k].predSz <= |p| {}
  }

  predicate LaidOutAt(s: seq<Inst>, t: seq<Inst>, k: int)
    requires 0 <= k < |s| == |t|
  {
    t[k] == s[k].(pred := Reserved(s, k), predSz := 0)
  }

  lemma SourceListsEmpty(s: seq<Inst>)
    requires |s| >= 1
    ensures SourceLists(s, 0) == seq(|s| - 1, _ => [])
  {}

  /** Filling changes only where lists are and how long. */
  lemma FilledKeeps(s: seq<Inst>, t: seq<Inst>, p: seq<int>, lists: seq<seq<int>>)
    requires Filled(s, t, p, lists)
    ensures |t| == |s| && forall k | 0 <= k < |s| :: t[k] == s[k].(pred := t[k].pred, predSz := t[k].predSz)
  {
    hide Reserved;
  }
}
