/** Resolution of the jumps of a block: from target addresses to instruction indices
    (the barrier calculation of FillBlock in src/dynarec/dynarec_arm.c). */
module JumpTargets {
  import opened X86Flags

  /** Addresses grow strictly over the n instructions of the block, which spans `isize` bytes. */
  ghost predicate Ascending(s: seq<Inst>, n: nat, isize: nat) {
    && 1 <= n <= |s|
    && (forall a, b | 0 <= a < b < n :: s[a].addr < s[b].addr)
    && (forall a | 0 <= a < n :: s[a].addr < s[0].addr + isize)
  }

  /** The jump of i leaves the block, or loops on i itself. */
  predicate Leaves(x: Inst, start: nat, end: nat) {
    x.jmp < start || x.jmp >= end || x.jmp == x.addr
  }

  /** k is where the jump of i resolves to. */
  ghost predicate ResolvesTo(s: seq<Inst>, n: nat, i: int, start: nat, end: nat, k: int)
    requires 0 <= i < |s| && n <= |s|
  {
    if Leaves(s[i], start, end) then k == -1
    else if k == -1 then forall m | 0 <= m < n :: s[m].addr != s[i].jmp
    else 0 <= k < n && s[k].addr == s[i].jmp
  }

  /** Some jump among the first m of `jmps` resolves to k and demands a barrier there. */
  ghost predicate Entered(s: seq<Inst>, n: nat, jmps: seq<int>, m: int, start: nat, end: nat, k: int)
    requires n <= |s| && m <= |jmps| && (forall x | 0 <= x < |jmps| :: 0 <= jmps[x] < |s|)
  {
    exists x ::
      0 <= x < m && 0 <= k < n && !Leaves(s[jmps[x]], start, end) && s[k].addr == s[jmps[x]].jmp &&
        !s[jmps[x]].barrierMaybe
  }

  ghost predicate Seen(jmps: seq<int>, m: int, i: int)
    requires m <= |jmps|
  {
    exists x :: 0 <= x < m && jmps[x] == i
  }

  /** Instruction i of the block once the first m of its jumps have been resolved. */
  ghost predicate ResolvedAt(s: seq<Inst>, y: Inst, n: nat, jmps: seq<int>, m: int, start: nat, end: nat, i: int)
    requires 0 <= i < |s| && n <= |s| && 0 <= m <= |jmps| && (forall x | 0 <= x < |jmps| :: 0 <= jmps[x] < |s|)
  {
    && y == s[i].(jmpInsts := y.jmpInsts, needAfter := y.needAfter, flags := y.flags)
    && y.flags == s[i].flags.(barrier := if Entered(s, n, jmps, m, start, end, i)
      then s[i].flags.barrier | BARRIER_FULL else s[i].flags.barrier)
    && y.needAfter == (if Seen(jmps, m, i) && Leaves(s[i], start, end) then s[i].needAfter | X_PEND else s[i].needAfter)
    && if Seen(jmps, m, i) then ResolvesTo(s, n, i, start, end, y.jmpInsts) else y.jmpInsts == s[i].jmpInsts
  }

  ghost predicate Resolved(s: seq<Inst>, t: seq<Inst>, n: nat, jmps: seq<int>, m: int, start: nat, end: nat)
    requires n <= |s| && 0 <= m <= |jmps| && (forall x | 0 <= x < |jmps| :: 0 <= jmps[x] < |s|)
  {
    |s| == |t| && forall i | 0 <= i < |s| :: ResolvedAt(s, t[i], n, jmps, m, start, end, i)
  }

  /** What resolving the jump of i does to the block, k being the index found (-1: none). */
  function ResolveOne(t: seq<Inst>, i: int, start: nat, end: nat, k: int): seq<Inst>
    requires 0 <= i < |t| && -1 <= k < |t|
  {
    if Leaves(t[i], start, end) then t[i := t[i].(jmpInsts := -1, needAfter := t[i].needAfter | X_PEND)]
    else Targeted(t, i, k)
  }

  function Targeted(t: seq<Inst>, i: int, k: int): seq<Inst>
    requires 0 <= i < |t| && -1 <= k < |t|
  {
    if k == -1 then t[i := t[i].(jmpInsts := -1)]
    else
      var b := if t[i].barrierMaybe then t
        else t[k := t[k].(flags := t[k].flags.(barrier := t[k].flags.barrier | BARRIER_FULL))];
      b[i := b[i].(jmpInsts := k)]
  }

  ghost predicate Distinct(s: seq<Inst>, n: nat) {
    n <= |s| && forall a, b | 0 <= a < b < n :: s[a].addr < s[b].addr
  }

  lemma OrTwice(a: bv8, b: bv8)
    ensures (a | b) | b == a | b
  {}

  lemma ResolvedStep(s: seq<Inst>, t: seq<Inst>, n: nat, jmps: seq<int>, ii: nat, start: nat, end: nat, k: int)
    requires n <= |s| && ii < |jmps| && (forall x | 0 <= x < |jmps| :: 0 <= jmps[x] < |s|)
    requires Resolved(s, t, n, jmps, ii, start, end) && -1 <= k < n
    requires Distinct(s, n)
    requires !Leaves(s[jmps[ii]], start, end) ==> ResolvesTo(s, n, jmps[ii], start, end, k)
    ensures Resolved(s, ResolveOne(t, jmps[ii], start, end, k), n, jmps, ii + 1, start, end)
  {
    var i := jmps[ii];
    var u := ResolveOne(t, i, start, end, k);
    var barred := !Leaves(s[i], start, end) && !s[i].barrierMaybe;
    assert ResolvedAt(s, t[i], n, jmps, ii, start, end, i);
    forall m | 0 <= m < |s| ensures ResolvedAt(s, u[m], n, jmps, ii + 1, start, end, m) {
      assert ResolvedAt(s, t[m], n, jmps, ii, start, end, m);
      EnteredStep(s, n, jmps, ii, start, end, k, m);
      SeenStep(jmps, ii, m);
      OrTwice(s[m].needAfter, X_PEND);
      OrTwice(s[m].flags.barrier, BARRIER_FULL);
      hide Entered, Seen, Distinct;
    }
  }

  lemma SeenStep(jmps: seq<int>, ii: nat, m: int)
    requires ii < |jmps|
    ensures Seen(jmps, ii + 1, m) <==> Seen(jmps, ii, m) || m == jmps[ii]
  {
    if m == jmps[ii] { assert jmps[ii] == m; }
  }

  lemma EnteredStep(s: seq<Inst>, n: nat, jmps: seq<int>, ii: nat, start: nat, end: nat, k: int, m: int)
    requires n <= |s| && ii < |jmps| && (forall x | 0 <= x < |jmps| :: 0 <= jmps[x] < |s|)
    requires -1 <= k < n && Distinct(s, n)
    requires !Leaves(s[jmps[ii]], start, end) ==> ResolvesTo(s, n, jmps[ii], start, end, k)
    ensures Entered(s, n, jmps, ii + 1, start, end, m) <==>
            Entered(s, n, jmps, ii, start, end, m) ||
              (m == k && 0 <= k && !Leaves(s[jmps[ii]], start, end) && !s[jmps[ii]].barrierMaybe)
  {
    if m == k && 0 <= k && !Leaves(s[jmps[ii]], start, end) && !s[jmps[ii]].barrierMaybe {
      assert s[jmps[ii]].jmp == s[m].addr;
    }
  }

  lemma StartResolving(s: seq<Inst>, n: nat, jmps: seq<int>, start: nat, end: nat)
    requires n <= |s| && (forall x | 0 <= x < |jmps| :: 0 <= jmps[x] < |s|)
    ensures Resolved(s, s, n, jmps, 0, start, end)
  {}

  /** Resolution leaves the addresses alone. */
  lemma SameOrder(s: seq<Inst>, t: seq<Inst>, n: nat, isize: nat, jmps: seq<int>, m: int, start: nat, end: nat)
    requires Ascending(s, n, isize) && 0 <= m <= |jmps| && (forall x | 0 <= x < |jmps| :: 0 <= jmps[x] < |s|)
    requires Resolved(s, t, n, jmps, m, start, end)
    ensures Ascending(t, n, isize) && Distinct(s, n) && forall k | 0 <= k < n :: t[k].addr == s[k].addr
  {
    hide Entered, Seen;
    forall k | 0 <= k < n ensures t[k].addr == s[k].addr { assert ResolvedAt(s, t[k], n, jmps, m, start, end, k); }
  }

  lemma SameJump(s: seq<Inst>, t: seq<Inst>, n: nat, jmps: seq<int>, m: int, start: nat, end: nat, i: int)
    requires n <= |s| && 0 <= m <= |jmps| && (forall x | 0 <= x < |jmps| :: 0 <= jmps[x] < |s|) && 0 <= i < |s|
    requires Resolved(s, t, n, jmps, m, start, end)
    ensures t[i].jmp == s[i].jmp && t[i].addr == s[i].addr && t[i].barrierMaybe == s[i].barrierMaybe
  {
    assert ResolvedAt(s, t[i], n, jmps, m, start, end, i);
  }

  /** Dichotomy over the instruction addresses: the index at address j, or -1. */
  method FindInstruction(insts: array<Inst>, size: nat, isize: nat, j: nat) returns (k: int)
    requires size <= insts.Length && Ascending(insts[..], size, isize)
    ensures if k == -1 then forall m | 0 <= m < size :: insts[m].addr != j else 0 <= k < size && insts[k].addr == j
  {
    ghost var s := insts[..];
    k := -1;
    var search := j >= insts[0].addr && j < insts[0].addr + isize;
    var imin, imax, i2 := 0, size - 1, size / 2;
    while search
      invariant 0 <= imin <= imax < size && imin <= i2 <= imax
      invariant search ==> k == -1 && s[imin].addr <= j
      invariant search ==> imax == size - 1 || j < s[imax].addr
      invariant search ==> (imin == 0 && imax == size - 1 && i2 == size / 2) || (imin < i2 < imax && imax - imin >= 2)
      invariant !search ==>
          if k == -1 then forall m | 0 <= m < size :: insts[m].addr != j else 0 <= k < size && insts[k].addr == j
      decreases search, imax - imin, if imin < i2 < imax then 0 else 1
    {
      if insts[i2].addr == j {
        k := i2;
        search := false;
      } else if insts[i2].addr > j {
        imax := i2;
        i2 := (imax + imin) / 2;
      } else {
        imin := i2;
        i2 := (imax + imin) / 2;
      }
      if search && imax - imin < 2 {
        search := false;
        if insts[imin].addr == j {
          k := imin;
        } else if insts[imax].addr == j {
          k := imax;
        }
      }
    }
  }

  /** Resolves the jump of instruction i. */
  method ResolveJump(insts: array<Inst>, size: nat, isize: nat, i: int, start: nat, end: nat)
    returns (self: bool, ghost k: int)
    requires 0 <= i < insts.Length && size <= insts.Length && Ascending(insts[..], size, isize)
    modifies insts
    ensures -1 <= k < size && insts[..] == ResolveOne(old(insts[..]), i, start, end, k)
    ensures !Leaves(old(insts[i]), start, end) ==> ResolvesTo(old(insts[..]), size, i, start, end, k)
    ensures self <==> old(insts[i].jmp) == old(insts[i].addr)
  {
    self, k := false, -1;
    var x := insts[i];
    var j := x.jmp;
    if j < start || j >= end || j == x.addr {
      if j == x.addr {
        self := true;
      }
      SetLeaving(insts, i);
    } else {
      var found := FindInstruction(insts, size, isize, j);
      k := found;
      SetTarget(insts, i, found);
      assert !Leaves(x, start, end);
    }
  }

  method SetLeaving(insts: array<Inst>, i: int)
    requires 0 <= i < insts.Length
    modifies insts
    ensures insts[..] == old(insts[..])[i := old(insts[i]).(jmpInsts := -1,
        needAfter := old(insts[i]).needAfter | X_PEND)]
  {
    var x := insts[i];
    x := x.(jmpInsts := -1, needAfter := x.needAfter | X_PEND);
    insts[i] := x;
  }

  /** Stores the found target in the jump and, unless the jump is a "maybe", a full barrier in
      the target. */
  method SetTarget(insts: array<Inst>, i: int, found: int)
    requires 0 <= i < insts.Length && -1 <= found < insts.Length
    modifies insts
    ensures insts[..] == Targeted(old(insts[..]), i, found)
  {
    ghost var t := insts[..];
    var x := insts[i];
    if found != -1 && !x.barrierMaybe {
      var y := insts[found];
      y := y.(flags := y.flags.(barrier := y.flags.barrier | BARRIER_FULL));
      insts[found] := y;
      assert insts[..] == t[found := y];
    }
    ghost var u := insts[..];
    x := insts[i].(jmpInsts := found);
    insts[i] := x;
    assert insts[..] == u[i := x];
  }

  /** Resolves every jump of the block; tells whether a noted jump goes to itself. */
  method ResolveJumps(insts: array<Inst>, size: nat, isize: nat, jmps: seq<int>, start: nat, end: nat)
    returns (alwaysTest: bool)
    requires size <= insts.Length && Ascending(insts[..], size, isize)
    requires (forall x | 0 <= x < |jmps| :: 0 <= jmps[x] < insts.Length)
    modifies insts
    ensures Resolved(old(insts[..]), insts[..], size, jmps, |jmps|, start, end)
    ensures alwaysTest <==> exists x :: 0 <= x < |jmps| && old(insts[jmps[x]].jmp) == old(insts[jmps[x]].addr)
  {
    hide ResolvedAt, ResolveOne;
    ghost var s := insts[..];
    alwaysTest := false;
    StartResolving(s, size, jmps, start, end);
    for ii := 0 to |jmps|
      invariant Resolved(s, insts[..], size, jmps, ii, start, end)
      invariant alwaysTest <==> exists x | 0 <= x < ii :: s[jmps[x]].jmp == s[jmps[x]].addr
    {
      ghost var t := insts[..];
      SameOrder(s, t, size, isize, jmps, ii, start, end);
      SameJump(s, t, size, jmps, ii, start, end, jmps[ii]);
      var self, k := ResolveJump(insts, size, isize, jmps[ii], start, end);
      alwaysTest := alwaysTest || self;
      ResolvedStep(s, t, size, jmps, ii, start, end, k);
    }
  }
}
