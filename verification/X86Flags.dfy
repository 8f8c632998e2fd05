/** The x86 instruction record of the translator and the flag masks it carries
    (src/dynarec/dynarec_private.h), with the per-instruction transfer of the
    backward flag analysis (src/dynarec/dynarec_arm.c). */
module X86Flags {

  const X_ALL: bv8 := 0x3F
  const X_PEND: bv8 := 0x80

  const SF_SET: bv8 := 1
  const SF_PENDING: bv8 := 2
  const SF_SUBSET: bv8 := 5
  const SF_SUBSET_PENDING: bv8 := 7
  const SF_SET_NODF: bv8 := 17

  const BARRIER_FLAGS: bv8 := 1
  const BARRIER_FULL: bv8 := 3

  /** What pass 0 recorded about the flags of an instruction. */
  datatype FlagUse = FlagUse(
    stateFlags: bv8,
    useFlags: bv8,
    setFlags: bv8,
    maySet: bool,
    barrier: bv8)

  /** One instruction of a block being translated. `jmp` is the target address (0 when it
      does not jump), `jmpInsts` the index of the target in this block (-1 when outside);
      `pred` is an offset into the shared predecessor array. */
  datatype Inst = Inst(
    addr: nat,
    jmp: nat,
    jmpInsts: int,
    hasNext: bool,
    alive: bool,
    barrierMaybe: bool,
    flags: FlagUse,
    genFlags: bv8,
    needBefore: bv8,
    needAfter: bv8,
    predSz: nat,
    pred: nat)

  /** a is a subset of b, both read as sets of flags. */
  predicate Sub(a: bv8, b: bv8) {
    a & !b == 0
  }

  /** What an instruction must provide when `need` is asked of it: a pending request to an
      instruction that computes flags at once becomes a request for all of them. */
  function Settle(x: FlagUse, need: bv8): bv8 {
    var direct := x.stateFlags == SF_SUBSET || x.stateFlags == SF_SET || x.stateFlags == SF_SET_NODF;
    var n := if need & X_PEND != 0 && direct then (need & !X_PEND) | X_ALL else need;
    if n & X_PEND != 0 && x.stateFlags == SF_SUBSET_PENDING then n | (X_ALL & !x.setFlags) else n
  }

  /** The flags the instruction generates when `after` is needed behind it. */
  function Gen(x: FlagUse, after: bv8): bv8 {
    var g := after & x.setFlags;
    if after & X_PEND != 0 && x.stateFlags & SF_PENDING != 0 then g | X_PEND else g
  }

  /** The flags needed in front of the instruction when `after` is needed behind it. The
      pending request is consumed on a test of the set_flags word, as in the source. */
  function Before(x: FlagUse, after: bv8): bv8 {
    var g := Gen(x, after);
    var n := after & !g;
    var m := if x.maySet then n | g
             else if n & X_PEND != 0 && x.setFlags & SF_PENDING != 0 then n & !X_PEND
             else n;
    m | x.useFlags
  }

  /** What the instruction asks of its predecessors: at a flags barrier any need becomes a
      pending request. */
  function Offer(x: FlagUse, before: bv8): bv8 {
    if x.barrier & BARRIER_FLAGS != 0 then (if before != 0 then X_PEND else 0) else before
  }

  predicate OneFlag(f: bv8) {
    f in {1, 2, 4, 8, 16, 32}
  }

  /** The flag records pass 0 leaves behind: an instruction that defers its flags, or sets
      them without deferring a subset, sets all of them; one without a state sets none. */
  predicate RegularFlags(x: FlagUse) {
    && (x.stateFlags == 0 ==> x.setFlags == 0)
    && (x.stateFlags == SF_PENDING || x.stateFlags == SF_SET | SF_PENDING ==> X_ALL & !x.setFlags == 0)
    && x.stateFlags in {0, SF_SET, SF_PENDING, SF_SET | SF_PENDING, SF_SUBSET, SF_SUBSET_PENDING, SF_SET_NODF}
  }

  /** Flag f passes through the instruction: it is not certainly overwritten there. */
  predicate Transparent(x: FlagUse, f: bv8) {
    x.maySet || f & x.setFlags == 0
  }

  // ---- What the transfer means for one flag

  /** An instruction that computes its flags at once. */
  predicate Direct(x: FlagUse) {
    x.stateFlags in {SF_SUBSET, SF_SET, SF_SET_NODF}
  }

  /** A flag must be there behind the instruction if it is asked for, or if all flags are: by a
      pending request to an instruction that computes them at once, or to one that defers only
      those that it sets. A pending request stays one unless the instruction computes at once. */
  lemma SettleFlag(x: FlagUse, need: bv8, f: bv8)
    requires OneFlag(f)
    ensures Settle(x, need) & f != 0 <==>
            need & f != 0 ||
              (need & X_PEND != 0 && (Direct(x) || (x.stateFlags == SF_SUBSET_PENDING && x.setFlags & f == 0)))
    ensures Settle(x, need) & X_PEND != 0 <==> need & X_PEND != 0 && !Direct(x)
  {}

  /** A flag is generated exactly when the instruction sets it and it is needed behind; it defers
      exactly when that is asked for. */
  lemma GenFlag(x: FlagUse, after: bv8, f: bv8)
    requires OneFlag(f)
    ensures Gen(x, after) & f != 0 <==> after & f != 0 && x.setFlags & f != 0
    ensures Gen(x, after) & X_PEND != 0 <==>
        after & X_PEND != 0 && (x.setFlags & X_PEND != 0 || x.stateFlags & SF_PENDING != 0)
  {}

  /** A flag is needed in front exactly when it is read, or needed behind and not certainly
      overwritten. */
  lemma BeforeFlag(x: FlagUse, after: bv8, f: bv8)
    requires OneFlag(f)
    ensures Before(x, after) & f != 0 <==> x.useFlags & f != 0 || (after & f != 0 && Transparent(x, f))
  {}

  /** Flag f is generated exactly when the instruction sets it and it is needed behind; it is
      needed in front exactly when it is read, or needed behind and not certainly overwritten. */
  predicate Moves(x: FlagUse, after: bv8, gen: bv8, before: bv8, f: bv8) {
    && (gen & f != 0 <==> after & f != 0 && x.setFlags & f != 0)
    && (before & f != 0 <==> x.useFlags & f != 0 || (after & f != 0 && Transparent(x, f)))
  }

  lemma EachMoves(x: FlagUse, after: bv8)
    ensures forall f | OneFlag(f) :: Moves(x, after, Gen(x, after), Before(x, after), f)
  {
    hide Gen, Before, Transparent, OneFlag;
    forall f | OneFlag(f) ensures Moves(x, after, Gen(x, after), Before(x, after), f) {
      GenFlag(x, after, f);
      BeforeFlag(x, after, f);
    }
  }

  /** A pending request is consumed where flags are deferred, and, as in the source, where the
      parity flag is set. */
  lemma BeforePending(x: FlagUse, after: bv8)
    requires x.setFlags & X_PEND == 0
    ensures Before(x, after) & X_PEND != 0 <==>
            || x.useFlags & X_PEND != 0
            || (after & X_PEND != 0 && (x.maySet || (x.stateFlags & SF_PENDING == 0 && x.setFlags & SF_PENDING == 0)))
  {}

  /** What an instruction provides of a flag that it sets: the flag, or all of them later. */
  lemma GenCovers(x: FlagUse, after: bv8, f: bv8)
    requires OneFlag(f) && RegularFlags(x) && Settle(x, after) == after
    requires after & (f | X_PEND) != 0 && x.setFlags & f != 0
    ensures Gen(x, after) & (f | X_PEND) != 0
  {}

  lemma SubTrans(a: bv8, b: bv8, c: bv8)
    requires Sub(a, b) && Sub(b, c)
    ensures Sub(a, c)
  {}

  /** Settling is monotone, idempotent and distributes over union. */
  lemma SettleMonotone(x: FlagUse, a: bv8, b: bv8)
    requires Sub(a, b)
    ensures Sub(Settle(x, a), Settle(x, b))
  {}

  lemma SettleIdempotent(x: FlagUse, a: bv8)
    ensures Settle(x, Settle(x, a)) == Settle(x, a)
  {}

  lemma SettleJoin(x: FlagUse, a: bv8, b: bv8, c: bv8)
    requires Sub(Settle(x, a), c) && Sub(Settle(x, b), c)
    ensures Sub(Settle(x, a | b), c)
  {
    if (a | b) & X_PEND == 0 {
    } else if a & X_PEND != 0 {
      assert Sub(b, c) || (b & X_PEND != 0);
    } else {
      assert b & X_PEND != 0;
    }
  }

  lemma BeforeMonotone(x: FlagUse, a: bv8, b: bv8)
    requires Sub(a, b)
    ensures Sub(Before(x, a), Before(x, b))
  {}

  lemma OfferMonotone(x: FlagUse, a: bv8, b: bv8)
    requires Sub(a, b)
    ensures Sub(Offer(x, a), Offer(x, b))
  {}

  /** The number of flags still outside a mask: what the analysis uses up. */
  function Missing(m: bv8): nat {
    Gap(m, 1) + Gap(m, 2) + Gap(m, 4) + Gap(m, 8) + Gap(m, 16) + Gap(m, 32) + Gap(m, 64) + Gap(m, 128)
  }

  function Gap(m: bv8, bit: bv8): nat {
    if m & bit == 0 then 1 else 0
  }

  lemma MissingShrinks(a: bv8, b: bv8)
    requires Sub(a, b)
    ensures Missing(b) <= Missing(a)
    ensures a != b ==> Missing(b) < Missing(a)
  {}
}
