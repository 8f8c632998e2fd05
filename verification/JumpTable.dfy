/** The two-level jump table (src/custommem.c): a first level of pointers to leaf tables, all
    empty leaves being one shared default table. It refines a flat map from every 32-bit
    address to its jump target. */
module JumpTable {

  const JMPTABL_SHIFT := 16
  const LEAF: nat := 0x1_0000      // entries of a leaf, 1 << JMPTABL_SHIFT
  const SLOTS: nat := 0x1_0000     // slots of the first level, 1 << (32 - JMPTABL_SHIFT)
  const TOP: nat := 0x1_0000_0000  // one past the last address

  /** The end of the leaf of addr, or of the range in it that is searched. */
  function LastOf(addr: nat, maxsize: nat): nat {
    addr - addr % LEAF + if maxsize + addr % LEAF > LEAF - 1 then LEAF - 1 else maxsize + addr % LEAF
  }

  /** The slots whose leaves are looked at when [addr, end) has been destroyed: every 64K from addr
      on, up to the end. */
  predicate Visited(addr: nat, end: nat, i: int) {
    addr / LEAF <= i && i * LEAF + addr % LEAF < end
  }

  /** That leaves the last slot of the range out exactly when the range ends at a lower place in
      its slot than it begins in its own. */
  lemma LastSlotVisited(addr: nat, end: nat)
    requires addr < end
    ensures Visited(addr, end, (end - 1) / LEAF) <==> addr % LEAF <= (end - 1) % LEAF
    ensures forall i | addr / LEAF <= i < (end - 1) / LEAF :: Visited(addr, end, i)
    ensures forall i | Visited(addr, end, i) :: i <= (end - 1) / LEAF
  {}

  class Table<T(==)> {
    const jmptbl: array<array<T>>
    const dflt: array<T>
    const armNext: T

    ghost predicate Valid()
      reads this, jmptbl, dflt, jmptbl[..]
    {
      && jmptbl.Length == SLOTS && dflt.Length == LEAF
      && jmptbl as object != dflt
      && (forall i | 0 <= i < LEAF :: dflt[i] == armNext)
      && (forall i | 0 <= i < SLOTS :: jmptbl[i].Length == LEAF && jmptbl as object != jmptbl[i])
      && (forall i, j | 0 <= i < j < SLOTS && jmptbl[i] == jmptbl[j] :: jmptbl[i] == dflt)
    }

    /** The leaves that are not the shared one. */
    ghost function Leaves(): set<object>
      reads jmptbl
    {
      set i | 0 <= i < jmptbl.Length && jmptbl[i] != dflt :: jmptbl[i]
    }

    /** The flat table: the target of address a. */
    ghost function Entry(a: int): T
      requires 0 <= a < TOP && Valid()
      reads this, jmptbl, dflt, jmptbl[..]
    {
      jmptbl[a / LEAF][a % LEAF]
    }

    constructor (armNext: T)
      ensures Valid() && this.armNext == armNext && fresh(jmptbl) && fresh(dflt) && Leaves() == {}
      ensures forall a | 0 <= a < TOP :: Entry(a) == armNext
    {
      this.armNext := armNext;
      var d := new T[LEAF](_ => armNext);
      dflt := d;
      jmptbl := new array<T>[SLOTS](_ => d);
    }

    /** Stores val at t[i] only if ref is there; returns what is there afterwards. */
    static method StoreIfRef(t: array<T>, i: nat, val: T, ref: T) returns (now: T)
      requires i < t.Length
      modifies t
      ensures t[i] == if old(t[i]) == ref then val else old(t[i])
      ensures forall k | 0 <= k < t.Length && k != i :: t[k] == old(t[k])
      ensures now == t[i]
    {
      if t[i] == ref {
        t[i] := val;
      }
      now := t[i];
    }

    /** Gives slot idx1 a leaf of its own, unless it has one. */
    method CreateLeaf(idx1: nat)
      requires Valid() && idx1 < SLOTS
      modifies jmptbl
      ensures Valid() && jmptbl[idx1] != dflt
      ensures forall a | 0 <= a < TOP :: Entry(a) == old(Entry(a))
      ensures forall k | 0 <= k < SLOTS && k != idx1 :: jmptbl[k] == old(jmptbl[k])
      ensures if old(jmptbl[idx1]) == dflt then fresh(jmptbl[idx1]) else jmptbl[idx1] == old(jmptbl[idx1])
    {
      if jmptbl[idx1] == dflt {
        var tbl := new T[LEAF](_ => armNext);
        jmptbl[idx1] := tbl;
      }
    }

    /** Registers jmp at addr if nothing is registered there; tells whether jmp is there now. */
    method AddIfDefault(addr: nat, jmp: T) returns (ok: bool)
      requires Valid() && addr < TOP
      modifies jmptbl, Leaves()
      ensures Valid() && fresh(Leaves() - old(Leaves()))
      ensures forall a | 0 <= a < TOP ::
          Entry(a) == if a == addr && old(Entry(a)) == armNext then jmp else old(Entry(a))
      ensures ok <==> Entry(addr) == jmp
      ensures Own() == old(Own()) + iset{addr / LEAF}
    {
      ok := SetIfRef(addr, jmp, armNext);
    }

    /** Replaces ref by jmp at addr if ref is there; tells whether jmp is there now. */
    method SetIfRef(addr: nat, jmp: T, ref: T) returns (ok: bool)
      requires Valid() && addr < TOP
      modifies jmptbl, Leaves()
      ensures Valid() && fresh(Leaves() - old(Leaves()))
      ensures forall a | 0 <= a < TOP :: Entry(a) == if a == addr && old(Entry(a)) == ref then jmp else old(Entry(a))
      ensures ok <==> Entry(addr) == jmp
      ensures Own() == old(Own()) + iset{addr / LEAF}
    {
      var idx1, idx0 := addr / LEAF, addr % LEAF;
      CreateLeaf(idx1);
      var now := StoreIfRef(jmptbl[idx1], idx0, jmp, ref);
      ok := now == jmp;
    }

    /** Unregisters whatever is at addr. */
    method SetDefault(addr: nat)
      requires Valid() && addr < TOP
      modifies Leaves()
      ensures Valid() && Leaves() == old(Leaves())
      ensures forall a | 0 <= a < TOP :: Entry(a) == if a == addr then armNext else old(Entry(a))
    {
      var idx1 := addr / LEAF;
      if jmptbl[idx1] == dflt {
        return;
      }
      var idx0 := addr % LEAF;
      jmptbl[idx1][idx0] := armNext;
    }

    /** Unregisters jmp at addr if it is there. */
    method SetDefaultRef(addr: nat, jmp: T)
      requires Valid() && addr < TOP
      modifies Leaves()
      ensures Valid() && Leaves() == old(Leaves())
      ensures forall a | 0 <= a < TOP ::
          Entry(a) == if a == addr && old(Entry(a)) == jmp then armNext else old(Entry(a))
    {
      var idx1 := addr / LEAF;
      if jmptbl[idx1] == dflt {
        return;
      }
      var idx0 := addr % LEAF;
      var _ := StoreIfRef(jmptbl[idx1], idx0, armNext, jmp);
    }

    method IsDefault(addr: nat) returns (b: bool)
      requires Valid() && addr < TOP
      ensures b <==> Entry(addr) == armNext
    {
      var idx1 := addr / LEAF;
      if jmptbl[idx1] == dflt {
        return true;
      }
      b := jmptbl[idx1][addr % LEAF] == armNext;
    }

    method Get(addr: nat) returns (t: T)
      requires Valid() && addr < TOP
      ensures t == Entry(addr)
    {
      t := jmptbl[addr / LEAF][addr % LEAF];
    }

    /** True of a private leaf without registrations; false of the shared one. */
    method IsLeafEmpty(idx1: nat) returns (b: bool)
      requires Valid() && idx1 < SLOTS
      ensures b <==> jmptbl[idx1] != dflt && forall i | 0 <= i < LEAF :: jmptbl[idx1][i] == armNext
    {
      var tbl := jmptbl[idx1];
      if tbl == dflt {
        return false;
      }
      for i := 0 to LEAF
        invariant forall k | 0 <= k < i :: tbl[k] == armNext
      {
        if tbl[i] != armNext {
          return false;
        }
      }
      return true;
    }

    /** Nothing is registered in slot i. */
    ghost predicate EmptyAt(i: int)
      requires Valid() && 0 <= i < SLOTS
      reads this, jmptbl, dflt, jmptbl[..]
    {
      forall k | 0 <= k < LEAF :: jmptbl[i][k] == armNext
    }

    /** Gives an empty private leaf back. */
    method ReclaimLeaf(idx1: nat)
      requires Valid() && idx1 < SLOTS
      modifies jmptbl
      ensures Valid() && Leaves() <= old(Leaves())
      ensures forall i | 0 <= i < SLOTS ::
          jmptbl[i] == if i == idx1 && old(EmptyAt(i)) then dflt else old(jmptbl[i])
      ensures forall a | 0 <= a < TOP :: Entry(a) == old(Entry(a))
    {
      var empty := IsLeafEmpty(idx1);
      if empty {
        jmptbl[idx1] := dflt;
      }
    }

    /** Gives the empty leaves of a destroyed range back. */
    method ReclaimLeaves(addr: nat, end: nat)
      requires Valid() && end <= TOP
      modifies jmptbl
      ensures Valid() && Leaves() <= old(Leaves())
      ensures forall a | 0 <= a < TOP :: Entry(a) == old(Entry(a))
      ensures forall i | 0 <= i < SLOTS ::
          jmptbl[i] == if Visited(addr, end, i) && old(EmptyAt(i)) then dflt else old(jmptbl[i])
    {
      var start := addr;
      ghost var k := 0;
      while start < end
        invariant start == addr + k * LEAF && k >= 0 && Valid() && Leaves() <= old(Leaves())
        invariant forall a | 0 <= a < TOP :: Entry(a) == old(Entry(a))
        invariant forall i | 0 <= i < SLOTS ::
            jmptbl[i] == if addr / LEAF <= i < addr / LEAF + k && old(EmptyAt(i)) then dflt else old(jmptbl[i])
        invariant k == 0 || addr + (k - 1) * LEAF < end
      {
        ReclaimLeaf(start / LEAF);
        start := start + LEAF;
        k := k + 1;
      }
    }

    /** The addresses that have a registration, and the slots that have a leaf of their own. */
    ghost function Used(): iset<int>
      requires Valid()
      reads this, jmptbl, dflt, jmptbl[..]
    {
      iset a | 0 <= a < TOP && Entry(a) != armNext
    }

    ghost function Own(): iset<int>
      requires Valid()
      reads this, jmptbl, dflt, jmptbl[..]
    {
      iset i | 0 <= i < SLOTS && jmptbl[i] != dflt
    }

    /** How the search went tells where it goes on. */
    lemma SearchIs(addr: nat, maxsize: nat, found: bool, at: nat, wide: nat)
      requires Valid() && addr < TOP && addr < wide <= TOP
      requires found ==> at < TOP
      requires forall a | addr <= a < (if found then at else wide) :: Entry(a) == armNext
      requires found ==> addr <= at <= LastOf(addr, maxsize) && at < TOP && Entry(at) != armNext && wide == at + 1
      requires found ==> at == addr || jmptbl[addr / LEAF] != dflt
      requires !found ==>
          wide == if jmptbl[addr / LEAF] == dflt then addr - addr % LEAF + LEAF else LastOf(addr, maxsize) + 1
      ensures wide % TOP == NextStart(Used(), Own(), addr, maxsize)
    {
      var used, shared := Used(), jmptbl[addr / LEAF] == dflt;
      hide Entry, Valid;
      if found {
        ScanFree(used, addr, LastOf(addr, maxsize), at);
      } else if !shared {
        ScanFree(used, addr, LastOf(addr, maxsize), wide);
      }
    }

    /** Looks for the next registration from addr on, at most maxsize further and never past
        the leaf of addr. `wide` is the next address to look at, before it is cut to 32 bits. */
    method GetDBSize(addr: nat, maxsize: nat) returns (next: nat, found: bool, at: nat, ghost wide: nat)
      requires Valid() && addr < TOP
      ensures next == wide % TOP && addr < wide <= (addr / LEAF + 1) * LEAF
      ensures found ==> addr <= at < TOP && Entry(at) != armNext && wide == at + 1 && next == (at + 1) % TOP
      ensures found ==> Entry(at) != armNext && forall a | addr <= a < at :: Entry(a) == armNext
      ensures forall a | addr <= a < (if found then at else wide) :: Entry(a) == armNext
      // it comes round to 0 only from the last slot: at its last entry, or when it is empty
      ensures wide == TOP <==>
              (addr / LEAF == SLOTS - 1
               && if found then at == TOP - 1 else jmptbl[SLOTS - 1] == dflt || addr % LEAF + maxsize >= LEAF - 1)
      ensures next == NextStart(Used(), Own(), addr, maxsize)
    {
      next, found, at, wide := Search(addr, maxsize);
      SearchIs(addr, maxsize, found, at, wide);
    }

    method Search(addr: nat, maxsize: nat) returns (next: nat, found: bool, at: nat, ghost wide: nat)
      requires Valid() && addr < TOP
      ensures next == wide % TOP && addr < wide <= (addr / LEAF + 1) * LEAF
      ensures found ==> addr <= at < TOP && Entry(at) != armNext && wide == at + 1 && at <= LastOf(addr, maxsize)
      ensures found ==> at == addr || jmptbl[addr / LEAF] != dflt
      ensures forall a | addr <= a < (if found then at else wide) :: Entry(a) == armNext
      ensures !found ==>
          wide == if jmptbl[addr / LEAF] == dflt then addr - addr % LEAF + LEAF else LastOf(addr, maxsize) + 1
    {
      var idx1, idx0 := addr / LEAF, addr % LEAF;
      var block := jmptbl[idx1];
      if block[idx0] != armNext {
        return (addr + 1) % TOP, true, addr, addr + 1;
      }
      if block == dflt {
        return ((idx1 + 1) * LEAF) % TOP, false, 0, (idx1 + 1) * LEAF;
      }
      var last := if maxsize + idx0 > LEAF - 1 then LEAF - 1 else maxsize + idx0;
      while block[idx0] == armNext
        invariant addr % LEAF <= idx0 <= last
        invariant forall k | addr % LEAF <= k < idx0 :: block[k] == armNext
        decreases last - idx0
      {
        idx0 := idx0 + 1;
        if idx0 > last {
          next := (addr - addr % LEAF + idx0) % TOP;
          return next, false, 0, addr - addr % LEAF + idx0;
        }
      }
      at := addr - addr % LEAF + idx0;
      return (at + 1) % TOP, true, at, at + 1;
    }
  }

  /** The address behind the first registration from a up to last, or behind last. */
  ghost function Scan(used: iset<int>, a: int, last: int): (r: int)
    requires a <= last + 1
    ensures a <= r <= last + 1
    decreases last - a + 1
  {
    if a > last then a else if a in used then a + 1 else Scan(used, a + 1, last)
  }

  lemma {:induction false} ScanFree(used: iset<int>, a: int, last: int, k: int)
    requires a <= k <= last + 1 && forall x | a <= x < k :: x !in used
    requires k in used || k == last + 1
    ensures Scan(used, a, last) == if k == last + 1 then k else k + 1
    decreases k - a
  {
    if a == k {
    } else {
      ScanFree(used, a + 1, last, k);
    }
  }

  /** Where the search goes on after addr, as a 32-bit address. */
  ghost function NextStart(used: iset<int>, own: iset<int>, addr: nat, maxsize: nat): nat
    requires addr < TOP
  {
    if addr !in used && addr / LEAF !in own then (addr - addr % LEAF + LEAF) % TOP
    else Scan(used, addr, LastOf(addr, maxsize)) % TOP
  }

  // ---- The sweep over a range (src/custommem.c:653-665)

  /** Where the sweep up to `end` stands after n rounds, when it began at start. */
  ghost function SweepAfter(used: iset<int>, own: iset<int>, start: nat, end: nat, n: nat): nat
    requires start < TOP && end < TOP
    ensures SweepAfter(used, own, start, end, n) < TOP
    decreases n
  {
    if n == 0 then start
    else
      var s := SweepAfter(used, own, start, end, n - 1);
      if s >= end then s else NextStart(used, own, s, end - s)
  }

  /** A sweep that ends in the last slot can end: that slot has a leaf of its own, and the end is
      not the last address, or the address in front of it is registered. */
  ghost predicate CanEnd(used: iset<int>, own: iset<int>, end: nat) {
    end <= TOP - LEAF || (SLOTS - 1 in own && (end < TOP - 1 || TOP - 2 in used))
  }

  /** One round goes on, or comes round to 0. */
  lemma NextGoesOn(used: iset<int>, own: iset<int>, start: nat, end: nat)
    requires start < end < TOP && CanEnd(used, own, end)
    ensures start < NextStart(used, own, start, end - start)
  {
    ScanUpTo(used, start, LastOf(start, end - start), TOP - 2);
  }

  /** What is registered is not passed over. */
  lemma {:induction false} ScanUpTo(used: iset<int>, a: int, last: int, k: int)
    requires a <= last + 1
    ensures a <= k <= last && k in used ==> Scan(used, a, last) <= k + 1
    ensures a <= last ==> a < Scan(used, a, last)
    decreases last - a + 1
  {
    if a > last {
    } else {
      ScanUpTo(used, a + 1, last, k);
    }
  }

  /** Otherwise no round gets to the end. */
  lemma NextStaysBelow(used: iset<int>, own: iset<int>, start: nat, end: nat)
    requires start < end < TOP && !CanEnd(used, own, end)
    requires forall i | i in used :: i / LEAF in own
    ensures NextStart(used, own, start, end - start) < end
  {
    ScanStops(used, start, LastOf(start, end - start));
  }

  /** The search ends behind a registration, or behind its range. */
  lemma {:induction false} ScanStops(used: iset<int>, a: int, last: int)
    requires a <= last + 1
    ensures var r := Scan(used, a, last); r == last + 1 || (a < r && r - 1 in used)
    decreases last - a + 1
  {
    if a > last {
    } else {
      ScanStops(used, a + 1, last);
    }
  }

  /** The sweep over a range ends if and only if it can. */
  lemma SweepEnds(used: iset<int>, own: iset<int>, start: nat, end: nat)
    requires start < end < TOP && forall i | i in used :: i / LEAF in own
    ensures (exists n :: SweepAfter(used, own, start, end, n) >= end) <==> CanEnd(used, own, end)
  {
    if CanEnd(used, own, end) {
      SweepAdvances(used, own, start, end, end);
    } else {
      forall n ensures SweepAfter(used, own, start, end, n) < end { SweepStuck(used, own, start, end, n); }
    }
  }

  lemma {:induction false} SweepAdvances(used: iset<int>, own: iset<int>, start: nat, end: nat, n: nat)
    requires start < end < TOP && CanEnd(used, own, end)
    ensures SweepAfter(used, own, start, end, n) >= (if n < end then n else end)
  {
    if n == 0 {
    } else {
      SweepAdvances(used, own, start, end, n - 1);
      var s := SweepAfter(used, own, start, end, n - 1);
      if s < end { NextGoesOn(used, own, s, end); }
    }
  }

  lemma {:induction false} SweepStuck(used: iset<int>, own: iset<int>, start: nat, end: nat, n: nat)
    requires start < end < TOP && !CanEnd(used, own, end) && forall i | i in used :: i / LEAF in own
    ensures SweepAfter(used, own, start, end, n) < end
  {
    if n == 0 {
    } else {
      SweepStuck(used, own, start, end, n - 1);
      NextStaysBelow(used, own, SweepAfter(used, own, start, end, n - 1), end);
    }
  }
}
