/** The page protection that guards translated code (src/custommem.c, protectDB and after):
    what is recorded for each address, and what the system enforces. */
module Protection {
  import opened RangeTree

  /** The protection word recorded for an address, its bits named; `rest` holds the others. */
  datatype Prot = Prot(read: bool, write: bool, exec: bool, neverClean: bool, dynarec: bool, dynarecR: bool,
                       noProt: bool, rest: nat)
  {
    /** One of the PROT_DYN (or PROT_CUSTOM) bits. */
    predicate Dyn() { neverClean || dynarec || dynarecR || noProt }

    predicate NeverProt() { neverClean || noProt }

    /** Without the PROT_DYN bits. */
    function Plain(): Prot { this.(neverClean := false, dynarec := false, dynarecR := false, noProt := false) }
  }

  const ZERO := Prot(false, false, false, false, false, false, false, 0)
  const RWX := Prot(true, true, true, false, false, false, false, 0)

  function Recorded(was: Option<Prot>): Prot { if was == None then ZERO else was.value }

  function Asked(was: Option<Prot>): Prot { if Recorded(was) == ZERO then RWX else Recorded(was).Plain() }

  /** What protectDB records for an address that had `was` recorded, or nothing. */
  function ProtectedValue(was: Option<Prot>): Prot {
    if Recorded(was).NeverProt() then Recorded(was)
    else if Asked(was).write then Asked(was).(dynarec := true)
    else Asked(was).(dynarecR := true)
  }

  /** What the system enforces there afterwards, `os` before. */
  function ProtectedOs(was: Option<Prot>, os: Prot): Prot {
    if !Recorded(was).Dyn() && Asked(was).write then Asked(was).(write := false) else os
  }

  /** Whether unprotectDB gives the write permission back and marks the blocks there. */
  predicate GivesBack(was: Option<Prot>) {
    was != None && !was.value.NeverProt() && was.value.dynarec
  }

  function UnprotectedValue(was: Option<Prot>): Option<Prot> {
    if was == None || was.value.NeverProt() || !was.value.Dyn() then was else Some(was.value.Plain())
  }

  function UnprotectedOs(was: Option<Prot>, os: Prot): Prot {
    if GivesBack(was) then was.value.Plain() else os
  }

  /** On an address recorded without emulator bits and enforced as recorded, unprotecting
      after protecting restores both exactly when the recorded value was not 0: protectDB
      takes a recorded 0 for "unknown" and makes it readable, writable and executable. */
  lemma RoundTrip(v: Prot)
    requires !v.Dyn()
    ensures UnprotectedValue(Some(ProtectedValue(Some(v)))) == Some(v) <==> v != ZERO
    ensures UnprotectedOs(Some(ProtectedValue(Some(v))), ProtectedOs(Some(v), v)) == v <==> v != ZERO
  {}

  /** After protecting, an address without the two "never" bits is guarded: a write to it
      traps whenever it would be allowed, unprotecting notices, and protecting again changes
      nothing. */
  lemma ProtectGuards(was: Option<Prot>, os: Prot)
    requires was != None ==> !was.value.NeverProt()
    ensures var v := ProtectedValue(was);
            && v.Dyn() && !v.NeverProt() && (v.write <==> GivesBack(Some(v)))
            && ProtectedValue(Some(v)) == v && ProtectedOs(Some(v), ProtectedOs(was, os)) == ProtectedOs(was, os)
  {}

  /** What protecting leaves of an address recorded as `was` and enforced as o0: the record v and
      the enforced o. The guest keeps what it could do there but for writing. */
  predicate TakenAway(was: Option<Prot>, o0: Prot, v: Prot, o: Prot) {
    if was == None || was.value == ZERO then
      // unknown: readable and executable, and writable once it is given back
      && v == Prot(true, true, true, false, true, false, false, 0)
      && o == Prot(true, false, true, false, false, false, false, 0)
    else
      var w := was.value;
      if w.neverClean || w.noProt then v == w && o == o0
      else
        && v.read == w.read && v.write == w.write && v.exec == w.exec && v.rest == w.rest
        && v.dynarec == w.write && v.dynarecR == !w.write && !v.neverClean && !v.noProt
        && o == if w.write && !w.dynarec && !w.dynarecR then w.(write := false) else o0
  }

  /** What unprotecting leaves: where writing had been taken away it is given back, and everywhere
      the emulator bits go. */
  predicate PutBack(was: Option<Prot>, o0: Prot, now: Option<Prot>, o: Prot) {
    if was == None then now == None && o == o0
    else
      var w := was.value;
      var plain := Prot(w.read, w.write, w.exec, false, false, false, false, w.rest);
      if w.neverClean || w.noProt then now == was && o == o0
      else now == Some(plain) && o == if w.dynarec then plain else o0
  }

  lemma ProtectMeans(was: Option<Prot>, o0: Prot)
    ensures TakenAway(was, o0, ProtectedValue(was), ProtectedOs(was, o0))
    ensures PutBack(was, o0, UnprotectedValue(was), UnprotectedOs(was, o0))
  {}

  /** In particular: what was recorded and enforced as v, without emulator bits, is enforced as v
      without the write permission. */
  lemma OnlyWriting(v: Prot)
    requires !v.Dyn() && v != ZERO
    ensures ProtectedOs(Some(v), v) == v.(write := false)
  {}

  function PageDown(a: int, page: int): int
    requires page > 0
  {
    a - Rem(a, page)
  }

  function PageUp(a: int, page: int): int
    requires page > 0
  {
    PageDown(a + page - 1, page)
  }

  lemma PageBounds(a: int, page: int)
    requires page > 0
    ensures OnPage(PageDown(a, page), page) && PageDown(a, page) <= a < PageDown(a, page) + page
    ensures a >= 0 ==> PageDown(a, page) >= 0
    ensures OnPage(PageUp(a, page), page) && a <= PageUp(a, page) < a + page
  {
    PageMultiple(a, page);
    PageMultiple(a + page - 1, page);
  }

  /** Two page boundaries are at least a page apart. */
  lemma PagesApart(a: int, b: int, page: int)
    requires page > 0 && OnPage(a, page) && OnPage(b, page) && a < b
    ensures a + page <= b
  {
    var p, q := a / page, b / page;
    assert a == p * page && b == q * page;
    if q <= p { MulMono(q, p, page); } else { MulMono(p + 1, q, page); assert (p + 1) * page == p * page + page; }
  }

  lemma NextPage(a: int, page: int)
    requires page > 0 && OnPage(a, page)
    ensures OnPage(a + page, page)
  {
    var q := a / page;
    assert a + page == (q + 1) * page by { assert (q + 1) * page == q * page + page; }
    ModOfProduct(q + 1, page);
  }

  lemma PageOf(x: int, m: int, page: int)
    requires page > 0 && OnPage(m, page) && m <= x < m + page
    ensures PageDown(x, page) == m
  {
    PageBounds(x, page);
    hide Rem;
    var p := PageDown(x, page);
    if p < m { PagesApart(p, m, page); } else if m < p { PagesApart(m, p, page); }
  }

  predicate SamePage(x: int, y: int, page: int)
    requires page > 0
  {
    PageDown(x, page) == PageDown(y, page)
  }

  /** Every address of the pages of [a, a + n) is on the page of one in [a, a + n). */
  lemma PageShared(a: int, n: int, x: int, page: int) returns (y: int)
    requires page > 0 && n > 0 && PageDown(a, page) <= x < PageUp(a + n, page)
    ensures a <= y < a + n && SamePage(x, y, page)
  {
    y := if x < a then a else if x < a + n then x else a + n - 1;
    PageBounds(a, page);
    PageBounds(y, page);
    if x < a {
      PageOf(x, PageDown(a, page), page);
    } else if x >= a + n {
      NextPage(PageDown(y, page), page);
      PageOf(y + page, PageDown(y, page) + page, page);
      PageOf(x, PageDown(y, page), page);
    }
  }

  /** A range of whole pages holds all of a page or nothing of it. */
  lemma WholePages(lo: int, hi: int, x: int, y: int, page: int)
    requires page > 0 && OnPage(lo, page) && OnPage(hi, page) && SamePage(x, y, page)
    ensures lo <= x < hi <==> lo <= y < hi
  {
    PageBounds(x, page);
    PageBounds(y, page);
    hide Rem;
    var p := PageDown(x, page);
    if p < lo { PagesApart(p, lo, page); }
    if p < hi { PagesApart(p, hi, page); }
  }

  /** Records and system know only whole pages. */
  ghost predicate Pagewise(runs: seq<Run<Prot>>, os: int -> Prot, page: int)
    requires page > 0
  {
    forall x, y | SamePage(x, y, page) :: At(runs, x) == At(runs, y) && os(x) == os(y)
  }

  /** Rounding up does not leave a space that ends on a page boundary. */
  lemma PageUpFits(a: int, space: int, page: int)
    requires page > 0 && OnPage(space, page) && a <= space
    ensures PageUp(a, page) <= space
  {
    PageBounds(a, page);
    hide Rem;
    if space < PageUp(a, page) { PagesApart(space, PageUp(a, page), page); }
  }

  lemma PageMultiple(a: int, page: int)
    requires page > 0
    ensures (a - a % page) % page == 0
  {
    var q := a / page;
    assert a - a % page == q * page;
    ModOfProduct(q, page);
  }

  lemma ModOfProduct(q: int, page: int)
    requires page > 0
    ensures (q * page) % page == 0
  {
    var r := (q * page) % page;
    var k := (q * page) / page;
    assert (q - k) * page == r;
    if q - k >= 1 { MulMono(1, q - k, page); } else if q - k <= -1 { MulMono(q - k, -1, page); }
  }

  lemma MulMono(a: int, b: int, page: int)
    requires a <= b && page > 0
    ensures a * page <= b * page
  {}

  // ---- The loops, against a per-address update

  ghost predicate ProtectedTo(runs0: seq<Run<Prot>>, os0: int -> Prot, runs: seq<Run<Prot>>, os: int -> Prot, lo: int,
                              hi: int)
  {
    && (forall x :: At(runs, x) == if lo <= x < hi then Some(ProtectedValue(At(runs0, x))) else At(runs0, x))
    && (forall x :: os(x) == if lo <= x < hi then ProtectedOs(At(runs0, x), os0(x)) else os0(x))
  }

  ghost predicate UnprotectedTo(runs0: seq<Run<Prot>>, os0: int -> Prot, runs: seq<Run<Prot>>, os: int -> Prot,
                                lo: int, hi: int)
  {
    && (forall x :: At(runs, x) == if lo <= x < hi then UnprotectedValue(At(runs0, x)) else At(runs0, x))
    && (forall x :: os(x) == if lo <= x < hi then UnprotectedOs(At(runs0, x), os0(x)) else os0(x))
  }

  lemma ProtectedIs(r0: seq<Run<Prot>>, o0: int -> Prot, r: seq<Run<Prot>>, o: int -> Prot, lo: int, hi: int)
    requires ProtectedTo(r0, o0, r, o, lo, hi)
    ensures forall x :: if lo <= x < hi then At(r, x) != None && TakenAway(At(r0, x), o0(x), At(r, x).value, o(x))
                        else At(r, x) == At(r0, x) && o(x) == o0(x)
  {
    hide At, TakenAway, ProtectedValue, ProtectedOs;
    forall x | lo <= x < hi ensures At(r, x) != None && TakenAway(At(r0, x), o0(x), At(r, x).value, o(x)) {
      ProtectMeans(At(r0, x), o0(x));
    }
  }

  lemma UnprotectedIs(r0: seq<Run<Prot>>, o0: int -> Prot, r: seq<Run<Prot>>, o: int -> Prot, lo: int, hi: int)
    requires UnprotectedTo(r0, o0, r, o, lo, hi)
    ensures forall x :: if lo <= x < hi then PutBack(At(r0, x), o0(x), At(r, x), o(x))
                        else At(r, x) == At(r0, x) && o(x) == o0(x)
  {
    hide At, PutBack, UnprotectedValue, UnprotectedOs;
    forall x | lo <= x < hi ensures PutBack(At(r0, x), o0(x), At(r, x), o(x)) { ProtectMeans(At(r0, x), o0(x)); }
  }

  lemma ProtectedMore(r0: seq<Run<Prot>>, o0: int -> Prot, r1: seq<Run<Prot>>, o1: int -> Prot, r2: seq<Run<Prot>>,
                      o2: int -> Prot, lo: int, mid: int, hi: int)
    requires lo <= mid <= hi && ProtectedTo(r0, o0, r1, o1, lo, mid) && ProtectedTo(r1, o1, r2, o2, mid, hi)
    ensures ProtectedTo(r0, o0, r2, o2, lo, hi)
  {
    hide ProtectedValue, ProtectedOs, At;
  }

  lemma UnprotectedMore(r0: seq<Run<Prot>>, o0: int -> Prot, r1: seq<Run<Prot>>, o1: int -> Prot, r2: seq<Run<Prot>>,
                        o2: int -> Prot, lo: int, mid: int, hi: int)
    requires lo <= mid <= hi && UnprotectedTo(r0, o0, r1, o1, lo, mid) && UnprotectedTo(r1, o1, r2, o2, mid, hi)
    ensures UnprotectedTo(r0, o0, r2, o2, lo, hi)
  {
    hide UnprotectedValue, UnprotectedOs, At;
  }

  lemma PagewiseProtected(r0: seq<Run<Prot>>, o0: int -> Prot, r: seq<Run<Prot>>, o: int -> Prot, lo: int, hi: int,
                          page: int)
    requires page > 0 && Pagewise(r0, o0, page) && ProtectedTo(r0, o0, r, o, lo, hi) && OnPage(lo, page)
    requires OnPage(hi, page)
    ensures Pagewise(r, o, page)
  {
    hide At, SamePage, ProtectedValue, ProtectedOs, OnPage;
    forall x, y | SamePage(x, y, page) ensures At(r, x) == At(r, y) && o(x) == o(y) { WholePages(lo, hi, x, y, page); }
  }

  lemma PagewiseUnprotected(r0: seq<Run<Prot>>, o0: int -> Prot, r: seq<Run<Prot>>, o: int -> Prot, lo: int, hi: int,
                            page: int)
    requires page > 0 && Pagewise(r0, o0, page) && UnprotectedTo(r0, o0, r, o, lo, hi) && OnPage(lo, page)
    requires OnPage(hi, page)
    ensures Pagewise(r, o, page)
  {
    hide At, SamePage, UnprotectedValue, UnprotectedOs, OnPage;
    forall x, y | SamePage(x, y, page) ensures At(r, x) == At(r, y) && o(x) == o(y) { WholePages(lo, hi, x, y, page); }
  }

  lemma UntrackedTo(r: seq<Run<Prot>>, o: int -> Prot, lo: int, hi: int)
    requires Uniform(r, lo, hi, None)
    ensures UnprotectedTo(r, o, r, o, lo, hi)
  {}

  lemma NothingTo(r: seq<Run<Prot>>, o: int -> Prot, lo: int)
    ensures ProtectedTo(r, o, r, o, lo, lo) && UnprotectedTo(r, o, r, o, lo, lo)
  {}

  /** Protecting and unprotecting, at one address and over a range. */
  lemma ThereAndBackAt(r0: seq<Run<Prot>>, o0: int -> Prot, r1: seq<Run<Prot>>, o1: int -> Prot,
                       r2: seq<Run<Prot>>, o2: int -> Prot, lo: int, hi: int, x: int)
    requires ProtectedTo(r0, o0, r1, o1, lo, hi) && UnprotectedTo(r1, o1, r2, o2, lo, hi)
    requires lo <= x < hi ==> At(r0, x) != None && !At(r0, x).value.Dyn() && o0(x) == At(r0, x).value
    ensures At(r2, x) == At(r0, x) && o2(x) == o0(x) <==> !(lo <= x < hi && At(r0, x) == Some(ZERO))
  {
    if lo <= x < hi {
      RoundTrip(At(r0, x).value);
      assert Some(At(r0, x).value) == At(r0, x);
    }
    hide At, ProtectedValue, UnprotectedValue, ProtectedOs, UnprotectedOs;
  }

  lemma ThereAndBack(r0: seq<Run<Prot>>, o0: int -> Prot, r1: seq<Run<Prot>>, o1: int -> Prot,
                     r2: seq<Run<Prot>>, o2: int -> Prot, lo: int, hi: int)
    requires ProtectedTo(r0, o0, r1, o1, lo, hi) && UnprotectedTo(r1, o1, r2, o2, lo, hi)
    requires forall x | lo <= x < hi :: At(r0, x) != None && !At(r0, x).value.Dyn() && o0(x) == At(r0, x).value
    ensures (forall x :: At(r2, x) == At(r0, x) && o2(x) == o0(x)) <==>
        forall x | lo <= x < hi :: At(r0, x) != Some(ZERO)
  {
    hide At, ProtectedTo, UnprotectedTo;
    forall x ensures At(r2, x) == At(r0, x) && o2(x) == o0(x) <==> !(lo <= x < hi && At(r0, x) == Some(ZERO)) {
      ThereAndBackAt(r0, o0, r1, o1, r2, o2, lo, hi, x);
    }
  }

  class Tracker {
    const page: nat
    var memprot: seq<Run<Prot>>
    var os: int -> Prot   // what the system enforces

    ghost predicate Valid()
      reads this
    {
      page > 0 && Sorted(memprot) && Aligned(memprot, page)
    }

    constructor (page: nat)
      requires page > 0
      ensures Valid() && this.page == page && memprot == [] && Pagewise(memprot, os, page)
    {
      this.page := page;
      memprot := [];
      os := _ => ZERO;
    }

    /** What the system call mprotect does. */
    method Mprotect(lo: int, hi: int, prot: Prot)
      modifies this`os
      ensures forall x :: os(x) == if lo <= x < hi then prot else old(os(x))
    {
      var was := os;
      os := x => if lo <= x < hi then prot else was(x);
    }

    method RbSet(lo: int, hi: int, prot: Prot)
      requires Valid() && 0 <= lo < hi <= TOP && OnPage(lo, page) && OnPage(hi, page)
      modifies this`memprot
      ensures Valid() && forall x :: At(memprot, x) == if lo <= x < hi then Some(prot) else old(At(memprot, x))
    {
      AlignedSet(memprot, lo, hi, prot, page);
      AtSet(memprot, lo, hi, prot, lo);
      forall x ensures At(Set(memprot, lo, hi, prot), x) == if lo <= x < hi then Some(prot) else At(memprot, x) {
        AtSet(memprot, lo, hi, prot, x);
      }
      memprot := Set(memprot, lo, hi, prot);
    }

    /** The run at cur, cut off at end. */
    method RunAt(cur: int, end: int) returns (v: Option<Prot>, bend: int)
      requires Valid() && 0 <= cur < end < TOP && OnPage(cur, page) && OnPage(end, page)
      ensures cur < bend <= end && OnPage(bend, page) && v == At(memprot, cur) && Uniform(memprot, cur, bend, v)
    {
      v, bend := GetEnd(memprot, cur);
      if bend > end {
        bend := end;
      }
    }

    /** One run of protectDB: from cur to the end of its run, or to `end`. */
    method ProtectRun(cur: int, end: int) returns (bend: int)
      requires Valid() && 0 <= cur < end < TOP && OnPage(cur, page) && OnPage(end, page)
      modifies this
      ensures Valid() && cur < bend <= end && OnPage(bend, page)
      ensures ProtectedTo(old(memprot), old(os), memprot, os, cur, bend)
    {
      hide Set, At, OnPage, Rem, Sorted, Aligned;
      var v;
      v, bend := RunAt(cur, end);
      var prot := if v == None then ZERO else v.value;
      var oprot, dyn := prot, prot.Dyn();
      if prot == ZERO {
        prot := RWX;
      }
      if !oprot.NeverProt() {
        prot := prot.Plain();
        if prot.write {
          if !dyn {
            Mprotect(cur, bend, prot.(write := false));
          }
          prot := prot.(dynarec := true);
        } else {
          prot := prot.(dynarecR := true);
        }
      }
      if prot != oprot {
        RbSet(cur, bend, prot);
      }
    }

    /** Removes the write permission of every page in the range, so that it can be translated. */
    method ProtectDB(addr: int, size: int)
      requires Valid() && 0 <= addr && 0 <= size && PageUp(addr + size, page) < TOP
      modifies this
      ensures Valid()
      ensures ProtectedTo(old(memprot), old(os), memprot, os, PageDown(addr, page), PageUp(addr + size, page))
      ensures forall x :: if PageDown(addr, page) <= x < PageUp(addr + size, page)
          then At(memprot, x) != None && TakenAway(old(At(memprot, x)), old(os(x)), At(memprot, x).value, os(x))
          else At(memprot, x) == old(At(memprot, x)) && os(x) == old(os(x))
    {
      hide TakenAway, ProtectedTo, At, PageUp, PageDown, Sorted, Aligned, OnPage, Rem;
      PageBounds(addr, page);
      PageBounds(addr + size, page);
      var cur := PageDown(addr, page);
      var end := PageUp(addr + size, page);
      NothingTo(memprot, os, cur);
      while cur != end
        invariant Valid() && PageDown(addr, page) <= cur <= end && OnPage(cur, page)
        invariant ProtectedTo(old(memprot), old(os), memprot, os, PageDown(addr, page), cur)
        decreases end - cur
      {
        ghost var runs, o := memprot, os;
        var bend := ProtectRun(cur, end);
        ProtectedMore(old(memprot), old(os), runs, o, memprot, os, PageDown(addr, page), cur, bend);
        cur := bend;
      }
      ProtectedIs(old(memprot), old(os), memprot, os, PageDown(addr, page), end);
    }

    /** One run of unprotectDB, from cur up to bend, recorded as prot0. */
    method UnprotectRun(cur: int, bend: int, prot0: Prot)
      requires Valid() && 0 <= cur < bend < TOP && OnPage(cur, page) && OnPage(bend, page)
      requires Uniform(memprot, cur, bend, Some(prot0))
      modifies this
      ensures Valid() && UnprotectedTo(old(memprot), old(os), memprot, os, cur, bend)
    {
      hide Set, At, OnPage, Rem, Sorted, Aligned;
      var prot := prot0;
      if !prot.NeverProt() {
        if prot.dynarec {
          prot := prot.Plain();
          Mprotect(cur, bend, prot);
        } else if prot.dynarecR {
          prot := prot.Plain();
        }
      }
      if prot != prot0 {
        RbSet(cur, bend, prot);
      }
    }

    /** Gives the write permission back, without marking the blocks in the range (mark 0). */
    method UnprotectDB(addr: int, size: int)
      requires Valid() && 0 <= addr && 0 <= size && PageUp(addr + size, page) < TOP
      modifies this
      ensures Valid()
      ensures UnprotectedTo(old(memprot), old(os), memprot, os, PageDown(addr, page), PageUp(addr + size, page))
      ensures forall x :: if PageDown(addr, page) <= x < PageUp(addr + size, page)
          then PutBack(old(At(memprot, x)), old(os(x)), At(memprot, x), os(x))
          else At(memprot, x) == old(At(memprot, x)) && os(x) == old(os(x))
    {
      hide PutBack, UnprotectedTo, Uniform, At, PageUp, PageDown, Sorted, Aligned, OnPage, Rem;
      PageBounds(addr, page);
      PageBounds(addr + size, page);
      var cur := PageDown(addr, page);
      var end := PageUp(addr + size, page);
      NothingTo(memprot, os, cur);
      while cur != end
        invariant Valid() && PageDown(addr, page) <= cur <= end && OnPage(cur, page)
        invariant UnprotectedTo(old(memprot), old(os), memprot, os, PageDown(addr, page), cur)
        decreases end - cur
      {
        ghost var runs, o := memprot, os;
        var v, bend := RunAt(cur, end);
        if v == None {
          UntrackedTo(runs, o, cur, bend);
        } else {
          UnprotectRun(cur, bend, v.value);
        }
        UnprotectedMore(old(memprot), old(os), runs, o, memprot, os, PageDown(addr, page), cur, bend);
        cur := bend;
      }
      UnprotectedIs(old(memprot), old(os), memprot, os, PageDown(addr, page), end);
    }

    /** Whether every page of the range is recorded with an emulator bit. */
    method IsProtectedDB(addr: int, size: int) returns (ok: bool)
      requires Valid() && 0 <= addr && 0 <= size && PageUp(addr + size, page) < TOP
      ensures ok <==> forall x | PageDown(addr, page) <= x < PageUp(addr + size, page) ::
                        At(memprot, x) != None && At(memprot, x).value.Dyn()
    {
      hide At, PageUp, PageDown, OnPage, Rem;
      PageBounds(addr, page);
      PageBounds(addr + size, page);
      var cur, end := PageDown(addr, page), PageUp(addr + size, page);
      while cur < end
        invariant PageDown(addr, page) <= cur
        invariant forall x | PageDown(addr, page) <= x < cur :: At(memprot, x) != None && At(memprot, x).value.Dyn()
      {
        var v, bend := GetEnd(memprot, cur);
        if v == None || !v.value.Dyn() {
          assert At(memprot, cur) == v;
          return false;
        }
        cur := bend;
      }
      return true;
    }

    /** Protecting and unprotecting a range of tracked pages without emulator bits restores
        both records exactly when nothing in the range was recorded as 0. */
    method ProtectUnprotect(addr: int, size: int)
      requires Valid() && 0 <= addr && 0 <= size && PageUp(addr + size, page) < TOP
      requires forall x | PageDown(addr, page) <= x < PageUp(addr + size, page) ::
                 At(memprot, x) != None && !At(memprot, x).value.Dyn() && os(x) == At(memprot, x).value
      modifies this
      ensures (forall x :: At(memprot, x) == old(At(memprot, x)) && os(x) == old(os(x))) <==>
              forall x | PageDown(addr, page) <= x < PageUp(addr + size, page) :: old(At(memprot, x)) != Some(ZERO)
    {
      hide PageUp, PageDown, OnPage, Rem, At, ProtectedTo, UnprotectedTo, TakenAway, PutBack;
      ghost var r0, o0 := memprot, os;
      ProtectDB(addr, size);
      ghost var r1, o1 := memprot, os;
      UnprotectDB(addr, size);
      ThereAndBack(r0, o0, r1, o1, memprot, os, PageDown(addr, page), PageUp(addr + size, page));
    }
  }
}
