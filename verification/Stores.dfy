/** What the page protection says about guest stores: which are done, which are noticed, and what
    a list of stores of other threads leaves of the guest's bytes and of the protection
    (src/libtools/signals.c and src/custommem.c, seen from the guest's memory). */
module Stores {
  import opened X31Hash
  import opened Protection
  import R = RangeTree

  type Records = seq<R.Run<Prot>>
  type Writing = seq<(int, Byte)>   // stores, one after the other

  /** What is recorded, what the system enforces, and the guest's bytes. */
  datatype Guest = Guest(memprot: Records, os: int -> Prot, mem: Memory)

  /** What is enforced for an address never allows a write that was to be noticed. */
  predicate Guarded(was: R.Option<Prot>, os: Prot) {
    was == R.None || was.value == ZERO ||
    (!was.value.NeverProt() &&
     if was.value.Dyn() then !os.write && was.value.dynarec == was.value.write
     else os.write ==> was.value.write)
  }

  ghost predicate Pages(memprot: Records, os: int -> Prot) {
    forall x :: Guarded(R.At(memprot, x), os(x))
  }

  /** Whether x is recorded as guarded by the emulator. */
  ghost predicate Tracked(r: Records, x: int) {
    R.At(r, x) != R.None && R.At(r, x).value.Dyn()
  }

  /** Every page of the range is recorded as guarded. */
  ghost predicate TrackedPages(r: Records, page: int, addr: int, size: int)
    requires page > 0
  {
    forall x | PageDown(addr, page) <= x < PageUp(addr + size, page) :: Tracked(r, x)
  }

  lemma TrackedMeans(r: Records, page: int, addr: int, size: int)
    requires page > 0
    ensures TrackedPages(r, page, addr, size) <==>
            forall x | PageDown(addr, page) <= x < PageUp(addr + size, page) ::
              R.At(r, x) != R.None && R.At(r, x).value.Dyn()
  {
    hide R.At, PageDown, PageUp;
    if TrackedPages(r, page, addr, size) {
      forall x | PageDown(addr, page) <= x < PageUp(addr + size, page)
        ensures R.At(r, x) != R.None && R.At(r, x).value.Dyn()
      {
        assert Tracked(r, x);
      }
    } else {
      var x :| PageDown(addr, page) <= x < PageUp(addr + size, page) && !Tracked(r, x);
      assert R.At(r, x) == R.None || !R.At(r, x).value.Dyn();
    }
  }

  lemma TrackedBytes(r: Records, page: int, addr: int, size: int, x: int)
    requires page > 0 && TrackedPages(r, page, addr, size) && addr <= x < addr + size
    ensures Tracked(r, x)
  {
    PageBounds(addr, page);
    PageBounds(addr + size, page);
  }

  ghost predicate NeverCleaned(r: Records, x: int) {
    R.At(r, x) != R.None && R.At(r, x).value.neverClean
  }

  /** A store at x is done: at once, or when the page has been given back. */
  ghost predicate Open(g: Guest, x: int) {
    g.os(x).write || GivesBack(R.At(g.memprot, x))
  }

  /** The value that the stores leave at x, d being there before. */
  function LastStore(ws: Writing, x: int, d: Byte): Byte {
    if ws == [] then d
    else if ws[|ws| - 1].0 == x then ws[|ws| - 1].1
    else LastStore(ws[..|ws| - 1], x, d)
  }

  lemma {:induction false} LastStoreAppend(ws: Writing, us: Writing, x: int, d: Byte)
    ensures LastStore(ws + us, x, d) == LastStore(us, x, LastStore(ws, x, d))
  {
    if us == [] {
      assert ws + us == ws;
    } else {
      var n := |us| - 1;
      assert (ws + us)[..|ws + us| - 1] == ws + us[..n];
      LastStoreAppend(ws, us[..n], x, d);
    }
  }

  lemma LastStoreOne(a: int, v: Byte, x: int, d: Byte)
    ensures LastStore([(a, v)], x, d) == if a == x then v else d
  {
    var ws: Writing := [(a, v)];
    assert ws[..0] == [];
  }

  /** None of the stores is to [lo, hi). */
  ghost predicate Misses(ws: Writing, lo: int, hi: int) {
    forall i | 0 <= i < |ws| :: !(lo <= ws[i].0 < hi)
  }

  lemma {:induction false} LastStoreMissed(ws: Writing, x: int, d: Byte)
    requires forall i | 0 <= i < |ws| :: ws[i].0 != x
    ensures LastStore(ws, x, d) == d
  {
    if ws == [] {
    } else {
      LastStoreMissed(ws[..|ws| - 1], x, d);
    }
  }

  /** The guest's byte at x after the stores: those that are refused leave it. */
  ghost function AppliedAt(g: Guest, ws: Writing, x: int): Byte {
    if Open(g, x) then LastStore(ws, x, g.mem(x)) else g.mem(x)
  }

  /** The guest's bytes after the stores. */
  ghost function Applied(g: Guest, ws: Writing): Memory {
    x => AppliedAt(g, ws, x)
  }

  /** One of the stores is on the page of x. */
  ghost predicate PageHit(ws: Writing, page: int, x: int)
    requires page > 0
  {
    exists i | 0 <= i < |ws| :: SamePage(ws[i].0, x, page)
  }

  /** One of the stores is on a page of [lo, hi). */
  ghost predicate PagesHit(ws: Writing, page: int, lo: int, hi: int)
    requires page > 0
  {
    exists i | 0 <= i < |ws| :: PageDown(lo, page) <= ws[i].0 < PageUp(hi, page)
  }

  /** One of the stores is on a page of [lo, hi), and is done. */
  ghost predicate Touches(ws: Writing, g: Guest, page: int, lo: int, hi: int)
    requires page > 0
  {
    exists i | 0 <= i < |ws| :: PageDown(lo, page) <= ws[i].0 < PageUp(hi, page) && Open(g, ws[i].0)
  }

  // ---- What stores do

  /** What the stores do at x: it has the last value stored there if stores are done at all; it
      is writable then if its page was written to; and no page that was written to is still
      guarded. Whether stores are done does not change. */
  ghost predicate WroteAt(g0: Guest, ws: Writing, g: Guest, page: int, x: int)
    requires page > 0
  {
    && g.mem(x) == AppliedAt(g0, ws, x)
    && (Open(g, x) <==> Open(g0, x))
    && (g.os(x).write <==> g0.os(x).write || (PageHit(ws, page, x) && Open(g0, x)))
    && (Tracked(g.memprot, x) <==> Tracked(g0.memprot, x) && !PageHit(ws, page, x))
  }

  ghost predicate Wrote(g0: Guest, ws: Writing, g: Guest, page: int)
    requires page > 0
  {
    forall x :: WroteAt(g0, ws, g, page, x)
  }

  lemma WroteNone(g: Guest, page: int)
    requires page > 0
    ensures Wrote(g, [], g, page)
  {
    hide R.At, SamePage;
  }

  lemma PageHitAppend(ws: Writing, us: Writing, page: int, x: int)
    requires page > 0
    ensures PageHit(ws + us, page, x) <==> PageHit(ws, page, x) || PageHit(us, page, x)
  {
    hide SamePage;
    var vs := ws + us;
    forall i | 0 <= i < |ws| && SamePage(ws[i].0, x, page) ensures PageHit(vs, page, x) { assert vs[i] == ws[i]; }
    forall i | 0 <= i < |us| && SamePage(us[i].0, x, page) ensures PageHit(vs, page, x) {
      assert vs[|ws| + i] == us[i];
    }
  }

  lemma PagesHitAppend(ws: Writing, us: Writing, page: int, lo: int, hi: int)
    requires page > 0
    ensures PagesHit(ws + us, page, lo, hi) <==> PagesHit(ws, page, lo, hi) || PagesHit(us, page, lo, hi)
  {
    hide PageDown, PageUp;
    var vs := ws + us;
    forall i | 0 <= i < |ws| && PageDown(lo, page) <= ws[i].0 < PageUp(hi, page) ensures PagesHit(vs, page, lo, hi) {
      assert vs[i] == ws[i];
    }
    forall i | 0 <= i < |us| && PageDown(lo, page) <= us[i].0 < PageUp(hi, page) ensures PagesHit(vs, page, lo, hi) {
      assert vs[|ws| + i] == us[i];
    }
  }

  lemma WroteMore(g0: Guest, ws: Writing, g1: Guest, us: Writing, g2: Guest, page: int)
    requires page > 0 && Wrote(g0, ws, g1, page) && Wrote(g1, us, g2, page)
    ensures Wrote(g0, ws + us, g2, page)
  {
    hide Open, Tracked, PageHit, LastStore;
    forall x ensures WroteAt(g0, ws + us, g2, page, x) {
      assert WroteAt(g0, ws, g1, page, x) && WroteAt(g1, us, g2, page, x);
      LastStoreAppend(ws, us, x, g0.mem(x));
      PageHitAppend(ws, us, page, x);
    }
  }

  /** Where the pages of [lo, hi) are hit, and what that means for an address on them. */
  lemma HitOnPages(ws: Writing, page: int, lo: int, hi: int, x: int)
    requires page > 0 && PageDown(lo, page) <= x < PageUp(hi, page) && PageHit(ws, page, x)
    ensures PagesHit(ws, page, lo, hi)
  {
    hide SamePage, PageDown, PageUp;
    var i :| 0 <= i < |ws| && SamePage(ws[i].0, x, page);
    PageBounds(lo, page);
    PageBounds(hi, page);
    WholePages(PageDown(lo, page), PageUp(hi, page), ws[i].0, x, page);
  }

  /** The guest's bytes under a page that is still guarded are as they were. */
  lemma TrackedKept(g0: Guest, ws: Writing, g: Guest, page: int, x: int)
    requires page > 0 && Wrote(g0, ws, g, page) && Tracked(g.memprot, x)
    ensures Tracked(g0.memprot, x) && g.mem(x) == g0.mem(x)
  {
    hide R.At, LastStore;
    assert WroteAt(g0, ws, g, page, x);
    forall i | 0 <= i < |ws| ensures PageHit(ws, page, ws[i].0) { SamePageSelf(ws[i].0, page); }
    LastStoreMissed(ws, x, g0.mem(x));
  }

  // ---- One store

  lemma HitByOne(a: int, v: Byte, page: int, x: int)
    requires page > 0
    ensures PageHit([(a, v)], page, x) <==> SamePage(a, x, page)
  {
    hide SamePage;
    var ws: Writing := [(a, v)];
    if SamePage(a, x, page) { assert ws[0].0 == a; }
  }

  /** A store that the system allows. */
  lemma WroteAtOnce(g0: Guest, a: int, v: Byte, g: Guest, page: int)
    requires page > 0 && Pages(g0.memprot, g0.os) && Pagewise(g0.memprot, g0.os, page) && g0.os(a).write
    requires g.memprot == g0.memprot && g.os == g0.os
    requires forall x :: g.mem(x) == if x == a then v else g0.mem(x)
    ensures Wrote(g0, [(a, v)], g, page)
  {
    hide R.At, SamePage, LastStore, PageHit;
    forall x ensures WroteAt(g0, [(a, v)], g, page, x) {
      HitByOne(a, v, page, x);
      LastStoreOne(a, v, x, g0.mem(x));
      assert Guarded(R.At(g0.memprot, x), g0.os(x));
      if SamePage(a, x, page) { assert R.At(g0.memprot, a) == R.At(g0.memprot, x) && g0.os(a) == g0.os(x); }
    }
  }

  /** A store that traps on a page without emulator bits is refused. */
  lemma WroteRefused(g: Guest, a: int, v: Byte, page: int)
    requires page > 0 && Pagewise(g.memprot, g.os, page) && !g.os(a).write && !Tracked(g.memprot, a)
    ensures Wrote(g, [(a, v)], g, page)
  {
    hide R.At, SamePage, LastStore, PageHit;
    SamePageSelf(a, page);
    forall x ensures WroteAt(g, [(a, v)], g, page, x) {
      HitByOne(a, v, page, x);
      LastStoreOne(a, v, x, g.mem(x));
      if SamePage(a, x, page) { assert R.At(g.memprot, a) == R.At(g.memprot, x) && g.os(a) == g.os(x); }
    }
  }

  lemma SamePageSelf(a: int, page: int)
    requires page > 0
    ensures SamePage(a, a, page)
  {}

  /** A store that traps on a guarded page: the page is given back, and the store is done if it
      was recorded as writable. */
  lemma WroteTrapped(g0: Guest, a: int, v: Byte, g: Guest, page: int)
    requires page > 0 && Pages(g0.memprot, g0.os) && Pagewise(g0.memprot, g0.os, page) && Tracked(g0.memprot, a)
    requires UnprotectedTo(g0.memprot, g0.os, g.memprot, g.os, PageDown(a, page), PageUp(a + 1, page))
    requires forall x :: g.mem(x) == if x == a && GivesBack(R.At(g0.memprot, a)) then v else g0.mem(x)
    ensures Wrote(g0, [(a, v)], g, page)
  {
    hide R.At, SamePage, PageDown, PageUp, LastStore, PageHit, UnprotectedValue, UnprotectedOs, GivesBack, Guarded;
    hide UnprotectedTo, Pages;
    TrapRange(a, page);
    forall x ensures WroteAt(g0, [(a, v)], g, page, x) {
      HitByOne(a, v, page, x);
      LastStoreOne(a, v, x, g0.mem(x));
      TrapAt(g0, a, g, page, x);
    }
  }

  /** The trap handler gives back exactly the page of the store. */
  lemma TrapRange(a: int, page: int)
    requires page > 0
    ensures forall x :: PageDown(a, page) <= x < PageUp(a + 1, page) <==> SamePage(a, x, page)
  {
    hide PageDown, PageUp, SamePage;
    PageBounds(a, page);
    PageBounds(a + 1, page);
    forall x ensures PageDown(a, page) <= x < PageUp(a + 1, page) <==> SamePage(a, x, page) {
      if PageDown(a, page) <= x < PageUp(a + 1, page) {
        var y := PageShared(a, 1, x, page);
        SamePageSwap(x, a, page);
      } else if SamePage(a, x, page) {
        WholePages(PageDown(a, page), PageUp(a + 1, page), a, x, page);
      }
    }
  }

  lemma TrapAt(g0: Guest, a: int, g: Guest, page: int, x: int)
    requires page > 0 && Pages(g0.memprot, g0.os) && Pagewise(g0.memprot, g0.os, page) && Tracked(g0.memprot, a)
    requires UnprotectedTo(g0.memprot, g0.os, g.memprot, g.os, PageDown(a, page), PageUp(a + 1, page))
    requires PageDown(a, page) <= x < PageUp(a + 1, page) <==> SamePage(a, x, page)
    ensures Open(g, x) <==> Open(g0, x)
    ensures g.os(x).write <==> g0.os(x).write || (SamePage(a, x, page) && Open(g0, x))
    ensures Tracked(g.memprot, x) <==> Tracked(g0.memprot, x) && !SamePage(a, x, page)
    ensures Open(g0, a) <==> GivesBack(R.At(g0.memprot, a))
  {
    hide R.At, SamePage, PageDown, PageUp;
    assert Guarded(R.At(g0.memprot, x), g0.os(x)) && Guarded(R.At(g0.memprot, a), g0.os(a));
    if SamePage(a, x, page) { assert R.At(g0.memprot, a) == R.At(g0.memprot, x) && g0.os(a) == g0.os(x); }
  }

  lemma TrapReleases(g0: Guest, g: Guest, a: int, lo: int, hi: int)
    requires Pages(g0.memprot, g0.os) && UnprotectedTo(g0.memprot, g0.os, g.memprot, g.os, lo, hi)
    requires lo <= a < hi && Tracked(g0.memprot, a)
    ensures R.At(g0.memprot, a).value.write <==> GivesBack(R.At(g0.memprot, a))
    ensures GivesBack(R.At(g0.memprot, a)) ==> g.os(a).write
    ensures Open(g0, a) <==> GivesBack(R.At(g0.memprot, a))
  {
    hide R.At;
    assert Guarded(R.At(g0.memprot, a), g0.os(a));
  }

  lemma SamePageSwap(x: int, y: int, page: int)
    requires page > 0 && SamePage(x, y, page)
    ensures SamePage(y, x, page)
  {}

  // ---- What protecting does

  /** What protectDB on [lo, hi) does at x: the address is guarded, and stores are done that were
      done before or that the record of the address lets the guest make. */
  ghost predicate ShieldedAt(g0: Guest, g: Guest, lo: int, hi: int, x: int) {
    && (Tracked(g.memprot, x) <==> lo <= x < hi || Tracked(g0.memprot, x))
    && (g.os(x).write ==> g0.os(x).write)
    && (Open(g, x) <==> Open(g0, x) || (lo <= x < hi && ProtectedValue(R.At(g0.memprot, x)).write))
  }

  ghost predicate Shielded(g0: Guest, g: Guest, lo: int, hi: int) {
    g.mem == g0.mem && forall x :: ShieldedAt(g0, g, lo, hi, x)
  }

  lemma ProtectShields(g0: Guest, g: Guest, lo: int, hi: int)
    requires Pages(g0.memprot, g0.os) && g.mem == g0.mem
    requires ProtectedTo(g0.memprot, g0.os, g.memprot, g.os, lo, hi)
    ensures Shielded(g0, g, lo, hi)
  {
    hide R.At;
    forall x ensures ShieldedAt(g0, g, lo, hi, x) {
      assert Guarded(R.At(g0.memprot, x), g0.os(x));
    }
  }

  lemma ShieldTracks(g0: Guest, g: Guest, addr: int, size: int, page: int)
    requires page > 0 && Shielded(g0, g, PageDown(addr, page), PageUp(addr + size, page))
    ensures TrackedPages(g.memprot, page, addr, size)
  {
    hide PageDown, PageUp, Tracked, Open;
    var lo, hi := PageDown(addr, page), PageUp(addr + size, page);
    forall x | lo <= x < hi ensures Tracked(g.memprot, x) { assert ShieldedAt(g0, g, lo, hi, x); }
  }

  // ---- Which pages are still guarded

  /** After stores a range is guarded where it was and none of them hit it. */
  lemma WroteTracked(g0: Guest, ws: Writing, g: Guest, page: int, addr: int, size: int)
    requires page > 0 && size > 0 && Wrote(g0, ws, g, page)
    ensures TrackedPages(g.memprot, page, addr, size) <==>
            TrackedPages(g0.memprot, page, addr, size) && !PagesHit(ws, page, addr, addr + size)
  {
    hide PageDown, PageUp, SamePage, Open, Tracked, AppliedAt;
    if TrackedPages(g0.memprot, page, addr, size) && !PagesHit(ws, page, addr, addr + size) {
      forall x | PageDown(addr, page) <= x < PageUp(addr + size, page) ensures Tracked(g.memprot, x) {
        assert WroteAt(g0, ws, g, page, x);
        if PageHit(ws, page, x) { HitOnPages(ws, page, addr, addr + size, x); }
      }
    }
    forall i | 0 <= i < |ws| ensures !Tracked(g.memprot, ws[i].0) {
      SamePageSelf(ws[i].0, page);
      assert WroteAt(g0, ws, g, page, ws[i].0);
    }
    forall x ensures Tracked(g.memprot, x) ==> Tracked(g0.memprot, x) { assert WroteAt(g0, ws, g, page, x); }
  }

  /** A range that reaches over one page length lies on the pages of its ends. */
  lemma TwoPages(addr: int, page: int, x: int)
    requires page > 0
    ensures PageDown(addr, page) <= x < PageUp(addr + page, page) <==>
            SamePage(x, addr, page) || SamePage(x, addr + page - 1, page)
    ensures SamePage(addr + page - 1, addr, page) <==> R.OnPage(addr, page)
  {
    var p, q := PageDown(addr, page), PageDown(addr + page - 1, page);
    PageBounds(addr, page);
    PageBounds(addr + page - 1, page);
    PageBounds(x, page);
    PageBounds(addr + page, page);
    NextPage(p, page);
    NextPage(q, page);
    hide R.Rem;
    var z := PageDown(x, page);
    if p < addr {
      PageOf(addr + page - 1, p + page, page);
      NextPage(p + page, page);
      PageOf(addr + page + page - 1, p + page + page, page);
      OnlyStart(addr, p, page);
    } else {
      PageOf(addr + page - 1, p, page);
      PageOf(addr + page + page - 1, p + page, page);
    }
    if z < p { PagesApart(z, p, page); }
    if p < z { PagesApart(p, z, page); }
    if z < q { PagesApart(z, q, page); }
    if q < z { PagesApart(q, z, page); }
  }

  lemma OnlyStart(addr: int, p: int, page: int)
    requires page > 0 && R.OnPage(p, page) && p < addr < p + page
    ensures !R.OnPage(addr, page)
  {
    hide R.Rem;
    if R.OnPage(addr, page) { PagesApart(p, addr, page); }
  }

  /** Only the first page of a block one page long was asked for: when its other page is guarded
      all the same. */
  lemma OtherPage(g0: Guest, g1: Guest, ws: Writing, g: Guest, addr: int, page: int)
    requires page > 0 && Pagewise(g.memprot, g.os, page)
    requires Shielded(g0, g1, PageDown(addr, page), PageUp(addr + 1, page)) && Wrote(g1, ws, g, page)
    requires TrackedPages(g.memprot, page, addr, 1)
    ensures TrackedPages(g.memprot, page, addr, page) <==>
            (R.OnPage(addr, page) || Tracked(g0.memprot, addr + page - 1)) && !PagesHit(ws, page, addr, addr + page)
  {
    hide PageDown, PageUp, SamePage, Open, R.At, R.OnPage, AppliedAt;
    var last := addr + page - 1;
    WroteTracked(g1, ws, g, page, addr, page);
    TrapRange(addr, page);
    forall x ensures Tracked(g1.memprot, x) <==> SamePage(addr, x, page) || Tracked(g0.memprot, x) {
      assert ShieldedAt(g0, g1, PageDown(addr, page), PageUp(addr + 1, page), x);
    }
    forall x ensures SamePage(x, addr, page) <==> SamePage(addr, x, page) { SameEither(x, addr, page); }
    TwoPages(addr, page, last);
    SamePageSelf(last, page);
    forall x | PageDown(addr, page) <= x < PageUp(addr + page, page) && Tracked(g.memprot, last)
      ensures Tracked(g.memprot, x)
    {
      TwoPages(addr, page, x);
      assert SamePage(x, last, page) ==> R.At(g.memprot, x) == R.At(g.memprot, last);
    }
    assert WroteAt(g1, ws, g, page, last);
    if PageHit(ws, page, last) { HitOnPages(ws, page, addr, addr + page, last); }
    if TrackedPages(g.memprot, page, addr, page) { assert Tracked(g.memprot, last); }
  }

  lemma SameEither(x: int, y: int, page: int)
    requires page > 0
    ensures SamePage(x, y, page) <==> SamePage(y, x, page)
  {}

  /** Bytes that could not be written, after stores: one of them can be exactly when a store on
      their pages was done, and otherwise they are what they were. */
  lemma TouchedOrNot(g0: Guest, ws: Writing, g: Guest, page: int, lo: int, hi: int)
    requires page > 0 && lo < hi && Pagewise(g0.memprot, g0.os, page) && Wrote(g0, ws, g, page)
    requires forall x | lo <= x < hi :: !g0.os(x).write
    ensures Touches(ws, g0, page, lo, hi) <==> exists x :: lo <= x < hi && g.os(x).write
    ensures !Touches(ws, g0, page, lo, hi) ==> forall x | lo <= x < hi :: g.mem(x) == g0.mem(x)
  {
    hide PageDown, PageUp, SamePage, R.At, R.OnPage, LastStore, Tracked, GivesBack;
    PageBounds(lo, page);
    PageBounds(hi, page);
    if Touches(ws, g0, page, lo, hi) {
      var i :| 0 <= i < |ws| && PageDown(lo, page) <= ws[i].0 < PageUp(hi, page) && Open(g0, ws[i].0);
      assert lo + (hi - lo) == hi;
      var y := PageShared(lo, hi - lo, ws[i].0, page);
      assert WroteAt(g0, ws, g, page, y);
    } else {
      forall x | lo <= x < hi ensures !g.os(x).write && g.mem(x) == g0.mem(x) {
        assert WroteAt(g0, ws, g, page, x);
        UntouchedAt(g0, ws, page, lo, hi, x);
      }
    }
  }

  lemma UntouchedAt(g0: Guest, ws: Writing, page: int, lo: int, hi: int, x: int)
    requires page > 0 && lo <= x < hi && Pagewise(g0.memprot, g0.os, page) && !Touches(ws, g0, page, lo, hi)
    ensures PageHit(ws, page, x) ==> !Open(g0, x)
    ensures AppliedAt(g0, ws, x) == g0.mem(x)
  {
    hide PageDown, PageUp, SamePage, R.At, R.OnPage, LastStore, GivesBack;
    PageBounds(lo, page);
    PageBounds(hi, page);
    if PageHit(ws, page, x) {
      var i :| 0 <= i < |ws| && SamePage(ws[i].0, x, page);
      WholePages(PageDown(lo, page), PageUp(hi, page), ws[i].0, x, page);
      assert R.At(g0.memprot, ws[i].0) == R.At(g0.memprot, x) && g0.os(ws[i].0) == g0.os(x);
    } else {
      forall i | 0 <= i < |ws| ensures PageHit(ws, page, ws[i].0) { SamePageSelf(ws[i].0, page); }
      LastStoreMissed(ws, x, g0.mem(x));
    }
  }

  // ---- The hash

  /** The stores change the byte at x. */
  ghost predicate Changed(g: Guest, ws: Writing, x: int) {
    AppliedAt(g, ws, x) != g.mem(x)
  }

  ghost predicate ChangesNone(g: Guest, ws: Writing, lo: int, hi: int) {
    forall x | lo <= x < hi :: !Changed(g, ws, x)
  }

  /** The stores change exactly one byte of [lo, hi). */
  ghost predicate ChangesOne(g: Guest, ws: Writing, lo: int, hi: int) {
    exists x | lo <= x < hi :: Changed(g, ws, x) && forall y | lo <= y < hi && y != x :: !Changed(g, ws, y)
  }

  lemma MissedUnchanged(g: Guest, ws: Writing, lo: int, hi: int)
    requires Misses(ws, lo, hi)
    ensures ChangesNone(g, ws, lo, hi)
  {
    hide Open, LastStore;
    forall x | lo <= x < hi ensures !Changed(g, ws, x) { LastStoreMissed(ws, x, g.mem(x)); }
  }

  /** The hash of bytes that stores went over: it tells nothing happened, and it tells a single
      changed byte. */
  lemma HashApplied(g: Guest, ws: Writing, n: Memory, addr: int, len: nat)
    requires forall x | addr <= x < addr + len :: n(x) == AppliedAt(g, ws, x)
    ensures ChangesNone(g, ws, addr, addr + len) ==> X31(n, addr, len) == X31(g.mem, addr, len)
    ensures ChangesOne(g, ws, addr, addr + len) ==> X31(n, addr, len) != X31(g.mem, addr, len)
  {
    hide X31, AppliedAt;
    if ChangesNone(g, ws, addr, addr + len) {
      forall x | addr <= x < addr + len ensures n(x) == g.mem(x) { assert !Changed(g, ws, x); }
      X31Same(n, g.mem, addr, len);
    }
    if ChangesOne(g, ws, addr, addr + len) {
      var x :| addr <= x < addr + len && Changed(g, ws, x)
        && forall y | addr <= y < addr + len && y != x :: !Changed(g, ws, y);
      forall y | addr <= y < addr + len && y != x ensures n(y) == g.mem(y) { assert !Changed(g, ws, y); }
      X31NoticesOneByte(n, g.mem, addr, len, x);
    }
  }

  /** One store to a byte of the range that changes it. */
  lemma OneStoreChanges(g: Guest, a: int, v: Byte, lo: int, hi: int)
    requires lo <= a < hi && Open(g, a) && v != g.mem(a)
    ensures ChangesOne(g, [(a, v)], lo, hi)
  {
    hide Open;
    var ws: Writing := [(a, v)];
    assert ws[..0] == [];
    assert LastStore(ws, a, g.mem(a)) == v;
    assert Changed(g, ws, a);
    forall y | lo <= y < hi && y != a ensures !Changed(g, ws, y) { LastStoreMissed(ws, y, g.mem(y)); }
  }

  // ---- The test for the second page

  /** x & ~page, as the test whether a block goes over its first page has it. */
  function DropBit(x: int, page: int): int
    requires page > 0
  {
    if x / page % 2 == 1 then x - page else x
  }

  /** The test at src/dynarec/dynarec_arm.c:493 clears one bit where it was to clear the bits
      below it: it takes a block for one that stays on its first page exactly when the block is
      one page long and begins on an even page. */
  lemma DropBitMisses(addr: int, end: int, page: int)
    requires page > 0 && addr < end
    ensures DropBit(addr, page) == DropBit(end, page) <==> end == addr + page && addr / page % 2 == 0
  {
    var p := addr / page;
    assert (p + 1) * page == p * page + page;
    if end == addr + page { QuotientOf(end, p + 1, addr % page, page); }
  }

  lemma QuotientOf(x: int, q: int, r: int, page: int)
    requires page > 0 && x == q * page + r && 0 <= r < page
    ensures x / page == q
  {
    var k := x / page;
    assert x == k * page + x % page;
    assert (k + 1) * page == k * page + page && (q + 1) * page == q * page + page;
    if k < q { MulMono(k + 1, q, page); }
    if q < k { MulMono(q + 1, k, page); }
  }

  /** A block of 0x1000 bytes from 0x2800 on: it lies on two pages, and the test does not see it. */
  lemma DropBitWitness()
    ensures DropBit(0x2800, 0x1000) == DropBit(0x3800, 0x1000)
    ensures PageDown(0x2800, 0x1000) != PageDown(0x3800 - 1, 0x1000)
  {
    assert 0x2800 / 0x1000 == 2 && 0x3800 / 0x1000 == 3;
    assert R.Rem(0x2800, 0x1000) == 0x800 && R.Rem(0x37FF, 0x1000) == 0x7FF;
  }
}
