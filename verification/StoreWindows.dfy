/** The moments at which a look-up does not notice the stores of other threads
    (src/dynarec/dynablock.c and src/dynarec/dynarec_arm.c): what one store does there. */
module StoreWindows {
  import opened X31Hash
  import opened JumpTable
  import opened Protection
  import opened Stores
  import opened BlockTable
  import opened Dynablocks
  import R = RangeTree

  const PAGE := 0x1000
  const ADDR := 0x2000
  const QUIET := Windows([], [], [], false)

  /** A translation of the one byte at ADDR, with stores at the two last places. */
  function OneByte(late: Writing, after: Writing): (w: Passes)
    ensures w.Undisturbed() && w.Result() == Filled && w.Translates()
    ensures InSpace(late) && InSpace(after) ==> w.OK(ADDR)
    ensures w.late == late && w.after == after && w.end == ADDR + 1 && !w.alwaysTest
  {
    Passes(false, false, 4, false, ADDR + 1, false, true, true, [], [], [], [], late, after)
  }

  /** When nobody disturbs a translation: it starts out dirty exactly when it is always to be
      tested, or when it is one page long and begins within an even page, and its second page is
      not guarded for another reason. */
  lemma DirtyUndisturbed(r0: Records, w: Passes, page: int, addr: int)
    requires page > 0 && w.Undisturbed() && w.late == []
    ensures DirtyWhen(r0, w, page, addr) <==>
            || w.alwaysTest || NeverCleaned(r0, addr)
            || (w.end == addr + page && addr / page % 2 == 0 && !R.OnPage(addr, page) && !Tracked(r0, w.end - 1))
  {
    hide PageDown, PageUp, Tracked, NeverCleaned;
    assert w.guarded + w.middle + w.late == [] && w.early + w.checked == [];
  }

  /** A replacement is returned without another check. One store behind its hash that changes
      one of its bytes, and is done: the block that is returned is done, and its hash is not
      that of the guest's bytes. */
  method StaleReplacement(d: Dynarec, addr: nat, at1: Ptr, w1: Passes, at2: Ptr, w2: Passes, x: int, v: Byte)
    returns (r: Ptr)
    requires d.Valid() && w1.OK(addr) && w2.OK(addr)
    requires at1 != NULL && at2 != NULL && at1 !in d.blocks && at2 !in d.blocks && at1 != at2
    requires d.entries[addr].JmpNext? && d.entries[addr].db in d.blocks
    requires var b := d.blocks[d.entries[addr].db]; b.done && X31(d.mem, addr, b.x86Size) != b.hash
    requires w2.Undisturbed() && w2.Result() == Filled && w2.Translates() && w2.late + w2.after == [(x, v)]
    requires addr <= x < w2.end && Open(d.Now(), x) && v != d.mem(x)
    modifies d, d.table.jmptbl, d.table.Leaves(), d.prot
    ensures d.Valid() && r == at2 && r in d.blocks && d.blocks[r].done
    ensures X31(d.mem, addr, d.blocks[r].x86Size) != d.blocks[r].hash
  {
    hide Dynarec.Valid, X31, DirtyWhen, MarkedOnly, Dynarec.Validated, Dynarec.NewPast, PageDown, PageUp, AppliedAt;
    hide Open, OpensFirst, BytesAt, Ends;
    hide ChangesOne, ChangesNone, Dynarec.Fresh, Misses;
    ghost var g0 := d.Now();
    ghost var hashed;
    r, hashed := d.DBGetBlock(addr, true, false, false, at1, w1, QUIET, at2, w2);
    ghost var g := d.Now().(mem := hashed);
    OpenBytes(d.Now(), hashed, x);
    assert Opened(g0, d.Now(), PageDown(addr, d.prot.page), PageUp(addr + 1, d.prot.page));
    EndsUndisturbed(g0, d.Now(), d.prot.page, addr, w2);
    assert hashed(x) == g0.mem(x);
    OneStoreChanges(g, x, v, addr, w2.end);
  }

  /** The state that the witnesses end in: the block at ADDR is entered directly, and it is not
      what was translated. */
  ghost predicate EnteredStale(d: Dynarec)
    reads d, d.prot
  {
    && ADDR in d.entries && d.entries[ADDR] == Direct(1) && 1 in d.blocks && d.blocks[1].done
    && X31(d.mem, ADDR, d.blocks[1].x86Size) != d.blocks[1].hash
  }

  /** A block that is in the table, was not disturbed while it was translated, and hashes as it
      should. */
  ghost predicate AtHand(d: Dynarec, dirty: bool)
    reads d, d.prot
  {
    && ADDR in d.entries && d.entries[ADDR] == (if dirty then JmpNext(1) else Direct(1)) && d.blocks.Keys == {1}
    && d.blocks[1].done && !d.blocks[1].gone && d.blocks[1].x86Addr == ADDR && d.blocks[1].x86Size == 1
    && !d.blocks[1].alwaysTest && d.prot.page == PAGE && Open(d.Now(), ADDR) && d.mem(ADDR) == 0
    && X31(d.mem, ADDR, 1) == d.blocks[1].hash && d.past.tainted == {} && d.blocks[1].previous == NULL
  }

  /** On which pages a store at ADDR is, and that it is done once the page has been protected. */
  lemma AtAddr(g0: Guest, g: Guest, b: Dynablock, w: Passes, hashed: Memory, page: int)
    requires g0.memprot == [] && page == PAGE && FilledFrom(b, ADDR, w, g0, hashed, g, page)
    ensures Open(g, ADDR)
  {
    hide DirtyWhen, NeverCleaned;
    PageBounds(ADDR, PAGE);
    PageBounds(ADDR + 1, PAGE);
  }

  lemma HitsAtAddr(v: Byte)
    ensures PagesHit([(ADDR, v)], PAGE, ADDR, ADDR + 1) && !PagesHit([], PAGE, ADDR, ADDR + 1)
  {
    PageBounds(ADDR, PAGE);
    PageBounds(ADDR + 1, PAGE);
    var ws: Writing := [(ADDR, v)];
    assert ws[0].0 == ADDR;
  }

  lemma OneByteDirty(late: Writing, after: Writing)
    ensures DirtyWhen([], OneByte(late, after), PAGE, ADDR) <==> PagesHit(late, PAGE, ADDR, ADDR + 1)
    ensures !NeverCleaned([], ADDR)
  {
    hide PagesHit;
    var w := OneByte(late, after);
    assert w.guarded + w.middle + w.late == late;
  }

  lemma OneByteHashed(b: Dynablock, hashed: Memory, late: Writing, g: Guest)
    requires HashedThen(b, hashed, late, g) && b.x86Addr == ADDR && b.x86Size == 1 && hashed(ADDR) == 0
    requires late == [] || late == [(ADDR, 0)]
    ensures X31(g.mem, ADDR, 1) == b.hash && g.mem(ADDR) == 0
  {
    hide Open, X31;
    LastStoreOne(ADDR, 0, ADDR, 0);
    X31Same(hashed, g.mem, ADDR, 1);
  }

  function Late1(dirty: bool): Writing {
    if dirty then [(ADDR, 0)] else []
  }

  /** Translates the byte at ADDR in a new state; with a store of the same value behind its hash
      it comes out dirty. */
  method Translated1(dirty: bool) returns (d: Dynarec)
    ensures d.Valid() && fresh(d) && fresh(d.table) && fresh(d.table.jmptbl) && fresh(d.table.Leaves()) && fresh(d.prot)
    ensures AtHand(d, dirty)
  {
    hide Dynarec.Valid, AtHand, Dynarec.Made, OneByte, Late1;
    SpaceIsPaged();
    d := new Dynarec(PAGE);
    var w := OneByte(Late1(dirty), []);
    LateInSpace(dirty);
    ghost var e0, g0 := d.entries, d.Now();
    var r, hashed := d.InternalDBGetBlock(ADDR, true, false, false, 1, w);
    MadeAtHand(d, e0, g0, r, hashed, dirty);
  }

  lemma LateInSpace(dirty: bool)
    ensures InSpace(Late1(dirty))
  {}

  lemma MadeAtHand(d: Dynarec, e0: Flat, g0: Guest, r: Ptr, hashed: Memory, dirty: bool)
    requires d.Made(e0, map[], Past({}, {}, map[]), g0, ADDR, 1, r, OneByte(Late1(dirty), []), hashed)
    requires d.prot.page == PAGE && g0.memprot == [] && forall x :: g0.mem(x) == 0
    ensures AtHand(d, dirty)
  {
    hide X31, MarkedOnly, PageDown, PageUp, AppliedAt, Open, DirtyWhen, NeverCleaned, PagesHit, HashedThen, OneByte;
    hide Opened, BytesAt, OpensFirst, Ends;
    var late, w := Late1(dirty), OneByte(Late1(dirty), []);
    assert late + [] == late;
    EndsUndisturbed(g0, d.Now(), PAGE, ADDR, w);
    OneByteDirty(late, []);
    HitsAtAddr(0);
    AtAddr(g0, d.Now(), d.blocks[1], w, hashed, d.prot.page);
    OneByteHashed(d.blocks[1], hashed, late, d.Now());
  }

  lemma SpaceIsPaged()
    ensures R.OnPage(SPACE, PAGE)
  {}

  /** A store after the last check of the pages and before the block is registered
      (src/dynarec/dynarec_arm.c:663 and src/dynarec/dynablock.c:246). */
  method StoreBeforeRegistering() returns (d: Dynarec)
    ensures d.Valid() && EnteredStale(d)
  {
    hide Dynarec.Valid, X31, MarkedOnly, PageDown, PageUp, AppliedAt, Open, DirtyWhen, NeverCleaned, PagesHit;
    hide OneByte, Opened, ChangesOne, ChangesNone, BytesAt, OpensFirst, Ends;
    SpaceIsPaged();
    d := new Dynarec(PAGE);
    var w := OneByte([], [(ADDR, 1)]);
    ghost var g0 := d.Now();
    var r, hashed := d.InternalDBGetBlock(ADDR, true, false, false, 1, w);
    EndsUndisturbed(g0, d.Now(), PAGE, ADDR, w);
    OneByteDirty([], [(ADDR, 1)]);
    HitsAtAddr(1);
    AtAddr(g0, d.Now(), d.blocks[1], w, hashed, d.prot.page);
    OpenBytes(d.Now(), hashed, ADDR);
    OneStoreChanges(d.Now().(mem := hashed), ADDR, 1, ADDR, ADDR + 1);
    assert w.late + w.after == [(ADDR, 1)];
    HashAfterwards(d.blocks[1], hashed, [(ADDR, 1)], d.Now());
  }

  /** A store of 1 at ADDR, in the first or in the last window of a look-up. */
  function OneStore(last: bool): (win: Windows)
    ensures win.OK()
  {
    if last then Windows([], [], [(ADDR, 1)], false) else Windows([(ADDR, 1)], [], [], false)
  }

  /** The block is validated, and changed. */
  lemma SlippedBy(d: Dynarec, e0: Flat, p0: Past, g0: Guest, b: Dynablock, last: bool)
    requires b.x86Addr == ADDR && b.x86Size == 1 && !b.alwaysTest && X31(g0.mem, ADDR, 1) == b.hash
    requires Open(g0, ADDR) && g0.mem(ADDR) == 0 && d.prot.page > 0
    requires d.Validated(e0, p0, g0.(mem := Applied(g0, OneStore(last).hashed)), 1, b, OneStore(last))
    ensures ADDR in d.entries && d.entries[ADDR] == Direct(1) && X31(d.mem, ADDR, 1) != b.hash
  {
    hide X31, Touches, Misses, Current, MarkedOnly, ChangesOne, ChangesNone;
    var win, ws := OneStore(last), [(ADDR, 1 as Byte)];
    var g := d.Now().(mem := Applied(g0, win.hashed));
    assert d.Redirects(b, win);
    assert d.mem(ADDR) == AppliedAt(g, win.checked, ADDR);
    Dynarec.AppliedIs(g0, win.hashed, ADDR);
    OpenBytes(g0, Applied(g0, win.hashed), ADDR);
    OpenBytes(d.Now(), Applied(g0, win.hashed), ADDR);
    assert Open(d.Now(), ADDR);
    if last {
      OneStoreChanges(g, ADDR, 1, ADDR, ADDR + 1);
      HashApplied(g, ws, d.mem, ADDR, 1);
      X31Same(g.mem, g0.mem, ADDR, 1);
    } else {
      OneStoreChanges(g0, ADDR, 1, ADDR, ADDR + 1);
      HashApplied(g0, ws, d.mem, ADDR, 1);
    }
  }

  /** A store after the bytes of a dirty block are hashed and before its pages are protected
      (src/dynarec/dynablock.c:271 and :287), or after these are found protected and before the
      block is entered again (:289 and :290). */
  method StoreWhileValidating(last: bool) returns (d: Dynarec)
    ensures d.Valid() && EnteredStale(d)
  {
    hide Dynarec.Valid, X31, MarkedOnly, Dynarec.Validated, Open, Dynarec.NewPast, Applied, Dynarec.Fresh, Misses;
    hide PagesHit;
    hide OneByte, OneStore;
    d := Translated1(true);
    ghost var g0, e0, p0, b := d.Now(), d.entries, d.past, d.blocks[1];
    var w := OneByte([], []);
    var r, hashed := d.DBGetBlock(ADDR, true, false, false, 2, w, OneStore(last), 3, w);
    SlippedBy(d, e0, p0, g0, b, last);
  }

  /** A block of one page length that begins within an even page: nobody disturbs it, and it
      starts out dirty, because its second page is not protected. */
  method SecondPageMissed() returns (d: Dynarec)
    ensures d.Valid() && 1 in d.blocks && d.blocks[1].done && d.blocks[1].dirty && !d.blocks[1].alwaysTest
    ensures 0x2800 in d.entries && d.entries[0x2800] == JmpNext(1)
  {
    hide Dynarec.Valid, X31, MarkedOnly, PageDown, PageUp, AppliedAt, Open, NeverCleaned, PagesHit, HashedThen;
    hide DirtyWhen;
    SpaceIsPaged();
    d := new Dynarec(PAGE);
    var w := Passes(false, false, 4, false, 0x3800, false, true, true, [], [], [], [], [], []);
    var r, hashed := d.InternalDBGetBlock(0x2800, true, false, false, 1, w);
    SecondPageDirty(w);
  }

  lemma SecondPageDirty(w: Passes)
    requires w.Undisturbed() && w.late == [] && w.end == 0x3800 && !w.alwaysTest
    ensures DirtyWhen([], w, PAGE, 0x2800) && !NeverCleaned([], 0x2800)
  {
    DirtyUndisturbed([], w, PAGE, 0x2800);
    assert 0x2800 / PAGE == 2 && R.Rem(0x2800, PAGE) == 0x800;
  }

  /** Two pages of code, to the second of which another thread writes while the first pass reads
      them. */
  function TwoPagesRead(): (w: Passes)
    ensures w.Result() == Filled && w.Translates() && w.OK(ADDR) && w.end == 0x4000 && !w.alwaysTest
    ensures w.early == [(0x3000, 1)] && w.checked == w.guarded == w.middle == w.late == w.after == []
  {
    Passes(false, false, 4, false, 0x4000, false, true, true, [(0x3000, 1)], [], [], [], [], [])
  }

  lemma TwoPagesReadEnds(g0: Guest, g: Guest)
    requires Pages(g0.memprot, g0.os)
    ensures Ends(g0, g, PAGE, ADDR, TwoPagesRead()) == Filled && !DirtyWhen(g0.memprot, TwoPagesRead(), PAGE, ADDR)
  {
    hide X31, OpensFirst, BytesAt, Open, TwoPagesRead;
    var w := TwoPagesRead();
    NoneNeverCleaned(g0.memprot, g0.os, ADDR);
    assert w.guarded + w.middle == w.guarded && w.guarded + w.middle + w.late == [];
    assert R.Rem(ADDR + 1 + PAGE - 1, PAGE) == 0 && R.Rem(ADDR, PAGE) == 0;
    hide R.Rem, NeverCleaned;
  }

  lemma OnlyThatByte(g0: Guest)
    requires Open(g0, 0x3000) && g0.mem(0x3000) == 0
    ensures ChangedUnder(g0, PAGE, ADDR, TwoPagesRead(), 0x3000)
    ensures forall y | y != 0x3000 :: !ChangedUnder(g0, PAGE, ADDR, TwoPagesRead(), y)
  {
    hide Open, PageDown, PageUp, TwoPagesRead;
    var w := TwoPagesRead();
    assert w.early + w.checked == [(0x3000, 1)];
    forall y ensures LastStore(w.early + w.checked, y, g0.mem(y)) == if 0x3000 == y then 1 else g0.mem(y) {
      LastStoreOne(0x3000, 1, y, g0.mem(y));
    }
  }

  /** A store to the second page during the first pass (src/dynarec/dynarec_arm.c:460-495): the
      pages are protected and hashed afterwards, so the block is entered directly and is current,
      but its hash is not that of the bytes that the first pass began with. */
  method StoreDuringFirstPass() returns (d: Dynarec)
    ensures d.Valid() && ADDR in d.entries && d.entries[ADDR] == Direct(1) && 1 in d.blocks && d.blocks[1].done
    ensures Current(d.blocks[1], d.mem, d.prot.os) && 1 !in d.past.tainted
    ensures 1 in d.past.misread && 1 in d.past.read
    ensures X31(d.past.read[1], ADDR, d.blocks[1].x86Size) != d.blocks[1].hash
  {
    hide Dynarec.Valid, X31, MarkedOnly, PageDown, PageUp, AppliedAt, Open, DirtyWhen, NeverCleaned, PagesHit, Current;
    hide TwoPagesRead, Opened, BytesAt, Ends, ChangedUnder, HashedThen, Pages, Pagewise, Shielded;
    SpaceIsPaged();
    d := new Dynarec(PAGE);
    ghost var g := d.Now();
    d.ProtectDB(0x3000, 1);
    OpenedThere(g, d.Now());
    d.ProtIsOK();
    var w := TwoPagesRead();
    ghost var g0 := d.Now();
    var r, hashed := d.InternalDBGetBlock(ADDR, true, false, false, 1, w);
    TwoPagesReadEnds(g0, d.Now());
    OnlyThatByte(g0);
    HashOfHashed(d, w, g0, hashed);
    NoneTouch(d.Now(), w);
  }

  lemma OpenedThere(g: Guest, g0: Guest)
    requires g.memprot == [] && Shielded(g, g0, PageDown(0x3000, PAGE), PageUp(0x3000 + 1, PAGE))
    ensures Open(g0, 0x3000)
  {
    hide Open;
    PageBounds(0x3000, PAGE);
    PageBounds(0x3001, PAGE);
    assert ShieldedAt(g, g0, PageDown(0x3000, PAGE), PageUp(0x3000 + 1, PAGE), 0x3000);
  }

  lemma HashOfHashed(d: Dynarec, w: Passes, g0: Guest, hashed: Memory)
    requires 1 in d.blocks && d.MadeOK(d.blocks[1], ADDR, w, g0, hashed) && d.blocks[1].code == Translated
    requires d.prot.page == PAGE && !d.blocks[1].dirty && w.end == 0x4000
    requires ChangedUnder(g0, PAGE, ADDR, w, 0x3000) && forall y | y != 0x3000 :: !ChangedUnder(g0, PAGE, ADDR, w, y)
    ensures X31(g0.mem, ADDR, d.blocks[1].x86Size) != d.blocks[1].hash
  {
    hide X31, ChangedUnder, FilledFrom, AppliedAt;
    MisreadWhen(d.blocks[1], ADDR, w, g0, hashed, d.Now(), PAGE);
  }

  lemma NoneTouch(g: Guest, w: Passes)
    requires w.after == []
    ensures !Touches(w.after, g, PAGE, ADDR, 0x4000)
  {}
}
