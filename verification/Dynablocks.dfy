/** The life of translated blocks (src/dynarec/dynablock.c, with the jump table and the page
    protection of src/custommem.c): found, made, checked, marked, invalidated and freed, while
    the guest and other threads write to its memory. A block is entered directly only while its
    pages are write-protected and its guest bytes hash to what was recorded, unless a store
    slipped by in one of the windows in which the code does not notice it. What was recorded is
    the hash of the bytes that its translation began with, unless a store came before they were
    protected and changed them. */
module Dynablocks {
  import opened X31Hash
  import opened JumpTable
  import opened Protection
  import opened Stores
  import opened BlockTable
  import opened KeptBlocks
  import R = RangeTree

  predicate InSpace(ws: Writing) {
    forall i | 0 <= i < |ws| :: 0 <= ws[i].0 < SPACE
  }

  datatype Outcome = Filled | NotFilled | Faulted

  /** How the translation of a block goes: what the passes find, where they stop, and which
      stores other threads make meanwhile: `early` during the first pass, `checked` after the
      check of the first page, `guarded` after the other pages are protected, `middle` between
      the two hashes, `late` before the last check of the pages and `after` behind it, before the
      block is registered. */
  datatype Passes = Passes(forbidden: bool, fault: bool, stop: nat, empty: bool, end: int,
                           alwaysTest: bool, mapped: bool, agree: bool,
                           early: Writing, checked: Writing, guarded: Writing,
                           middle: Writing, late: Writing, after: Writing)
  {
    /** How it ends when no other thread disturbs it. */
    function Result(): Outcome {
      if forbidden then (if mapped then Filled else NotFilled)
      else if fault then Faulted
      else if stop == 0 then NotFilled
      else if empty then (if mapped then Filled else NotFilled)
      else if stop <= 3 || !mapped || !agree then NotFilled
      else Filled
    }

    /** The stores between the begin of the first pass and the last hash. */
    function Before(): Writing { early + checked + guarded + middle }

    predicate Undisturbed() {
      early == [] && checked == [] && guarded == [] && middle == []
    }

    /** The result holds translated code. */
    predicate Translates() { !forbidden && !empty }

    predicate OK(addr: int) {
      && addr < end <= SPACE
      && InSpace(early) && InSpace(checked) && InSpace(guarded) && InSpace(middle) && InSpace(late) && InSpace(after)
    }
  }

  /** What other threads do while a block is checked: stores after its bytes are hashed, after
      its pages are protected, and after these are found protected; and whether the lock is taken
      when another block is to be made. */
  datatype Windows = Windows(hashed: Writing, guarded: Writing, checked: Writing, busy: bool)
  {
    predicate OK() { InSpace(hashed) && InSpace(guarded) && InSpace(checked) }

    predicate Empty() { hashed == [] && guarded == [] && checked == [] }

    ghost predicate Misses(lo: int, hi: int) {
      Stores.Misses(hashed, lo, hi) && Stores.Misses(guarded, lo, hi) && Stores.Misses(checked, lo, hi)
    }
  }

  /** When a filled block starts out dirty: it is always to be tested, a store came to one of its
      pages when they were all guarded, or the test for its second page missed it while that page
      was not guarded anyway. */
  ghost predicate DirtyWhen(r0: Records, w: Passes, page: int, addr: int)
    requires page > 0
  {
    || w.alwaysTest || NeverCleaned(r0, addr)
    || PagesHit(w.guarded + w.middle + w.late, page, addr, w.end)
    || (w.end == addr + page && addr / page % 2 == 0 &&
        (PagesHit(w.early + w.checked, page, addr, w.end) || !(R.OnPage(addr, page) || Tracked(r0, w.end - 1))))
  }

  /** From the states before and after the first pass: whether the pages are guarded in the end,
      and so whether the block is dirty, in terms of the state at the beginning. */
  lemma DirtyExactly(g0: Guest, g1: Guest, g2: Guest, w: Passes, page: int, addr: int, tracked: bool)
    requires page > 0 && addr < w.end && Pages(g0.memprot, g0.os) && Pagewise(g2.memprot, g2.os, page)
    requires Shielded(g0, g1, PageDown(addr, page), PageUp(addr + 1, page)) && Wrote(g1, w.early, g2, page)
    requires TrackedPages(g2.memprot, page, addr, 1)
    requires tracked <==> GuardsLast(g2.memprot, w, page, addr)
    ensures w.alwaysTest || NeverCleaned(g0.memprot, addr) || !tracked <==> DirtyWhen(g0.memprot, w, page, addr)
  {
    hide PageDown, PageUp, R.OnPage, R.At, Tracked, TrackedPages, Wrote, Shielded, Pagewise, PagesHit, NeverCleaned;
    hide DropBit;
    DropBitMisses(addr, w.end, page);
    PagesHitAppend(w.early, w.checked, page, addr, w.end);
    if w.end == addr + page { OtherPage(g0, g1, w.early, g2, addr, page); }
  }

  /** Whether the pages of a block are guarded at the last check, seen from the check of its
      first page. */
  ghost predicate GuardsLast(r2: Records, w: Passes, page: int, addr: int)
    requires page > 0
  {
    && !PagesHit(w.guarded + w.middle + w.late, page, addr, w.end)
    && (DropBit(addr, page) == DropBit(w.end, page) ==>
          TrackedPages(r2, page, addr, w.end - addr) && !PagesHit(w.checked, page, addr, w.end))
  }

  /** Nothing recorded carries a bit that keeps it from being protected. */
  lemma NoneNeverCleaned(r: Records, o: int -> Prot, x: int)
    requires Pages(r, o)
    ensures !NeverCleaned(r, x)
  {
    assert Guarded(R.At(r, x), o(x));
  }

  /** Stores that were done still are, and stores to a page that was to be protected are done
      where its record lets the guest write. */
  ghost predicate Opened(g0: Guest, g: Guest, lo: int, hi: int) {
    forall x :: Open(g0, x) || (lo <= x < hi && ProtectedValue(R.At(g0.memprot, x)).write) ==> Open(g, x)
  }

  ghost predicate StillOpen(g0: Guest, g: Guest) {
    forall x :: Open(g0, x) ==> Open(g, x)
  }

  lemma OpenedLater(g0: Guest, g1: Guest, g: Guest, lo: int, hi: int)
    requires Opened(g0, g1, lo, hi) && StillOpen(g1, g)
    ensures Opened(g0, g, lo, hi)
  {
    hide Open;
  }

  lemma StillOpenTrans(g0: Guest, g1: Guest, g: Guest)
    requires StillOpen(g0, g1) && StillOpen(g1, g)
    ensures StillOpen(g0, g)
  {
    hide Open;
  }

  lemma WroteOpens(g0: Guest, ws: Writing, g: Guest, page: int)
    requires page > 0 && Wrote(g0, ws, g, page)
    ensures StillOpen(g0, g) && SameOpen(g0, g)
  {
    hide Open;
    forall x ensures Open(g0, x) <==> Open(g, x) { assert WroteAt(g0, ws, g, page, x); }
  }

  lemma ShieldOpens(g0: Guest, g: Guest, lo: int, hi: int)
    requires Shielded(g0, g, lo, hi)
    ensures StillOpen(g0, g) && Opened(g0, g, lo, hi)
  {
    hide Open;
    forall x ensures Open(g0, x) || (lo <= x < hi && ProtectedValue(R.At(g0.memprot, x)).write) <==> Open(g, x) {
      assert ShieldedAt(g0, g, lo, hi, x);
    }
  }

  /** A block record as it is allocated. */
  function NewBlock(addr: int): Dynablock {
    Dynablock(addr, 0, 0, NoCode, false, false, false, false, NULL)
  }

  /** A filled block: what it covers and how it stands. */
  predicate Shaped(d: Dynablock, addr: int, w: Passes) {
    && d.x86Addr == addr && !d.gone && d.previous == NULL && addr + d.x86Size <= SPACE
    && d.code == (if w.Translates() then Translated else EmptyBlock)
    && d.x86Size == (if w.Translates() then w.end - addr else 0)
    && (d.code == EmptyBlock ==> !d.dirty && !d.alwaysTest)
    && (d.code == Translated ==> d.x86Size > 0)
  }

  /** The hash of a filled block is that of the bytes `hashed`, and g is what the stores ws made
      of these. */
  ghost predicate HashedThen(d: Dynablock, hashed: Memory, ws: Writing, g: Guest) {
    && X31(hashed, d.x86Addr, d.x86Size) == d.hash
    && forall x :: g.mem(x) == AppliedAt(g.(mem := hashed), ws, x)
  }

  /** Whether a store at x is done once the first page has been protected, seen from the state
      before. */
  ghost predicate OpensFirst(g0: Guest, page: int, addr: int, x: int)
    requires page > 0
  {
    || Open(g0, x)
    || (PageDown(addr, page) <= x < PageUp(addr + 1, page) && ProtectedValue(R.At(g0.memprot, x)).write)
  }

  /** The byte at x after the stores of the first passes, those after the second protection being
      `post`: the earlier ones are done if the protection of the first page lets them, the later
      ones also if that of the other pages does. g is any state from then on. */
  ghost function BytesAt(g0: Guest, g: Guest, page: int, addr: int, w: Passes, post: Writing, x: int): Byte
    requires page > 0
  {
    if OpensFirst(g0, page, addr, x) then LastStore(w.early + w.checked + post, x, g0.mem(x))
    else if Open(g, x) then LastStore(post, x, g0.mem(x))
    else g0.mem(x)
  }

  ghost function Bytes(g0: Guest, g: Guest, page: int, addr: int, w: Passes, post: Writing): Memory
    requires page > 0
  {
    x => BytesAt(g0, g, page, addr, w, post, x)
  }

  /** A translation that finds code and does not give up succeeds exactly when no store came to
      the first page during the first pass, and those after the first hash left it as it was. */
  ghost predicate Succeeds(g0: Guest, g: Guest, page: int, addr: int, w: Passes)
    requires page > 0 && addr <= w.end
  {
    && !PagesHit(w.early, page, addr, addr + 1)
    && X31(Bytes(g0, g, page, addr, w, w.guarded), addr, w.end - addr) ==
       X31(Bytes(g0, g, page, addr, w, w.guarded + w.middle), addr, w.end - addr)
  }

  /** How the translation ends, g0 being the state before it and g one from the second protection
      on. */
  ghost function Ends(g0: Guest, g: Guest, page: int, addr: int, w: Passes): Outcome
    requires page > 0 && addr <= w.end
  {
    if w.Result() == Filled && w.Translates() && !Succeeds(g0, g, page, addr, w) then NotFilled else w.Result()
  }

  /** Stores are done in both states at the same addresses. */
  ghost predicate SameOpen(g0: Guest, g: Guest) {
    forall x :: Open(g, x) <==> Open(g0, x)
  }

  lemma BytesSame(g0: Guest, g1: Guest, g: Guest, page: int, addr: int, w: Passes)
    requires page > 0 && SameOpen(g1, g) && addr <= w.end
    ensures forall post, x :: BytesAt(g0, g, page, addr, w, post, x) == BytesAt(g0, g1, page, addr, w, post, x)
    ensures Ends(g0, g, page, addr, w) == Ends(g0, g1, page, addr, w)
  {
    hide Open, OpensFirst, X31, LastStore, PagesHit;
    forall post, x ensures BytesAt(g0, g, page, addr, w, post, x) == BytesAt(g0, g1, page, addr, w, post, x) {
      assert Open(g, x) <==> Open(g1, x);
    }
    var size := w.end - addr;
    X31Same(Bytes(g0, g, page, addr, w, w.guarded), Bytes(g0, g1, page, addr, w, w.guarded), addr, size);
    X31Same(Bytes(g0, g, page, addr, w, w.guarded + w.middle), Bytes(g0, g1, page, addr, w, w.guarded + w.middle),
      addr, size);
  }

  lemma EndsUndisturbed(g0: Guest, g: Guest, page: int, addr: int, w: Passes)
    requires page > 0 && addr <= w.end && w.Undisturbed()
    ensures Ends(g0, g, page, addr, w) == w.Result()
    ensures forall x :: BytesAt(g0, g, page, addr, w, w.guarded + w.middle, x) == g0.mem(x)
  {
    hide X31, Open, OpensFirst, PageDown, PageUp;
    assert w.guarded + w.middle == w.guarded && w.early + w.checked + w.guarded == [];
  }

  lemma EndsUndisturbedToo(g0: Guest, g: Guest, page: int, addr: int, w: Passes)
    requires page > 0 && addr <= w.end
    ensures w.Undisturbed() ==> Ends(g0, g, page, addr, w) == w.Result()
  {
    if w.Undisturbed() { EndsUndisturbed(g0, g, page, addr, w); }
  }

  /** A byte that no store came to up to the last hash is as the first pass found it. */
  lemma BytesMissed(g0: Guest, g: Guest, page: int, addr: int, w: Passes, x: int)
    requires page > 0 && forall i | 0 <= i < |w.Before()| :: w.Before()[i].0 != x
    ensures BytesAt(g0, g, page, addr, w, w.guarded + w.middle, x) == g0.mem(x)
  {
    hide Open, OpensFirst, LastStore;
    var a, b := w.early + w.checked, w.guarded + w.middle;
    assert a + b == w.Before();
    LastStoreMissed(a + b, x, g0.mem(x));
    forall i | 0 <= i < |b| ensures b[i].0 != x { assert b[i] == w.Before()[|a| + i]; }
    LastStoreMissed(b, x, g0.mem(x));
  }

  /** How a filled block depends on the state g0 at the call: its flags, and the bytes that were
      hashed. */
  ghost predicate FilledFrom(d: Dynablock, addr: int, w: Passes, g0: Guest, hashed: Memory, g: Guest, page: int)
    requires page > 0
  {
    && (d.alwaysTest <==> w.alwaysTest || NeverCleaned(g0.memprot, addr))
    && (d.dirty <==> DirtyWhen(g0.memprot, w, page, addr))
    && (forall x :: hashed(x) == BytesAt(g0, g, page, addr, w, w.guarded + w.middle, x))
    && Opened(g0, g, PageDown(addr, page), PageUp(addr + 1, page))
  }

  /** More stores after the hash. */
  lemma HashedMore(d: Dynablock, hashed: Memory, ws: Writing, g0: Guest, us: Writing, g: Guest, page: int)
    requires page > 0 && HashedThen(d, hashed, ws, g0) && Wrote(g0, us, g, page)
    ensures HashedThen(d, hashed, ws + us, g)
  {
    hide X31, Open, LastStore, PageHit, Tracked;
    forall x ensures g.mem(x) == AppliedAt(g.(mem := hashed), ws + us, x) {
      assert WroteAt(g0, us, g, page, x);
      assert Open(g, x) <==> Open(g.(mem := hashed), x) by { OpenBytes(g, hashed, x); }
      OpenBytes(g0, hashed, x);
      LastStoreAppend(ws, us, x, hashed(x));
    }
  }

  /** Whether a store is done does not depend on the guest's bytes. */
  lemma OpenBytes(g: Guest, m: Memory, x: int)
    ensures Open(g.(mem := m), x) <==> Open(g, x)
  {}

  /** What the stores behind the hash mean for it. */
  lemma HashAfterwards(d: Dynablock, hashed: Memory, ws: Writing, g: Guest)
    requires HashedThen(d, hashed, ws, g)
    ensures var (lo, hi) := (d.x86Addr, d.x86Addr + d.x86Size);
            && (ChangesNone(g.(mem := hashed), ws, lo, hi) ==> X31(g.mem, lo, d.x86Size) == d.hash)
            && (ChangesOne(g.(mem := hashed), ws, lo, hi) ==> X31(g.mem, lo, d.x86Size) != d.hash)
  {
    HashApplied(g.(mem := hashed), ws, g.mem, d.x86Addr, d.x86Size);
  }

  lemma TouchesSame(ws: Writing, g0: Guest, g: Guest, page: int, lo: int, hi: int, us: Writing)
    requires page > 0 && Wrote(g0, us, g, page)
    ensures Touches(ws, g0, page, lo, hi) <==> Touches(ws, g, page, lo, hi)
  {
    hide Open, PageDown, PageUp;
    forall x ensures Open(g, x) <==> Open(g0, x) { assert WroteAt(g0, us, g, page, x); }
  }

  /** What may happen: a guest store, a look-up for running, pages being released (a system
      call that writes guest memory), a range being unmapped. */
  datatype Step =
    | Write(a: nat, v: Byte)
    | Lookup(addr: nat, create: bool, alternate: bool, busy: bool, at1: Ptr, w1: Passes,
             win: Windows, at2: Ptr, w2: Passes)
    | Unprotect(start: nat, size: nat)
    | Destroy(start: nat, size: nat)
  {
    predicate OK() {
      match this
      case Write(a, v) => a < SPACE
      case Lookup(addr, create, alternate, busy, at1, w1, win, at2, w2) =>
        w1.OK(addr) && w2.OK(addr) && win.OK() && at1 != NULL && at2 != NULL && at1 != at2
      case _ => start + size <= SPACE
    }

    /** No store of another thread comes where it is not noticed. */
    ghost predicate Noticed(page: int)
      requires page > 0
    {
      Lookup? ==>
        && win.hashed == [] && win.checked == []
        && !PagesHit(w1.after, page, addr, w1.end) && !PagesHit(w2.after, page, addr, w2.end)
        && Misses(w1.Before(), addr, w1.end) && Misses(w2.Before(), addr, w2.end)
    }
  }

  /** What came between the check of the first page and the last hash, put together. */
  lemma LastGuards(g2: Guest, g3: Guest, g4: Guest, g5: Guest, g6: Guest, w: Passes, page: int, addr: int)
    requires page > 0 && addr < w.end && Wrote(g2, w.checked, g3, page)
    requires if DropBit(addr, page) == DropBit(w.end, page) then g4 == g3
             else Shielded(g3, g4, PageDown(addr, page), PageUp(w.end, page))
    requires Wrote(g4, w.guarded, g5, page) && Wrote(g5, w.middle, g6, page)
    ensures TrackedPages(g6.memprot, page, addr, w.end - addr) && !PagesHit(w.late, page, addr, w.end) <==>
            GuardsLast(g2.memprot, w, page, addr)
  {
    hide PageDown, PageUp, DropBit, Tracked, TrackedPages, Wrote, Shielded, PagesHit;
    var size := w.end - addr;
    assert addr + size == w.end;
    WroteTracked(g2, w.checked, g3, page, addr, size);
    if DropBit(addr, page) != DropBit(w.end, page) { ShieldTracks(g3, g4, addr, size, page); }
    WroteTracked(g4, w.guarded, g5, page, addr, size);
    WroteTracked(g5, w.middle, g6, page, addr, size);
    PagesHitAppend(w.guarded, w.middle, page, addr, w.end);
    PagesHitAppend(w.guarded + w.middle, w.late, page, addr, w.end);
  }

  lemma LastOpens(g2: Guest, g3: Guest, g4: Guest, g5: Guest, g6: Guest, w: Passes, page: int, lo: int, hi: int)
    requires page > 0 && Wrote(g2, w.checked, g3, page) && (g4 == g3 || Shielded(g3, g4, lo, hi))
    requires Wrote(g4, w.guarded, g5, page) && Wrote(g5, w.middle, g6, page)
    ensures StillOpen(g2, g6)
  {
    hide Open, Tracked;
    forall x ensures Open(g2, x) ==> Open(g6, x) {
      assert WroteAt(g2, w.checked, g3, page, x) && WroteAt(g4, w.guarded, g5, page, x);
      assert WroteAt(g5, w.middle, g6, page, x);
      if g4 != g3 { assert ShieldedAt(g3, g4, lo, hi, x); }
    }
  }

  /** The byte at x after the stores `pre`, the second protection, and the stores `post`. */
  ghost function Passed(g2: Guest, g: Guest, pre: Writing, post: Writing, x: int): Byte {
    if Open(g2, x) then LastStore(pre + post, x, g2.mem(x))
    else if Open(g, x) then LastStore(post, x, g2.mem(x))
    else g2.mem(x)
  }

  /** The bytes at the two hashes. */
  lemma PassedOn(g2: Guest, g3: Guest, g4: Guest, g5: Guest, g6: Guest, w: Passes, page: int, lo: int, hi: int)
    requires page > 0 && Wrote(g2, w.checked, g3, page) && (g4 == g3 || Shielded(g3, g4, lo, hi))
    requires Wrote(g4, w.guarded, g5, page) && Wrote(g5, w.middle, g6, page)
    ensures forall x :: g5.mem(x) == Passed(g2, g6, w.checked, w.guarded, x)
    ensures forall x :: g6.mem(x) == Passed(g2, g6, w.checked, w.guarded + w.middle, x)
  {
    hide Open, Tracked, LastStore;
    forall x
      ensures g5.mem(x) == Passed(g2, g6, w.checked, w.guarded, x)
      ensures g6.mem(x) == Passed(g2, g6, w.checked, w.guarded + w.middle, x)
    {
      assert WroteAt(g2, w.checked, g3, page, x) && WroteAt(g4, w.guarded, g5, page, x);
      assert WroteAt(g5, w.middle, g6, page, x);
      if g4 != g3 { assert ShieldedAt(g3, g4, lo, hi, x); }
      LastStoreAppend(w.checked, w.guarded, x, g2.mem(x));
      LastStoreAppend(w.checked, w.guarded + w.middle, x, g2.mem(x));
      LastStoreAppend(w.guarded, w.middle, x, g4.mem(x));
    }
  }

  lemma PassedSame(g2: Guest, g6: Guest, g: Guest, pre: Writing, post: Writing)
    requires SameOpen(g6, g)
    ensures forall x :: Passed(g2, g, pre, post, x) == Passed(g2, g6, pre, post, x)
  {
    hide Open, LastStore;
    forall x ensures Passed(g2, g, pre, post, x) == Passed(g2, g6, pre, post, x) {
      assert Open(g, x) <==> Open(g6, x);
    }
  }

  /** Seen from the state before the first pass. */
  lemma EarlyPassed(g0: Guest, g1: Guest, g2: Guest, g: Guest, w: Passes, page: int, addr: int, post: Writing)
    requires page > 0
    requires Shielded(g0, g1, PageDown(addr, page), PageUp(addr + 1, page)) && Wrote(g1, w.early, g2, page)
    ensures forall x :: Passed(g2, g, w.checked, post, x) == BytesAt(g0, g, page, addr, w, post, x)
  {
    hide Open, Tracked, LastStore, PageDown, PageUp;
    forall x ensures Passed(g2, g, w.checked, post, x) == BytesAt(g0, g, page, addr, w, post, x) {
      assert ShieldedAt(g0, g1, PageDown(addr, page), PageUp(addr + 1, page), x) && WroteAt(g1, w.early, g2, page, x);
      assert w.early + w.checked + post == w.early + (w.checked + post);
      LastStoreAppend(w.early, w.checked + post, x, g0.mem(x));
    }
  }

  /** A store that is done changes the byte at x between the begin of the first pass and the
      second protection of the pages. */
  ghost predicate ChangedUnder(g0: Guest, page: int, addr: int, w: Passes, x: int)
    requires page > 0
  {
    OpensFirst(g0, page, addr, x) && LastStore(w.early + w.checked, x, g0.mem(x)) != g0.mem(x)
  }

  /** Of a block that is not dirty, the bytes that were hashed are those that the first pass began
      with exactly when no store changed one of them before the pages were protected: such a store
      is not noticed. The hash tells if it was one byte. */
  lemma MisreadWhen(d: Dynablock, addr: int, w: Passes, g0: Guest, hashed: Memory, g: Guest, page: int)
    requires page > 0 && addr < w.end && FilledFrom(d, addr, w, g0, hashed, g, page) && !d.dirty
    requires d.x86Addr == addr && d.x86Size == w.end - addr && X31(hashed, addr, d.x86Size) == d.hash
    ensures (forall x | addr <= x < w.end :: hashed(x) == g0.mem(x)) <==>
            forall x | addr <= x < w.end :: !ChangedUnder(g0, page, addr, w, x)
    ensures (forall x | addr <= x < w.end :: !ChangedUnder(g0, page, addr, w, x)) ==>
              X31(g0.mem, addr, d.x86Size) == d.hash
    ensures (exists x | addr <= x < w.end :: ChangedUnder(g0, page, addr, w, x) &&
              forall y | addr <= y < w.end && y != x :: !ChangedUnder(g0, page, addr, w, y)) ==>
              X31(g0.mem, addr, d.x86Size) != d.hash
  {
    hide X31, OpensFirst, Opened, LastStore, PageDown, PageUp, Open;
    forall x | addr <= x < w.end ensures hashed(x) == g0.mem(x) <==> !ChangedUnder(g0, page, addr, w, x) {
      CleanBytes(addr, w, g0, g, page, x);
    }
    if forall x | addr <= x < w.end :: !ChangedUnder(g0, page, addr, w, x) {
      X31Same(g0.mem, hashed, addr, d.x86Size);
    }
    if x :| addr <= x < w.end && ChangedUnder(g0, page, addr, w, x) &&
              forall y | addr <= y < w.end && y != x :: !ChangedUnder(g0, page, addr, w, y) {
      X31NoticesOneByte(g0.mem, hashed, addr, d.x86Size, x);
    }
  }

  /** Stores that come once the pages are protected make the block dirty. */
  lemma CleanBytes(addr: int, w: Passes, g0: Guest, g: Guest, page: int, x: int)
    requires page > 0 && addr <= x < w.end && !PagesHit(w.guarded + w.middle + w.late, page, addr, w.end)
    ensures BytesAt(g0, g, page, addr, w, w.guarded + w.middle, x) ==
            if OpensFirst(g0, page, addr, x) then LastStore(w.early + w.checked, x, g0.mem(x)) else g0.mem(x)
  {
    hide OpensFirst, LastStore, PageDown, PageUp, Open;
    PageBounds(addr, page);
    PageBounds(w.end, page);
    var us, vs, m := w.guarded + w.middle, w.guarded + w.middle + w.late, g0.mem(x);
    forall i | 0 <= i < |us| ensures us[i].0 != x { assert vs[i] == us[i]; }
    LastStoreAppend(w.early + w.checked, us, x, m);
    LastStoreMissed(us, x, m);
    LastStoreMissed(us, x, LastStore(w.early + w.checked, x, m));
  }

  /** The story of a filled block from the call on. */
  lemma FilledStory(g0: Guest, g1: Guest, g2: Guest, g: Guest, d: Dynablock, addr: int, w: Passes, hashed: Memory,
                    page: int)
    requires page > 0 && addr < w.end && Pages(g0.memprot, g0.os) && Pages(g.memprot, g.os)
    requires Pagewise(g2.memprot, g2.os, page)
    requires Shielded(g0, g1, PageDown(addr, page), PageUp(addr + 1, page)) && Wrote(g1, w.early, g2, page)
    requires TrackedPages(g2.memprot, page, addr, 1) && StillOpen(g2, g)
    requires forall x :: hashed(x) == Passed(g2, g, w.checked, w.guarded + w.middle, x)
    requires TrackedPages(g.memprot, page, addr, w.end - addr) <==> GuardsLast(g2.memprot, w, page, addr)
    requires d.dirty <==> d.alwaysTest || !TrackedPages(g.memprot, page, addr, w.end - addr)
    requires d.alwaysTest <==> w.alwaysTest || NeverCleaned(g.memprot, addr)
    ensures FilledFrom(d, addr, w, g0, hashed, g, page)
  {
    hide PageDown, PageUp, Open, Tracked, TrackedPages, NeverCleaned, Pages, GuardsLast, DirtyWhen, Pagewise;
    hide ProtectedValue, R.At, Passed, BytesAt;
    NoneNeverCleaned(g0.memprot, g0.os, addr);
    NoneNeverCleaned(g.memprot, g.os, addr);
    DirtyExactly(g0, g1, g2, w, page, addr, TrackedPages(g.memprot, page, addr, w.end - addr));
    ShieldOpens(g0, g1, PageDown(addr, page), PageUp(addr + 1, page));
    WroteOpens(g1, w.early, g2, page);
    StillOpenTrans(g1, g2, g);
    OpenedLater(g0, g1, g, PageDown(addr, page), PageUp(addr + 1, page));
    EarlyPassed(g0, g1, g2, g, w, page, addr, w.guarded + w.middle);
  }

  lemma HashedNow(d: Dynablock, g0: Guest, ws: Writing, g: Guest, page: int)
    requires page > 0 && X31(g0.mem, d.x86Addr, d.x86Size) == d.hash && Wrote(g0, ws, g, page)
    ensures HashedThen(d, g0.mem, ws, g)
  {
    hide X31, Open, Wrote;
    assert HashedThen(d, g0.mem, [], g0);
    HashedMore(d, g0.mem, [], g0, ws, g, page);
    assert [] + ws == ws;
  }

  class Dynarec {
    const table: Table<Target>
    const prot: Tracker
    var mem: Memory
    var maxDbSize: nat
    var blocks: Blocks
    ghost var entries: Flat
    ghost var past: Past   // what happened to the registered blocks

    ghost predicate TableOK(): (ok: bool)
      reads this`entries, table, table.jmptbl, table.dflt, table.jmptbl[..]
      ensures ok ==> forall a :: a in entries <==> 0 <= a < JumpTable.TOP
    {
      && table.Valid() && table.armNext == ArmNext
      && (forall a :: a in entries <==> 0 <= a < JumpTable.TOP)
      && (forall a | 0 <= a < JumpTable.TOP :: entries[a] == table.Entry(a))
    }

    ghost predicate ProtOK()
      reads prot
    {
      prot.Valid() && R.OnPage(SPACE, prot.page) && Pages(prot.memprot, prot.os) &&
        Pagewise(prot.memprot, prot.os, prot.page)
    }

    ghost predicate Valid(): (ok: bool)
      reads this, table, table.jmptbl, table.dflt, table.jmptbl[..], prot
      ensures ok ==> prot.Valid() && forall a :: a in entries <==> 0 <= a < JumpTable.TOP
    {
      TableOK() && ProtOK() && Links(blocks) && Entries(entries, blocks, past, mem, prot.os, maxDbSize)
    }

    /** The guest's side of the state. */
    ghost function Now(): Guest
      reads this`mem, prot
    {
      Guest(prot.memprot, prot.os, mem)
    }

    constructor (page: nat)
      requires page > 0 && R.OnPage(SPACE, page)
      ensures Valid() && blocks == map[] && fresh(table) && fresh(prot) && fresh(table.jmptbl) && fresh(table.dflt)
      ensures table.Leaves() == {}
      ensures forall a | 0 <= a < JumpTable.TOP :: entries[a] == ArmNext
      ensures past == Past({}, {}, map[]) && prot.page == page && prot.memprot == [] && (forall x :: mem(x) == 0)
    {
      table := new Table(ArmNext);
      prot := new Tracker(page);
      mem, maxDbSize, blocks, past := _ => 0, 0, map[], Past({}, {}, map[]);
      new;
      entries := imap a | 0 <= a < JumpTable.TOP :: table.Entry(a);
      hide Table.Valid, Table.Entry, Tracker.Valid;
      assert ProtOK();
    }

    // ---- The jump table

    method SetJumpTableIfRef(addr: nat, jmp: Target, ref: Target) returns (ok: bool)
      requires TableOK() && addr < JumpTable.TOP
      modifies table.jmptbl, table.Leaves(), this`entries
      ensures TableOK() && fresh(table.Leaves() - old(table.Leaves()))
      ensures entries == if old(entries[addr]) == ref then old(entries)[addr := jmp] else old(entries)
      ensures ok <==> entries[addr] == jmp
    {
      ok := table.SetIfRef(addr, jmp, ref);
      entries := if entries[addr] == ref then entries[addr := jmp] else entries;
    }

    method SetJumpTableDefault(addr: nat)
      requires TableOK() && addr < JumpTable.TOP
      modifies table.Leaves(), this`entries
      ensures TableOK() && table.Leaves() == old(table.Leaves())
      ensures entries == old(entries)[addr := ArmNext]
    {
      table.SetDefault(addr);
      entries := entries[addr := ArmNext];
    }

    /** getDB: the block that the entry at addr belongs to. */
    method GetDB(addr: nat) returns (db: Ptr)
      requires TableOK() && addr < JumpTable.TOP
      ensures db == if entries[addr] == ArmNext then NULL else entries[addr].db
    {
      var t := table.Get(addr);
      db := if t == ArmNext then NULL else t.db;
    }

    function BlockOf(p: Ptr): Target
      requires p in blocks
      reads this`blocks
    {
      if blocks[p].code == EmptyBlock then JmpNext(p) else Direct(p)
    }

    /** getNeedTest: whether the entry at addr leads to the check. */
    method GetNeedTest(addr: nat) returns (test: bool)
      requires Valid() && addr < JumpTable.TOP
      ensures test <==> entries[addr] != ArmNext && entries[addr] != BlockOf(entries[addr].db)
    {
      assert EntryOK(addr, entries[addr], blocks, past, mem, prot.os, maxDbSize);
      var t := table.Get(addr);
      test := t != ArmNext && t != BlockOf(t.db);
    }

    // ---- Releasing

    /** customFree of a block, with its code memory: it must be allocated. */
    method Release(p: Ptr)
      requires p in blocks
      modifies this`blocks
      ensures blocks == old(blocks) - {p}
    {
      blocks := blocks - {p};
    }

    /** A block that is gone is released. */
    method FreeInvalidDynablock(p: Ptr)
      requires p != NULL ==> p in blocks
      modifies this`blocks
      ensures blocks == if p != NULL && old(blocks[p].gone) then old(blocks) - {p} else old(blocks)
    {
      if p != NULL {
        if !blocks[p].gone {
          return;
        }
        Release(p);
      }
    }

    /** Unregisters a block and marks it as gone; it is not released yet. */
    method InvalidDynablock(p: Ptr) returns (r: Ptr)
      requires Valid() && p in blocks && 0 <= blocks[p].x86Addr < JumpTable.TOP
      modifies table.Leaves(), this`entries, this`blocks
      ensures Valid() && table.Leaves() == old(table.Leaves())
      ensures if old(blocks[p].gone) then r == NULL && entries == old(entries) && blocks == old(blocks)
              else r == p && entries == old(entries[blocks[p].x86Addr := ArmNext]) && blocks == Gone(old(blocks), p)
      ensures blocks[p].gone && (!old(blocks[p].gone) ==> !blocks[p].done)
    {
      hide TableOK, ProtOK, Links, Entries;
      if blocks[p].gone {
        return NULL;
      }
      LinksGone(blocks, p);
      EntriesWithout(entries, blocks, past, mem, prot.os, maxDbSize, p, Gone(blocks, p));
      SetJumpTableDefault(blocks[p].x86Addr);
      blocks := blocks[p := blocks[p].(done := false, gone := true)];
      return p;
    }

    /** Unregisters and releases a block, with the one it kept. */
    method FreeDynablock(p: Ptr)
      requires Valid() && p in blocks && 0 <= blocks[p].x86Addr < JumpTable.TOP
      modifies table.Leaves(), this`entries, this`blocks
      ensures Valid() && table.Leaves() == old(table.Leaves())
      ensures if old(blocks[p].gone) then entries == old(entries) && blocks == old(blocks)
              else entries == old(entries[blocks[p].x86Addr := ArmNext]) && blocks == Freed(old(blocks), p)
    {
      hide TableOK, ProtOK, Links, Entries;
      ghost var b0 := blocks;
      if blocks[p].gone {
        return;
      }
      LinksFreed(blocks, p);
      KeptGone(blocks, p);
      EntriesWithout(entries, blocks, past, mem, prot.os, maxDbSize, p, Freed(blocks, p));
      SetJumpTableDefault(blocks[p].x86Addr);
      blocks := blocks[p := blocks[p].(done := false, gone := true)];
      if blocks[p].previous != NULL {
        FreeInvalidDynablock(blocks[p].previous);
      }
      Release(p);
      assert blocks == Freed(b0, p);
    }

    ghost predicate RegisteredAs(p: Ptr)
      requires p in blocks
      reads this`blocks, this`entries
    {
      var a := blocks[p].x86Addr;
      a in entries && entries[a] != ArmNext && entries[a].db == p
    }

    /** Makes a registered block be checked before it is entered. A block that is not
        registered any more is lost. */
    method MarkDynablock(p: Ptr)
      requires Valid() && p in blocks && blocks[p].code != NoCode && 0 <= blocks[p].x86Addr < JumpTable.TOP
      modifies table.jmptbl, table.Leaves(), this`entries, this`blocks
      ensures Valid() && fresh(table.Leaves() - old(table.Leaves()))
      ensures old(RegisteredAs(p)) ==> entries == old(entries[blocks[p].x86Addr := JmpNext(p)]) && blocks == old(blocks)
      ensures old(!RegisteredAs(p)) ==> entries == old(entries)
      ensures old(!RegisteredAs(p)) ==> blocks == if old(blocks[p].gone) then old(blocks) else
                var t := old(entries[blocks[p].x86Addr]); Lost(old(blocks), p, if t == ArmNext then NULL else t.db)
    {
      hide TableOK, ProtOK, Links, Entries, EntryOK;
      var d := blocks[p];
      EntryAt(d.x86Addr);
      EntryCases(p);
      if RegisteredAs(p) { EntriesMarked(entries, blocks, past, mem, prot.os, maxDbSize, d.x86Addr); }
      var ok := SetJumpTableIfRef(d.x86Addr, JmpNext(p), BlockOf(p));
      if !ok {
        var cur := GetDB(d.x86Addr);
        if !d.gone && cur != p {
          LoseBlock(p, cur);
        }
      }
    }

    /** The entry of a registered block is its code or its check. */
    lemma EntryCases(p: Ptr)
      requires Valid() && p in blocks && 0 <= blocks[p].x86Addr < JumpTable.TOP
      ensures var t := entries[blocks[p].x86Addr];
              && (RegisteredAs(p) <==> t == BlockOf(p) || t == JmpNext(p))
              && (t != ArmNext ==> t.db in blocks && t.db != NULL)
    {
      assert EntryOK(blocks[p].x86Addr, entries[blocks[p].x86Addr], blocks, past, mem, prot.os, maxDbSize);
    }

    method LoseBlock(p: Ptr, cur: Ptr)
      requires Valid() && p in blocks && !blocks[p].gone && cur != p && 0 <= blocks[p].x86Addr < JumpTable.TOP
      requires !RegisteredAs(p)
      requires cur != NULL ==> cur in blocks
      modifies this`blocks
      ensures Valid() && blocks == Lost(old(blocks), p, cur)
    {
      hide TableOK, ProtOK, Links, Entries, Lost;
      LostElsewhere(blocks, p, cur);
      EntriesElsewhere(entries, blocks, past, mem, prot.os, maxDbSize, p, Lost(blocks, p, cur));
      LinksLost(blocks, p, cur);
      EntryAt(blocks[p].x86Addr);
      SetLost(p, cur);
    }

    method SetLost(p: Ptr, cur: Ptr)
      requires p in blocks && !blocks[p].gone && cur != p && NULL !in blocks && (cur != NULL ==> cur in blocks)
      modifies this`blocks
      ensures blocks == Lost(old(blocks), p, cur)
    {
      ghost var b0 := blocks;
      blocks := blocks[p := blocks[p].(gone := true, done := false)];
      if cur == NULL || blocks[cur].previous != NULL {
        FreeInvalidDynablock(p);
        assert blocks == b0 - {p};
      } else {
        blocks := blocks[cur := blocks[cur].(previous := p)];
      }
    }

    lemma EntryAt(a: int)
      requires Valid() && 0 <= a < JumpTable.TOP
      ensures EntryOK(a, entries[a], blocks, past, mem, prot.os, maxDbSize) && NULL !in blocks
    {}

    // ---- The sweeps

    method MarkRangeDynablock(p: Ptr, addr: int, size: nat)
      requires Valid() && p in blocks && RegisteredAs(p) && 0 <= blocks[p].x86Addr < JumpTable.TOP
      modifies table.jmptbl, table.Leaves(), this`entries, this`blocks
      ensures Valid() && fresh(table.Leaves() - old(table.Leaves())) && blocks == old(blocks)
      ensures entries == if Hits(blocks[p], addr, size) then old(entries)[blocks[p].x86Addr := JmpNext(p)]
          else old(entries)
    {
      hide TableOK, ProtOK, Links, Entries, EntryOK;
      var d := blocks[p];
      EntryAt(d.x86Addr);
      EntryIsCoded(d.x86Addr);
      if IntervalIntersects(d.x86Addr, Wrap(d.x86Addr + d.x86Size - 1), addr, Wrap(addr + size + 1)) {
        MarkDynablock(p);
      }
    }

    method FreeRangeDynablock(p: Ptr, addr: int, size: nat)
      requires Valid() && p in blocks && RegisteredAs(p) && 0 <= blocks[p].x86Addr < JumpTable.TOP
      modifies table.Leaves(), this`entries, this`blocks
      ensures Valid() && table.Leaves() == old(table.Leaves()) && Within(blocks, old(blocks))
      ensures blocks == if Hits(old(blocks[p]), addr, size) then Freed(old(blocks), p) else old(blocks)
      ensures entries == if Hits(old(blocks[p]), addr, size) then old(entries)[old(blocks[p].x86Addr) := ArmNext]
          else old(entries)
    {
      hide TableOK, ProtOK, Links, Entries, EntryOK;
      var d := blocks[p];
      EntryIsCoded(d.x86Addr);
      if IntervalIntersects(d.x86Addr, Wrap(d.x86Addr + d.x86Size - 1), addr, Wrap(addr + size + 1)) {
        FreeDynablock(p);
      }
    }

    lemma EntryIsCoded(a: int)
      requires Valid() && 0 <= a < JumpTable.TOP
      ensures var t := entries[a];
              t != ArmNext ==>
                t.db in blocks && !blocks[t.db].gone && blocks[t.db].code != NoCode && blocks[t.db].x86Addr == a
    {
      assert EntryOK(a, entries[a], blocks, past, mem, prot.os, maxDbSize);
    }

    method SweepAt(at: nat, addr: nat, size: nat, destroy: bool)
      requires Valid() && at < JumpTable.TOP && entries[at] != ArmNext
      modifies table.jmptbl, table.Leaves(), this`entries, this`blocks
      ensures Valid() && fresh(table.Leaves() - old(table.Leaves())) && Within(blocks, old(blocks))
      ensures !destroy ==> blocks == old(blocks)
      ensures destroy ==> var p := old(entries[at].db);
                p in old(blocks) &&
                  blocks == if Hits(old(blocks[p]), addr, size) then Freed(old(blocks), p) else old(blocks)
      ensures entries == old(entries)[at := Swept(old(entries[at]), old(blocks), addr, size, destroy)]
    {
      hide TableOK, ProtOK, Links, Entries, EntryOK, Hits;
      TableIsOK();
      EntryIsCoded(at);
      var db := GetDB(at);
      if destroy {
        FreeRangeDynablock(db, addr, size);
      } else {
        MarkRangeDynablock(db, addr, size);
      }
    }

    lemma TableIsOK()
      requires Valid()
      ensures TableOK()
    {}

    /** getDBSize below the last slot: the next entry in use, or where to go on. */
    method NextDB(start: nat, maxsize: nat) returns (next: nat, found: bool, at: nat)
      requires TableOK() && start < SPACE
      ensures start < next <= SPACE && (found ==> start <= at < SPACE && next == at + 1 && entries[at] != ArmNext)
      ensures forall a | start <= a < (if found then at else next) :: entries[a] == ArmNext
    {
      ghost var wide;
      next, found, at, wide := table.GetDBSize(start, maxsize);
      assert start / LEAF < SLOTS - 1;
      forall a | start <= a < (if found then at else next) ensures entries[a] == ArmNext {
        assert table.Entry(a) == ArmNext;
      }
    }

    /** Where a sweep begins: no registered block before it reaches the range. */
    function SweepFrom(addr: nat): nat
      reads this`maxDbSize
    {
      if addr < maxDbSize then 0 else addr - maxDbSize
    }

    /** Looks at every block that may reach into the range; marks or frees those that do. */
    method SweepRange(addr: nat, size: nat, destroy: bool) returns (ghost hi: int, ghost freed: set<Ptr>)
      requires Valid() && addr + size <= SPACE
      modifies table.jmptbl, table.Leaves(), this`entries, this`blocks
      ensures Valid() && fresh(table.Leaves() - old(table.Leaves())) && Within(blocks, old(blocks))
      ensures !destroy ==> blocks == old(blocks)
      ensures destroy ==> Destroyed(old(entries), old(blocks), entries, blocks, freed)
      ensures hi >= addr + size && SweptTo(old(entries), old(blocks), entries, addr, size, destroy, SweepFrom(addr), hi)
    {
      hide TableOK, ProtOK, Links, Entries, EntryOK, Hits, SweptTo, Swept, Within, Destroyed;
      ghost var e0, b0 := entries, blocks;
      WithinSame(blocks);
      freed := {};
      DestroyedNone(e0, b0);
      var start := SweepFrom(addr);
      var end := addr + size;
      ghost var lo := start;
      SweptStart(e0, b0, addr, size, destroy, lo);
      while start < end
        invariant lo <= start <= SPACE || start == lo
        invariant Valid() && fresh(table.Leaves() - old(table.Leaves())) && Within(blocks, b0)
        invariant !destroy ==> blocks == b0
        invariant destroy ==> Destroyed(e0, b0, entries, blocks, freed)
        invariant SweptTo(e0, b0, entries, addr, size, destroy, lo, start)
        decreases SPACE - start
      {
        TableIsOK();
        var next, found, at := NextDB(start, end - start);
        if found {
          EntryIsCoded(at);
          ghost var e1, b1 := entries, blocks;
          SweepAt(at, addr, size, destroy);
          SweptAt(e0, b0, e1, b1, entries, addr, size, destroy, lo, start, at);
          if destroy {
            SweptYet(e0, b0, e1, addr, size, destroy, lo, start, at);
            freed := DestroyedMore(e0, b0, e1, b1, entries, blocks, freed, at, addr, size);
          }
          WithinTrans(blocks, b1, b0);
        } else {
          SweptNothing(e0, b0, entries, addr, size, destroy, lo, start, next);
        }
        start := next;
      }
      hi := start;
    }

    /** What a destroying sweep took away: the blocks whose entry has become free, each with the
        one it kept. */
    static ghost predicate Destroyed(e0: Flat, b0: Blocks, e: Flat, b: Blocks, freed: set<Ptr>) {
      && b == FreedAll(b0, freed) && FreedAre(e0, b0, e, freed)
      && forall p | p in freed :: p in b0 && !b0[p].gone
    }

    static lemma DestroyedNone(e: Flat, b: Blocks)
      ensures Destroyed(e, b, e, b, {})
    {
      FreedNone(e, b);
    }

    /** What the sweep has not come to is as it was. */
    static lemma SweptYet(e0: Flat, b0: Blocks, e: Flat, addr: int, size: nat, destroy: bool, lo: int, mid: int,
                          at: int)
      requires SweptTo(e0, b0, e, addr, size, destroy, lo, mid) && mid <= at && at in e
      ensures at in e0 && e[at] == e0[at]
    {
      hide Swept;
    }

    static lemma DestroyedMore(e0: Flat, b0: Blocks, e1: Flat, b1: Blocks, e: Flat, b: Blocks, freed: set<Ptr>,
                               at: int, addr: int, size: nat) returns (now: set<Ptr>)
      requires Destroyed(e0, b0, e1, b1, freed) && at in e0 && at in e1 && e1[at] == e0[at] != ArmNext
      requires var p := e0[at].db; p in b1 && b1[p].x86Addr == at && !b1[p].gone
      requires e == e1[at := Swept(e1[at], b1, addr, size, true)]
      requires var p := e0[at].db; b == if Hits(b1[p], addr, size) then Freed(b1, p) else b1
      ensures Destroyed(e0, b0, e, b, now)
    {
      hide Hits, FreedAll, Freed, FreedAre;
      var p, hit := e0[at].db, Hits(b1[e0[at].db], addr, size);
      now := if hit then freed + {p} else freed;
      FreedOneMore(b0, freed, b1, p);
      FreedStep(e0, b0, e1, e, freed, at, p, hit);
    }

    /** Marks, or with `destroy` frees, every registered block that shares a byte with the range
        and leaves those that lie wholly before it; gives leaves back that are empty then. */
    method CleanDBFromAddressRange(addr: nat, size: nat, destroy: bool) returns (ghost freed: set<Ptr>)
      requires Valid() && addr + size <= SPACE
      modifies table.jmptbl, table.Leaves(), this`entries, this`blocks
      ensures Valid() && fresh(table.Leaves() - old(table.Leaves())) && Within(blocks, old(blocks))
      ensures !destroy ==> blocks == old(blocks)
      ensures destroy ==> Destroyed(old(entries), old(blocks), entries, blocks, freed)
      ensures destroy ==> DestroyKeeps(old(blocks), blocks)
      ensures destroy ==> forall i | 0 <= i < SLOTS && Visited(addr, addr + size, i) && table.jmptbl[i] != table.dflt ::
          !table.EmptyAt(i)
      ensures Cleaned(old(entries), old(blocks), entries, addr, size, destroy)
    {
      hide TableOK, ProtOK, Links, Entries, EntryOK, SweptTo, Within, Cleaned, DestroyKeeps, FreedAll, FreedAre;
      ghost var e0, b0, lo := entries, blocks, SweepFrom(addr);
      RegisteredOnes();
      LinksHold();
      ghost var max := maxDbSize;
      ghost var hi;
      hi, freed := SweepRange(addr, size, destroy);
      SweptIsCleaned(e0, b0, entries, addr, size, destroy, lo, hi, max);
      if destroy {
        TableIsOK();
        DestroyedKeeps(b0, freed);
        ReclaimLeaves(addr, addr + size);
      }
    }

    /** Gives the empty leaves under a destroyed range back. */
    method ReclaimLeaves(addr: nat, end: nat)
      requires TableOK() && end <= SPACE
      modifies table.jmptbl
      ensures TableOK() && table.Leaves() <= old(table.Leaves())
      ensures forall i | 0 <= i < SLOTS && Visited(addr, end, i) && table.jmptbl[i] != table.dflt :: !table.EmptyAt(i)
    {
      table.ReclaimLeaves(addr, end);
    }

    lemma LinksHold()
      requires Valid()
      ensures Links(blocks)
    {}

    /** All registered blocks are where their entry is, and no longer than the longest. */
    lemma RegisteredOnes()
      requires Valid()
      ensures Bounded(entries, blocks, maxDbSize)
    {
      forall a | a in entries && entries[a] != ArmNext
        ensures var p := entries[a].db;
            p in blocks && blocks[p].x86Addr == a && blocks[p].x86Size <= maxDbSize && 0 <= a &&
              a + blocks[p].x86Size <= SPACE
      {
        assert EntryOK(a, entries[a], blocks, past, mem, prot.os, maxDbSize);
      }
    }

    // ---- The guest writes to its memory

    /** One run of unprotectDB with mark 1: the blocks in it are marked before it is released. */
    method UnprotectMarking(cur: nat, bend: nat, v: R.Option<Prot>)
      requires Valid() && cur < bend <= SPACE && R.OnPage(cur, prot.page) && R.OnPage(bend, prot.page)
      requires R.Uniform(prot.memprot, cur, bend, v)
      modifies table.jmptbl, table.Leaves(), this`entries, this`blocks, prot
      ensures Valid() && fresh(table.Leaves() - old(table.Leaves())) && blocks == old(blocks)
      ensures MarkedOnly(old(entries), entries)
      ensures UnprotectedTo(old(prot.memprot), old(prot.os), prot.memprot, prot.os, cur, bend)
    {
      hide TableOK, Links, Entries, Cleaned, Undirected, R.At, R.Rem, R.Uniform, Guarded, UnprotectedTo, Pages;
      hide Pagewise;
      ghost var e0, b, r0, o0 := entries, blocks, prot.memprot, prot.os;
      if v == R.None {
        UntrackedTo(r0, o0, cur, bend);
        return;
      }
      if !v.value.NeverProt() && v.value.dynarec {
        var _ := CleanDBFromAddressRange(cur, bend - cur, false);
        CleanedUndirected(e0, b, entries, past, mem, o0, maxDbSize, cur, bend);
        CleanedMarks(e0, b, entries, cur, bend - cur);
        assert Quiet(r0, entries, b, past, cur, bend);
      } else {
        UnprotectedQuiet(r0, entries, b, past, cur, bend, v);
      }
      prot.UnprotectRun(cur, bend, v.value);
      PagesUnprotected(r0, o0, prot.memprot, prot.os, cur, bend);
      PagewiseUnprotected(r0, o0, prot.memprot, prot.os, cur, bend, prot.page);
      EntriesUnprotected(entries, b, past, mem, r0, o0, prot.memprot, prot.os, maxDbSize, cur, bend);
    }

    /** unprotectDB with mark 1: gives the write permission back and marks what is there. */
    method UnprotectDB(addr: nat, size: nat)
      requires Valid() && addr + size <= SPACE
      modifies table.jmptbl, table.Leaves(), this`entries, this`blocks, prot
      ensures Valid() && fresh(table.Leaves() - old(table.Leaves())) && blocks == old(blocks)
      ensures MarkedOnly(old(entries), entries)
      ensures UnprotectedTo(old(prot.memprot), old(prot.os), prot.memprot, prot.os, PageDown(addr, prot.page),
          PageUp(addr + size, prot.page))
    {
      hide TableOK, Links, Entries, R.At, R.Rem, R.Uniform, R.OnPage, Guarded, UnprotectedTo, Pages, MarkedOnly, PageUp;
      hide PageDown, ProtOK, Tracker.Valid;
      ProtIsOK();
      PageBounds(addr, prot.page);
      PageBounds(addr + size, prot.page);
      PageUpFits(addr + size, SPACE, prot.page);
      var cur := PageDown(addr, prot.page);
      var end := PageUp(addr + size, prot.page);
      ghost var lo, e0, r0, o0, b := cur, entries, prot.memprot, prot.os, blocks;
      NothingTo(r0, o0, cur);
      MarkedNone(e0);
      while cur != end
        invariant Valid() && fresh(table.Leaves() - old(table.Leaves())) && blocks == b && MarkedOnly(e0, entries)
        invariant 0 <= lo <= cur <= end && R.OnPage(cur, prot.page)
        invariant UnprotectedTo(r0, o0, prot.memprot, prot.os, lo, cur)
        decreases end - cur
      {
        ghost var e1, r1, o1 := entries, prot.memprot, prot.os;
        var v, bend := prot.RunAt(cur, end);
        UnprotectMarking(cur, bend, v);
        UnprotectedMore(r0, o0, r1, o1, prot.memprot, prot.os, lo, cur, bend);
        MarkedTrans(e0, e1, entries);
        cur := bend;
      }
    }

    lemma ProtIsOK()
      requires Valid()
      ensures prot.Valid() && prot.page > 0 && R.OnPage(SPACE, prot.page) && Pages(prot.memprot, prot.os)
      ensures Pagewise(prot.memprot, prot.os, prot.page)
    {}

    /** A store to a byte that the system lets be written. */
    method Store(a: nat, v: Byte)
      requires Valid() && prot.os(a).write
      modifies this`mem
      ensures Valid() && forall x :: mem(x) == if x == a then v else old(mem)(x)
    {
      hide TableOK, Links, Entries, ProtOK, Undirected;
      ghost var mem0 := mem;
      WritableUndirected(entries, blocks, past, mem, prot.os, maxDbSize, a);
      var was := mem;
      mem := x => if x == a then v else was(x);
      EntriesOutside(entries, blocks, past, mem0, prot.os, mem, prot.os, maxDbSize, a, a + 1);
    }

    /** A guest store of v at a. When the system refuses it, the handler of the fault looks at
        the recorded protection: a page that is only guarded by the emulator is released, its
        blocks marked, and the store retried; otherwise the fault is the guest's own. */
    method GuestWrite(a: nat, v: Byte) returns (done: bool)
      requires Valid() && a < SPACE
      modifies this`mem, table.jmptbl, table.Leaves(), this`entries, this`blocks, prot
      ensures Valid() && fresh(table.Leaves() - old(table.Leaves()))
      ensures blocks == old(blocks) && MarkedOnly(old(entries), entries)
      ensures done <==> old(Open(Now(), a))
      ensures prot.page > 0 && Wrote(old(Now()), [(a, v)], Now(), prot.page)
    {
      hide TableOK, Links, Entries, ProtOK, Pages, R.At, R.Rem, SamePage, UnprotectedTo, MarkedOnly;
      hide Cleaned, PageDown, PageUp, Tracker.Valid, Wrote, Pagewise;
      ProtIsOK();
      ghost var g0, e0, b0, page := Now(), entries, blocks, prot.page;
      PageBounds(a, page);
      PageBounds(a + 1, page);
      MarkedNone(e0);
      if !prot.os(a).write {
        var prot0, _ := R.GetEnd(prot.memprot, a);
        if prot0 != R.None && prot0.value.Dyn() {
          UnprotectDB(a, 1);
          TrapReleases(g0, Now(), a, PageDown(a, page), PageUp(a + 1, page));
          if !prot0.value.write {
            WroteTrapped(g0, a, v, Now(), page);
            return false;
          }
        } else {
          WroteRefused(g0, a, v, page);
          if prot0 != R.None && (prot0.value.read || prot0.value.write) {
            PagesApart(PageDown(a, page), SPACE, page);
            var _ := CleanDBFromAddressRange(PageDown(a, prot.page), prot.page, false);
            CleanedMarks(e0, b0, entries, PageDown(a, page), page);
          }
          return false;
        }
      }
      Store(a, v);
      if g0.os(a).write { WroteAtOnce(g0, a, v, Now(), page); } else { WroteTrapped(g0, a, v, Now(), page); }
      return true;
    }

    /** Stores of other threads, one after the other. */
    method Writes(ws: Writing)
      requires Valid() && InSpace(ws)
      modifies this`mem, table.jmptbl, table.Leaves(), this`entries, this`blocks, prot
      ensures Valid() && fresh(table.Leaves() - old(table.Leaves()))
      ensures blocks == old(blocks) && MarkedOnly(old(entries), entries)
      ensures prot.page > 0 && Wrote(old(Now()), ws, Now(), prot.page)
      ensures ws == [] ==> Now() == old(Now()) && entries == old(entries)
      ensures StillOpen(old(Now()), Now())
    {
      hide Valid, MarkedOnly, Wrote, StillOpen;
      ghost var e0, g0, b := entries, Now(), blocks;
      MarkedNone(e0);
      PageIsPositive();
      WroteNone(g0, prot.page);
      var i := 0;
      while i < |ws|
        invariant 0 <= i <= |ws| && Valid() && fresh(table.Leaves() - old(table.Leaves())) && blocks == b
        invariant MarkedOnly(e0, entries) && prot.page > 0 && Wrote(g0, ws[..i], Now(), prot.page)
        invariant i == 0 ==> Now() == g0 && entries == e0
      {
        ghost var e1, g1 := entries, Now();
        var _ := GuestWrite(ws[i].0, ws[i].1);
        MarkedTrans(e0, e1, entries);
        WroteMore(g0, ws[..i], g1, [(ws[i].0, ws[i].1)], Now(), prot.page);
        assert ws[..i] + [(ws[i].0, ws[i].1)] == ws[..i + 1];
        i := i + 1;
      }
      assert ws[..i] == ws;
      WroteOpens(g0, ws, Now(), prot.page);
    }

    lemma PageIsPositive()
      requires Valid()
      ensures prot.page > 0
    {}

    /** protectDB on a range of guest memory. */
    method ProtectDB(addr: nat, size: nat)
      requires Valid() && addr + size <= SPACE
      modifies prot
      ensures Valid() && prot.page > 0
      ensures Shielded(old(Now()), Now(), PageDown(addr, prot.page), PageUp(addr + size, prot.page))
      ensures TrackedPages(prot.memprot, prot.page, addr, size)
    {
      hide TableOK, Links, Entries, R.At, R.Rem, Guarded, ProtectedTo, Pages, Pagewise, PageUp, PageDown, Tracker.Valid;
      hide ShieldedAt;
      ProtIsOK();
      PageUpFits(addr + size, SPACE, prot.page);
      PageBounds(addr, prot.page);
      PageBounds(addr + size, prot.page);
      ghost var g0, lo, hi := Now(), PageDown(addr, prot.page), PageUp(addr + size, prot.page);
      prot.ProtectDB(addr, size);
      PagesProtected(g0.memprot, g0.os, prot.memprot, prot.os, lo, hi);
      PagewiseProtected(g0.memprot, g0.os, prot.memprot, prot.os, lo, hi, prot.page);
      EntriesGuarded(entries, blocks, past, mem, g0.os, prot.os, maxDbSize);
      ProtectShields(g0, Now(), lo, hi);
      ShieldTracks(g0, Now(), addr, size, prot.page);
    }

    method IsProtectedDB(addr: nat, size: nat) returns (ok: bool)
      requires Valid() && addr + size <= SPACE
      ensures prot.page > 0 && (ok <==> TrackedPages(prot.memprot, prot.page, addr, size))
    {
      hide R.At, R.Rem, PageUp, PageDown, Valid;
      ProtIsOK();
      PageUpFits(addr + size, SPACE, prot.page);
      ok := prot.IsProtectedDB(addr, size);
      TrackedMeans(prot.memprot, prot.page, addr, size);
    }

    /** Writes the record of a block that no entry leads to. */
    method SetBlock(p: Ptr, d: Dynablock)
      requires Valid() && p in blocks && !RegisteredAs(p) && d.previous == blocks[p].previous
      requires d.gone == blocks[p].gone
      modifies this`blocks
      ensures Valid() && blocks == old(blocks)[p := d]
    {
      hide TableOK, ProtOK, Links, Entries;
      EntriesElsewhere(entries, blocks, past, mem, prot.os, maxDbSize, p, blocks[p := d]);
      LinksUpdate(blocks, p, d);
      blocks := blocks[p := d];
    }

    /** A block without translated code: only the way out. */
    method CreateEmptyBlock(p: Ptr, mapped: bool) returns (ok: bool)
      requires Valid() && p in blocks && !RegisteredAs(p)
      modifies this`blocks
      ensures ok <==> mapped
      ensures Valid() &&
          blocks == if ok then old(blocks)[p := old(blocks[p]).(done := false, code := EmptyBlock)] else old(blocks)
    {
      if !mapped {
        return false;
      }
      SetBlock(p, blocks[p].(done := false, code := EmptyBlock));
      return true;
    }

    /** Block p is the only record that changed, and no entry leads to it. */
    twostate predicate OnlyFills(p: Ptr, addr: int)
      reads this`blocks
    {
      && p in blocks && blocks == old(blocks)[p := blocks[p]]
      && blocks[p].x86Addr == addr && !blocks[p].gone && blocks[p].previous == NULL
    }

    /** A filled block, at the last check: it may be entered directly unless it is dirty, which it
        is when it is to be tested always or its pages are not guarded any more. */
    ghost predicate FilledOK(d: Dynablock, addr: int, w: Passes, hashed: Memory)
      reads this`mem, prot
    {
      && Shaped(d, addr, w) && !d.done
      && (d.code == Translated ==>
            && prot.page > 0 && (d.dirty || Current(d, mem, prot.os)) && HashedThen(d, hashed, w.late, Now())
            && (d.dirty <==> d.alwaysTest || !TrackedPages(prot.memprot, prot.page, addr, d.x86Size)))
    }

    /** The first pass: the first page is protected, and others may write meanwhile. */
    method FirstPass(addr: nat, early: Writing) returns (ghost g1: Guest)
      requires Valid() && addr < SPACE && InSpace(early)
      modifies this`mem, table.jmptbl, table.Leaves(), this`entries, this`blocks, prot
      ensures Valid() && fresh(table.Leaves() - old(table.Leaves())) && blocks == old(blocks)
      ensures MarkedOnly(old(entries), entries)
      ensures prot.page > 0 && Shielded(old(Now()), g1, PageDown(addr, prot.page), PageUp(addr + 1, prot.page))
      ensures Wrote(g1, early, Now(), prot.page)
    {
      hide Valid, MarkedOnly, Wrote, Shielded, PageUp, PageDown, TrackedPages;
      ProtectDB(addr, 1);
      g1 := Now();
      Writes(early);
    }

    /** Translates the guest code at addr into block p. Whatever other threads write meanwhile,
        a block that is not to be checked first is current when it is filled; and whether it is
        depends on the state before and on these stores alone. `hashed` is what was hashed. */
    method FillBlock(p: Ptr, addr: nat, w: Passes) returns (r: Outcome, ghost hashed: Memory)
      requires Valid() && p in blocks && w.OK(addr) && entries[addr] == ArmNext && blocks[p] == NewBlock(addr)
      modifies this`mem, table.jmptbl, table.Leaves(), this`entries, this`blocks, prot
      ensures Valid() && fresh(table.Leaves() - old(table.Leaves())) && MarkedOnly(old(entries), entries)
      ensures OnlyFills(p, addr)
      ensures r == Filled ==> FilledOK(blocks[p], addr, w, hashed)
      ensures r == Filled && w.Translates() ==>
                prot.page > 0 && FilledFrom(blocks[p], addr, w, old(Now()), hashed, Now(), prot.page)
      ensures prot.page > 0 && r == Ends(old(Now()), Now(), prot.page, addr, w)
      ensures w.Undisturbed() ==> r == w.Result()
      // what it takes: memory for the code, and for code that is translated four passes that go on
      ensures r == if !w.forbidden && w.fault then Faulted
                   else if w.mapped && (w.forbidden || (w.stop > 0 && (w.empty ||
                     (w.stop > 3 && w.agree && Succeeds(old(Now()), Now(), prot.page, addr, w))))) then Filled
                   else NotFilled
    {
      hide Valid, MarkedOnly, Current, X31, DropBit, Tracked, TrackedPages, Wrote, Shielded, FilledFrom, GuardsLast;
      hide StillOpen, Succeeds;
      hide PageDown, PageUp, NeverCleaned, Pages, Pagewise, HashedThen;
      hashed := mem;
      ghost var e0 := entries;
      ProtIsOK();
      MarkedNone(e0);
      if w.forbidden {
        Unregistered(p);
        var ok := CreateEmptyBlock(p, w.mapped);
        r := if ok then Filled else NotFilled;
        return;
      }
      ghost var g0 := Now();
      ghost var g1 := FirstPass(addr, w.early);
      MarkedKeeps(e0, entries, addr);
      if w.fault {
        return Faulted, hashed;
      }
      if w.stop == 0 {
        return NotFilled, hashed;
      }
      if w.empty {
        Unregistered(p);
        var ok := CreateEmptyBlock(p, w.mapped);
        r := if ok then Filled else NotFilled;
        return;
      }
      r, hashed := AfterFirstPass(p, addr, w, e0, g0, g1);
      if w.Undisturbed() { EndsUndisturbed(g0, Now(), prot.page, addr, w); }
    }

    /** What follows the first pass, when that finds code: g0 is the state before it, g1 that
        with the first page protected. */
    method AfterFirstPass(p: Ptr, addr: nat, w: Passes, ghost e0: Flat, ghost g0: Guest, ghost g1: Guest)
      returns (r: Outcome, ghost hashed: Memory)
      requires Valid() && p in blocks && addr in entries && entries[addr] == ArmNext && w.OK(addr)
      requires blocks[p] == NewBlock(addr) && w.Translates() && MarkedOnly(e0, entries)
      requires Pages(g0.memprot, g0.os) && prot.page > 0
      requires Shielded(g0, g1, PageDown(addr, prot.page), PageUp(addr + 1, prot.page))
      requires Wrote(g1, w.early, Now(), prot.page)
      modifies this`mem, table.jmptbl, table.Leaves(), this`entries, this`blocks, prot
      ensures Valid() && fresh(table.Leaves() - old(table.Leaves())) && MarkedOnly(e0, entries)
      ensures OnlyFills(p, addr)
      ensures r == Filled ==> FilledOK(blocks[p], addr, w, hashed)
      ensures r == Filled ==> prot.page > 0 && FilledFrom(blocks[p], addr, w, g0, hashed, Now(), prot.page)
      ensures prot.page > 0
      ensures r == if w.stop > 3 && w.mapped && w.agree && Succeeds(g0, Now(), prot.page, addr, w) then Filled
                   else NotFilled
    {
      hide Valid, MarkedOnly, Current, X31, DropBit, Tracked, TrackedPages, Wrote, Shielded, FilledFrom, GuardsLast;
      hide StillOpen;
      hide PageDown, PageUp, NeverCleaned, Pages, Pagewise, HashedThen, Passed, BytesAt, PagesHit;
      hashed := mem;
      ProtIsOK();
      ghost var g2, first := Now(), mem;
      ShieldTracks(g0, g1, addr, 1, prot.page);
      WroteTracked(g1, w.early, g2, prot.page, addr, 1);
      var guarded := IsProtectedDB(addr, 1);
      if !guarded {
        return NotFilled, hashed;
      }
      r, hashed, first := Translate(p, addr, w, e0);
      if w.stop > 3 && w.mapped { TwoHashes(g0, g1, g2, addr, w, first, hashed); }
      if r == Filled {
        ProtIsOK();
        FilledStory(g0, g1, g2, Now(), blocks[p], addr, w, hashed, prot.page);
      }
    }

    /** What was hashed, in terms of the state before the first pass. */
    lemma TwoHashes(g0: Guest, g1: Guest, g2: Guest, addr: int, w: Passes, first: Memory, hashed: Memory)
      requires prot.page > 0 && addr <= w.end && Wrote(g1, w.early, g2, prot.page)
      requires Shielded(g0, g1, PageDown(addr, prot.page), PageUp(addr + 1, prot.page))
      requires forall x :: first(x) == Passed(g2, Now(), w.checked, w.guarded, x)
      requires forall x :: hashed(x) == Passed(g2, Now(), w.checked, w.guarded + w.middle, x)
      ensures Succeeds(g0, Now(), prot.page, addr, w) <==>
              !PagesHit(w.early, prot.page, addr, addr + 1) &&
                X31(first, addr, w.end - addr) == X31(hashed, addr, w.end - addr)
    {
      hide X31, Passed, BytesAt, Wrote, Shielded, PagesHit, PageDown, PageUp;
      var g, page, size := Now(), prot.page, w.end - addr;
      EarlyPassed(g0, g1, g2, g, w, page, addr, w.guarded);
      EarlyPassed(g0, g1, g2, g, w, page, addr, w.guarded + w.middle);
      X31Same(first, Bytes(g0, g, page, addr, w, w.guarded), addr, size);
      X31Same(hashed, Bytes(g0, g, page, addr, w, w.guarded + w.middle), addr, size);
    }

    /** Protects the other pages, if the test finds that there are any; others may write before
        and after. */
    method Secure(addr: nat, w: Passes) returns (ghost g3: Guest, ghost g4: Guest)
      requires Valid() && w.OK(addr)
      modifies this`mem, table.jmptbl, table.Leaves(), this`entries, this`blocks, prot
      ensures Valid() && fresh(table.Leaves() - old(table.Leaves())) && blocks == old(blocks)
      ensures MarkedOnly(old(entries), entries)
      ensures prot.page > 0 && Wrote(old(Now()), w.checked, g3, prot.page) && Wrote(g4, w.guarded, Now(), prot.page)
      ensures if DropBit(addr, prot.page) == DropBit(w.end, prot.page) then g4 == g3
              else Shielded(g3, g4, PageDown(addr, prot.page), PageUp(w.end, prot.page))
    {
      hide Valid, MarkedOnly, Wrote, Shielded, PageUp, PageDown, TrackedPages, DropBit;
      PageIsPositive();
      ghost var e0 := entries;
      Writes(w.checked);
      ghost var e1 := entries;
      g3 := Now();
      if DropBit(addr, prot.page) != DropBit(w.end, prot.page) {
        ProtectDB(addr, w.end - addr);
      }
      g4 := Now();
      Writes(w.guarded);
      MarkedTrans(e0, e1, entries);
    }

    /** The passes after the first, and the last checks. */
    method Translate(p: Ptr, addr: nat, w: Passes, ghost e0: Flat)
      returns (r: Outcome, ghost hashed: Memory, ghost first: Memory)
      requires Valid() && p in blocks && addr in entries && entries[addr] == ArmNext && w.OK(addr)
      requires blocks[p] == NewBlock(addr) && w.Translates() && MarkedOnly(e0, entries)
      modifies this`mem, table.jmptbl, table.Leaves(), this`entries, this`blocks, prot
      ensures Valid() && fresh(table.Leaves() - old(table.Leaves())) && MarkedOnly(e0, entries)
      ensures OnlyFills(p, addr) && prot.page > 0
      ensures r == Filled ==> FilledOK(blocks[p], addr, w, hashed)
      ensures r == Filled ==> (blocks[p].alwaysTest <==> w.alwaysTest || NeverCleaned(prot.memprot, addr))
      ensures r == Filled ==> StillOpen(old(Now()), Now())
      ensures w.stop > 3 && w.mapped ==>
                && (forall x :: first(x) == Passed(old(Now()), Now(), w.checked, w.guarded, x))
                && (forall x :: hashed(x) == Passed(old(Now()), Now(), w.checked, w.guarded + w.middle, x))
      ensures r == Filled ==> (TrackedPages(prot.memprot, prot.page, addr, w.end - addr) <==>
                               GuardsLast(old(prot.memprot), w, prot.page, addr))
      ensures r == if w.stop > 3 && w.mapped && w.agree &&
                      X31(first, addr, w.end - addr) == X31(hashed, addr, w.end - addr) then Filled else NotFilled
    {
      hide Valid, MarkedOnly, Current, X31, DropBit, Tracked, TrackedPages, Wrote, Shielded, GuardsLast, StillOpen;
      hide FilledOK, Passed, SameOpen;
      hide PageDown, PageUp, NeverCleaned, PagesHit;
      hashed, first := mem, mem;
      ghost var e2, g2, page := entries, Now(), prot.page;
      ghost var g3, g4 := Secure(addr, w);
      ghost var e5, g5 := entries, Now();
      MarkedTrans(e0, e2, e5);
      MarkedKeeps(e2, e5, addr);
      first := mem;
      var hash := X31HashCode(mem, addr, w.end - addr);
      Writes(w.middle);
      ghost var g6 := Now();
      MarkedTrans(e0, e5, entries);
      MarkedKeeps(e5, entries, addr);
      if w.stop <= 3 || !w.mapped {
        return NotFilled, hashed, first;
      }
      LastGuards(g2, g3, g4, g5, g6, w, page, addr);
      LastOpens(g2, g3, g4, g5, g6, w, page, PageDown(addr, page), PageUp(w.end, page));
      PassedOn(g2, g3, g4, g5, g6, w, page, PageDown(addr, page), PageUp(w.end, page));
      r, hashed := Finish(p, addr, w, hash, e0);
      SameStill(g6, Now());
      StillOpenTrans(g2, g6, Now());
      PassedSame(g2, g6, Now(), w.checked, w.guarded);
      PassedSame(g2, g6, Now(), w.checked, w.guarded + w.middle);
    }

    static lemma SameStill(g0: Guest, g: Guest)
      requires SameOpen(g0, g)
      ensures StillOpen(g0, g)
    {
      hide Open;
    }

    method Finish(p: Ptr, addr: nat, w: Passes, hash: int, ghost e0: Flat) returns (r: Outcome, ghost hashed: Memory)
      requires Valid() && p in blocks && addr in entries && entries[addr] == ArmNext && w.OK(addr)
      requires blocks[p] == NewBlock(addr) && w.Translates() && MarkedOnly(e0, entries)
      modifies this`mem, table.jmptbl, table.Leaves(), this`entries, this`blocks, prot
      ensures Valid() && fresh(table.Leaves() - old(table.Leaves())) && MarkedOnly(e0, entries)
      ensures OnlyFills(p, addr) && prot.page > 0 && hashed == old(mem)
      ensures r == Filled ==> FilledOK(blocks[p], addr, w, hashed)
      ensures r == Filled ==> (blocks[p].alwaysTest <==> w.alwaysTest || NeverCleaned(prot.memprot, addr))
      ensures SameOpen(old(Now()), Now())
      ensures r == Filled ==> (TrackedPages(prot.memprot, prot.page, addr, w.end - addr) <==>
                TrackedPages(old(prot.memprot), prot.page, addr, w.end - addr) &&
                  !PagesHit(w.late, prot.page, addr, w.end))
      ensures r == if X31(hashed, addr, w.end - addr) != hash || !w.agree then NotFilled else Filled
    {
      hide Valid, MarkedOnly, Current, X31, Tracked, TrackedPages, PagesHit, FilledOK, NeverCleaned, Open;
      hashed := mem;
      PageIsPositive();
      var size := w.end - addr;
      var h := X31HashCode(mem, addr, size);
      var d := Dynablock(addr, size, h, Translated, false, false, w.alwaysTest, w.alwaysTest, NULL);
      Unregistered(p);
      SetBlock(p, d);
      if h != hash || !w.agree {
        return NotFilled, hashed;
      }
      CheckAgain(p, addr, w, d, e0);
      return Filled, hashed;
    }

    /** The last checks: whether the pages are still guarded, and may be at all. */
    method CheckAgain(p: Ptr, addr: nat, w: Passes, d0: Dynablock, ghost e0: Flat)
      requires Valid() && p in blocks && addr in entries && entries[addr] == ArmNext && w.OK(addr)
      requires blocks[p] == d0 && Shaped(d0, addr, w) && !d0.done && d0.hash == X31(mem, addr, d0.x86Size)
      requires w.Translates() && d0.alwaysTest == d0.dirty == w.alwaysTest && MarkedOnly(e0, entries)
      modifies this`mem, table.jmptbl, table.Leaves(), this`entries, this`blocks, prot
      ensures Valid() && fresh(table.Leaves() - old(table.Leaves())) && MarkedOnly(e0, entries)
      ensures OnlyFills(p, addr) && prot.page > 0
      ensures FilledOK(blocks[p], addr, w, old(mem))
      ensures blocks[p].alwaysTest <==> w.alwaysTest || NeverCleaned(prot.memprot, addr)
      ensures SameOpen(old(Now()), Now())
      ensures TrackedPages(prot.memprot, prot.page, addr, w.end - addr) <==>
              TrackedPages(old(prot.memprot), prot.page, addr, w.end - addr) &&
                !PagesHit(w.late, prot.page, addr, w.end)
    {
      hide Valid, MarkedOnly, Wrote, X31, Tracked, TrackedPages, NeverCleaned, Current, PagesHit, HashedThen, StillOpen;
      hide SameOpen;
      var d, size := d0, d0.x86Size;
      ghost var e1, g6 := entries, Now();
      Writes(w.late);
      MarkedTrans(e0, e1, entries);
      MarkedKeeps(e1, entries, addr);
      WroteTracked(g6, w.late, Now(), prot.page, addr, size);
      WroteOpens(g6, w.late, Now(), prot.page);
      var guarded := IsProtectedDB(addr, size);
      HashedNow(d0, g6, w.late, Now(), prot.page);
      if guarded {
        StillAsHashed(d0, g6, w.late);
      } else {
        d := d.(dirty := true);
      }
      var neverClean := NeverCleanAt(addr);
      if neverClean {
        d := d.(dirty := true, alwaysTest := true);
      }
      HashedAnyway(d0, d, g6.mem, w.late);
      Unregistered(p);
      SetBlock(p, d);
    }

    /** On pages that are still guarded after stores the bytes are what they were. */
    lemma StillAsHashed(d: Dynablock, g0: Guest, ws: Writing)
      requires Valid() && prot.page > 0 && Wrote(g0, ws, Now(), prot.page) && d.x86Size > 0
      requires X31(g0.mem, d.x86Addr, d.x86Size) == d.hash
      requires TrackedPages(prot.memprot, prot.page, d.x86Addr, d.x86Size)
      ensures Current(d, mem, prot.os)
    {
      hide Valid, X31, Wrote, Tracked, Pages, TrackedPages, Current;
      ProtIsOK();
      forall x | d.x86Addr <= x < d.x86Addr + d.x86Size ensures Tracked(prot.memprot, x) && mem(x) == g0.mem(x) {
        TrackedBytes(prot.memprot, prot.page, d.x86Addr, d.x86Size, x);
        TrackedKept(g0, ws, Now(), prot.page, x);
      }
      GuardedIsCurrent(d, g0.mem, Now());
    }

    /** getProtection(addr) & PROT_NEVERCLEAN. */
    method NeverCleanAt(addr: nat) returns (b: bool)
      requires Valid() && addr < SPACE
      ensures b <==> NeverCleaned(prot.memprot, addr)
    {
      ProtIsOK();
      var v, _ := R.GetEnd(prot.memprot, addr);
      b := v != R.None && v.value.neverClean;
    }

    /** Whether a block is current does not depend on its flags. */
    lemma HashedAnyway(d: Dynablock, e: Dynablock, hashed: Memory, ws: Writing)
      requires e == d.(dirty := e.dirty, alwaysTest := e.alwaysTest)
      ensures Current(d, mem, prot.os) <==> Current(e, mem, prot.os)
      ensures HashedThen(d, hashed, ws, Now()) <==> HashedThen(e, hashed, ws, Now())
    {
      hide X31, AppliedAt;
    }

    lemma Unregistered(p: Ptr)
      requires p in blocks && blocks[p].x86Addr in entries && entries[blocks[p].x86Addr] == ArmNext
      ensures !RegisteredAs(p)
    {}

    /** A new record, at an address that the allocator says is free. */
    method AddNewDynablock(at: Ptr, addr: nat)
      requires Valid() && at != NULL && at !in blocks && addr in entries && entries[addr] == ArmNext
      modifies this`blocks
      ensures Valid() && blocks == old(blocks)[at := NewBlock(addr)]
    {
      hide TableOK, ProtOK, Links, Entries;
      EntriesNew(entries, blocks, past, mem, prot.os, maxDbSize, at, NewBlock(addr));
      LinksNew(blocks, at, NewBlock(addr));
      blocks := blocks[at := NewBlock(addr)];
    }

    /** Gives up a block that was never registered. */
    method Discard(p: Ptr)
      requires Valid() && p in blocks && !blocks[p].gone && !RegisteredAs(p)
      modifies this`blocks
      ensures Valid() && blocks == old(blocks) - {p}
    {
      hide TableOK, ProtOK, Links, Entries;
      EntriesElsewhere(entries, blocks, past, mem, prot.os, maxDbSize, p, blocks - {p});
      LinksWithout(blocks, p);
      Release(p);
    }

    /** What is noted of block p when it gets its entry. */
    static ghost function Noted(tainted: set<Ptr>, p: Ptr, direct: bool, current: bool): set<Ptr> {
      if !direct then tainted else if current then tainted - {p} else tainted + {p}
    }

    /** Notes whether a store has slipped by block p, which no entry leads to directly. */
    ghost method NoteTaint(p: Ptr)
      requires Valid() && p in blocks && (blocks[p].x86Addr in entries ==> entries[blocks[p].x86Addr] != Direct(p))
      modifies this`past
      ensures Valid()
      ensures past == old(past).(tainted := Noted(old(past.tainted), p, true, Current(blocks[p], mem, prot.os)))
    {
      hide TableOK, ProtOK, Links, Entries, Current;
      ghost var now := past.(tainted := Noted(past.tainted, p, true, Current(blocks[p], mem, prot.os)));
      EntriesTaint(entries, blocks, past, mem, prot.os, maxDbSize, p, now);
      past := now;
    }

    /** Notes what the translation of block p, which no entry leads to, began with. */
    ghost method NoteRead(p: Ptr, m0: Memory)
      requires Valid() && p in blocks && (blocks[p].x86Addr in entries ==> entries[blocks[p].x86Addr] == ArmNext)
      modifies this`past
      ensures Valid() && AsRead(p, blocks[p], past)
      ensures past == Past(old(past.tainted), Misread(old(past.misread), p, blocks[p], m0), old(past.read)[p := m0])
    {
      hide TableOK, ProtOK, Links, Entries, X31;
      ghost var now := Past(past.tainted, Misread(past.misread, p, blocks[p], m0), past.read[p := m0]);
      EntriesRead(entries, blocks, past, mem, prot.os, maxDbSize, p, now);
      past := now;
    }

    /** Which blocks have another hash than the bytes that their translation began with. */
    static ghost function Misread(misread: set<Ptr>, p: Ptr, d: Dynablock, m0: Memory): set<Ptr> {
      if d.code == Translated && X31(m0, d.x86Addr, d.x86Size) != d.hash then misread + {p} else misread - {p}
    }

    /** What is noted when block p is registered, m0 being the bytes that its translation began with. */
    static ghost function Registered(was: Past, p: Ptr, d: Dynablock, m0: Memory, direct: bool, current: bool): Past {
      Past(Noted(was.tainted, p, direct, current), Misread(was.misread, p, d, m0), was.read[p := m0])
    }

    /** Enters a filled block in the jump table: its code, or its check when it is dirty. */
    method Register(p: Ptr, addr: nat, ghost w: Passes, ghost m0: Memory)
      requires Valid() && p in blocks && addr < SPACE && entries[addr] == ArmNext && Shaped(blocks[p], addr, w)
      requires !blocks[p].done && (blocks[p].alwaysTest ==> blocks[p].dirty)
      modifies table.jmptbl, table.Leaves(), this`entries, this`blocks, this`maxDbSize, this`past
      ensures Valid() && fresh(table.Leaves() - old(table.Leaves()))
      ensures p in blocks && blocks == old(blocks)[p := old(blocks[p]).(done := old(blocks[p].x86Size) > 0)]
      ensures entries == old(entries)[addr := if blocks[p].dirty then JmpNext(p) else BlockOf(p)]
      ensures past == Registered(old(past), p, blocks[p], m0, entries[addr] == Direct(p),
          Current(blocks[p], mem, prot.os))
      ensures maxDbSize == if old(blocks[p].x86Size) > old(maxDbSize) then old(blocks[p].x86Size) else old(maxDbSize)
    {
      hide TableOK, ProtOK, Links, Entries, Current;
      var d := blocks[p];
      var blocksz := d.x86Size;
      ghost var max0 := maxDbSize;
      if blocksz > maxDbSize {
        maxDbSize := blocksz;
      }
      EntriesMax(entries, blocks, past, mem, prot.os, max0, maxDbSize);
      var t := if d.dirty then JmpNext(p) else BlockOf(p);
      NoteRead(p, m0);
      if t == Direct(p) {
        NoteTaint(p);
      }
      EntriesAdd(entries, blocks, past, mem, prot.os, maxDbSize, addr, t);
      var ok := SetJumpTableIfRef(addr, t, ArmNext);
      // the entry was free, so nobody else was faster
      assert ok;
      if d.x86Size > 0 {
        DoneAnyway(d);
        SetDone(p, true);
      }
    }

    /** Whether a block is current does not depend on its flags. */
    lemma DoneAnyway(d: Dynablock)
      ensures Current(d.(done := true), mem, prot.os) <==> Current(d, mem, prot.os)
    {}

    /** Changes the done flag of a block. */
    method SetDone(p: Ptr, done: bool)
      requires Valid() && p in blocks && (done ==> blocks[p].code == Translated && blocks[p].x86Size > 0)
      modifies this`blocks
      ensures Valid() && blocks == old(blocks)[p := old(blocks[p]).(done := done)]
    {
      hide TableOK, ProtOK, Links, Entries;
      EntriesTouch(entries, blocks, past, mem, prot.os, maxDbSize, p, blocks[p].(done := done));
      LinksUpdate(blocks, p, blocks[p].(done := done));
      blocks := blocks[p := blocks[p].(done := done)];
    }

    /** A block that was made: what it covers, which bytes its hash is that of, what the stores
        behind the hash made of them, and how its flags depend on the state g0 at the call. */
    ghost predicate MadeOK(d: Dynablock, addr: int, w: Passes, g0: Guest, hashed: Memory)
      reads this`mem, prot
    {
      && Shaped(d.(previous := NULL), addr, w) && d.done == (d.x86Size > 0)
      && (d.code == Translated ==>
            && HashedThen(d, hashed, w.late + w.after, Now())
            && prot.page > 0 && FilledFrom(d, addr, w, g0, hashed, Now(), prot.page))
    }

    /** A block that was made for direct entry is current unless a store on one of its pages was
        done after the last check; then it is noted as tainted. */
    ghost predicate MadeTaint(d: Dynablock, at: Ptr, w: Passes, p0: Past, m0: Memory)
      reads this`mem, this`past, prot
    {
      var direct := d.code == Translated && !d.dirty;
      && past == Registered(p0, at, d, m0, direct, Current(d, mem, prot.os))
      && (direct ==>
            && prot.page > 0
            && (Current(d, mem, prot.os) <==> !Touches(w.after, Now(), prot.page, d.x86Addr, d.x86Addr + d.x86Size)))
    }

    /** What making a block at addr leaves: nothing, or one new registered block, as it was
        filled; undisturbed, that depends on nothing but the passes. */
    ghost predicate Made(e0: Flat, b0: Blocks, p0: Past, g0: Guest, addr: int, at: Ptr, r: Ptr, w: Passes,
                         hashed: Memory)
      reads this, prot
    {
      && prot.page > 0 && addr <= w.end
      && r == (if Ends(g0, Now(), prot.page, addr, w) == Filled then at else NULL)
      && (w.Undisturbed() ==> r == if w.Result() == Filled then at else NULL)
      && if r == NULL then blocks == b0 && MarkedOnly(e0, entries) && past == p0
         else
           && at in blocks && blocks == b0[at := blocks[at]] && blocks[at].previous == NULL
           && MadeOK(blocks[at], addr, w, g0, hashed) && MadeTaint(blocks[at], at, w, p0, g0.mem)
           && addr in entries && entries[addr] == (if blocks[at].dirty then JmpNext(at) else BlockOf(at))
           && MarkedOnly(e0, entries[addr := ArmNext])
    }

    /** The part of internalDBGetBlock that makes a block. */
    method MakeBlock(addr: nat, at: Ptr, w: Passes) returns (r: Ptr, ghost hashed: Memory)
      requires Valid() && w.OK(addr) && entries[addr] == ArmNext && at != NULL && at !in blocks
      modifies this, table.jmptbl, table.Leaves(), prot
      ensures Valid() && fresh(table.Leaves() - old(table.Leaves()))
      ensures Made(old(entries), old(blocks), old(past), old(Now()), addr, at, r, w, hashed)
    {
      hide Valid, MarkedOnly, Current, X31, FilledFrom, HashedThen, FilledOK, MadeOK, MadeTaint, Ends;
      ghost var e0, b0, g0 := entries, blocks, Now();
      NullIsNoBlock();
      AddNewDynablock(at, addr);
      assert Now() == g0;
      var ret;
      ret, hashed := FillBlock(at, addr, w);
      MarkedKeeps(e0, entries, addr);
      if ret == Filled {
        RegisterMade(at, addr, e0, b0, g0, w, hashed);
        return at, hashed;
      }
      GiveUp(at, ret, b0);
      return NULL, hashed;
    }

    /** Takes a block that was not filled away again. */
    method GiveUp(at: Ptr, ret: Outcome, ghost b0: Blocks)
      requires Valid() && at in blocks && !blocks[at].gone && blocks[at].previous == NULL && ret != Filled
      requires blocks == b0[at := blocks[at]] && at !in b0 && at != NULL && NULL !in b0
      requires 0 <= blocks[at].x86Addr < JumpTable.TOP && entries[blocks[at].x86Addr] == ArmNext
      modifies table.Leaves(), this`entries, this`blocks
      ensures Valid() && blocks == b0 && entries == old(entries) && table.Leaves() == old(table.Leaves())
    {
      hide Valid;
      ghost var e0, addr := entries, blocks[at].x86Addr;
      Unregistered(at);
      if ret == Faulted {
        FreeDynablock(at);
        assert entries == e0[addr := ArmNext] == e0;
      } else {
        Discard(at);
      }
    }

    /** Registers a filled block; others may write after the last check. */
    method RegisterMade(at: Ptr, addr: nat, ghost e0: Flat, ghost b0: Blocks, ghost g0: Guest, w: Passes,
                        ghost hashed: Memory)
      requires Valid() && w.OK(addr) && at in blocks && at != NULL && entries[addr] == ArmNext
      requires FilledOK(blocks[at], addr, w, hashed) && prot.page > 0 && Ends(g0, Now(), prot.page, addr, w) == Filled
      requires w.Translates() ==> prot.page > 0 && FilledFrom(blocks[at], addr, w, g0, hashed, Now(), prot.page)
      requires blocks == b0[at := blocks[at]] && addr in e0 && MarkedOnly(e0, entries)
      modifies this`mem, table.jmptbl, table.Leaves(), this`entries, this`blocks, this`maxDbSize, this`past, prot
      ensures Valid() && fresh(table.Leaves() - old(table.Leaves()))
      ensures Made(e0, b0, old(past), g0, addr, at, at, w, hashed)
    {
      hide Valid, MarkedOnly, Current, X31, FilledFrom, HashedThen, Touches, Ends, Registered, TrackedPages;
      EndsUndisturbedToo(g0, Now(), prot.page, addr, w);
      AfterLastCheck(at, addr, e0, g0, w, hashed);
      ghost var e2 := entries;
      Register(at, addr, w, g0.mem);
      assert entries[addr := ArmNext] == e2;
    }

    /** Others write between the last check of a filled block and its registration. */
    method AfterLastCheck(at: Ptr, addr: nat, ghost e0: Flat, ghost g0: Guest, w: Passes, ghost hashed: Memory)
      requires Valid() && w.OK(addr) && at in blocks && entries[addr] == ArmNext
      requires FilledOK(blocks[at], addr, w, hashed) && addr in e0 && MarkedOnly(e0, entries) && prot.page > 0
      requires w.Translates() ==> prot.page > 0 && FilledFrom(blocks[at], addr, w, g0, hashed, Now(), prot.page)
      modifies this`mem, table.jmptbl, table.Leaves(), this`entries, this`blocks, prot
      ensures Valid() && fresh(table.Leaves() - old(table.Leaves())) && blocks == old(blocks)
      ensures MarkedOnly(e0, entries) && entries[addr] == ArmNext && prot.page > 0
      ensures Ends(g0, Now(), prot.page, addr, w) == old(Ends(g0, Now(), prot.page, addr, w))
      ensures var d := blocks[at];
              d.code == Translated ==>
                && HashedThen(d.(done := true), hashed, w.late + w.after, Now())
                && FilledFrom(d.(done := true), addr, w, g0, hashed, Now(), prot.page)
                && (!d.dirty ==> (Current(d.(done := true), mem, prot.os) <==>
                                  !Touches(w.after, Now(), prot.page, addr, addr + d.x86Size)))
    {
      hide Valid, MarkedOnly, Current, X31, FilledFrom, HashedThen, Wrote, StillOpen, SameOpen, Touches, Pages;
      hide Pagewise, Ends, BytesAt;
      ghost var e1, d, g1 := entries, blocks[at], Now();
      ProtIsOK();
      Writes(w.after);
      MarkedTrans(e0, e1, entries);
      MarkedKeeps(e1, entries, addr);
      WroteOpens(g1, w.after, Now(), prot.page);
      BytesSame(g0, g1, Now(), prot.page, addr, w);
      if d.code == Translated { LateFacts(d, addr, w, g0, g1, hashed); }
    }

    /** What stores after the last check leave of what is known of a filled block. */
    lemma LateFacts(d: Dynablock, addr: nat, w: Passes, g0: Guest, g1: Guest, hashed: Memory)
      requires prot.page > 0 && d.code == Translated && d.x86Size > 0 && d.x86Addr == addr && addr <= w.end
      requires Wrote(g1, w.after, Now(), prot.page) && HashedThen(d, hashed, w.late, g1)
      requires FilledFrom(d, addr, w, g0, hashed, g1, prot.page) && Pagewise(g1.memprot, g1.os, prot.page)
      requires d.dirty || Current(d, g1.mem, g1.os)
      ensures HashedThen(d.(done := true), hashed, w.late + w.after, Now())
      ensures FilledFrom(d.(done := true), addr, w, g0, hashed, Now(), prot.page)
      ensures !d.dirty ==> (Current(d.(done := true), mem, prot.os) <==>
                            !Touches(w.after, Now(), prot.page, addr, addr + d.x86Size))
    {
      hide X31, Wrote, Pagewise, Touches, Open, PageDown, PageUp, DirtyWhen, NeverCleaned, AppliedAt, BytesAt, Ends;
      HashedMore(d, hashed, w.late, g1, w.after, Now(), prot.page);
      WroteOpens(g1, w.after, Now(), prot.page);
      BytesSame(g0, g1, Now(), prot.page, addr, w);
      OpenedLater(g0, g1, Now(), PageDown(addr, prot.page), PageUp(addr + 1, prot.page));
      if !d.dirty {
        CurrentAfter(d, g1, w.after, Now(), prot.page);
        TouchesSame(w.after, g1, Now(), prot.page, addr, addr + d.x86Size, w.after);
      }
    }

    lemma NullIsNoBlock()
      requires Valid()
      ensures NULL !in blocks
    {}

    /** The block at addr, made when there is none. `alternate` and `busy` stand for what the
        source asks about the address and the lock. */
    method InternalDBGetBlock(addr: nat, create: bool, alternate: bool, busy: bool, at: Ptr, w: Passes)
      returns (r: Ptr, ghost hashed: Memory)
      requires Valid() && w.OK(addr) && at != NULL && at !in blocks
      modifies this, table.jmptbl, table.Leaves(), prot
      ensures Valid() && fresh(table.Leaves() - old(table.Leaves()))
      ensures if !alternate && old(entries[addr]) == ArmNext && create && !busy
              then Made(old(entries), old(blocks), old(past), old(Now()), addr, at, r, w, hashed)
              else && r == (if alternate || old(entries[addr]) == ArmNext then NULL else old(entries[addr].db))
                   && blocks == old(blocks) && entries == old(entries) && past == old(past) && Now() == old(Now())
    {
      hide Valid, MarkedOnly, X31, Made;
      hashed := mem;
      if alternate {
        return NULL, hashed;
      }
      TableIsOK();
      EntryIsCoded(addr);
      NullIsNoBlock();
      r := GetDB(addr);
      if r != NULL || !create {
        return;
      }
      if busy {
        return NULL, hashed;
      }
      r, hashed := MakeBlock(addr, at, w);
    }


    // ---- Looking a block up to run it

    /** Whether block d may be entered directly again after others wrote while its pages were
        protected. */
    ghost predicate Redirects(d: Dynablock, win: Windows)
      reads prot
    {
      prot.page > 0 && !d.alwaysTest && !PagesHit(win.guarded, prot.page, d.x86Addr, d.x86Addr + d.x86Size)
    }

    /** What validating block p leaves, g0 being the state when it began: the block is
        entered directly again unless it is to be tested always or a store came while its pages
        were protected; and it is current then, unless a store slipped by. */
    ghost predicate Validated(e0: Flat, p0: Past, g0: Guest, p: Ptr, d: Dynablock, win: Windows)
      reads this`entries, this`past, this`mem, prot
    {
      var lo, hi, direct := d.x86Addr, d.x86Addr + d.x86Size, Redirects(d, win);
      && lo in entries && entries[lo] == (if direct then Direct(p) else JmpNext(p))
      && MarkedOnly(e0, entries[lo := JmpNext(p)])
      && past == p0.(tainted := Noted(p0.tainted, p, direct, Current(d, mem, prot.os)))
      && (direct ==> (Current(d, mem, prot.os) <==>
                      !Touches(win.checked, Now(), prot.page, lo, hi) && X31(g0.mem, lo, d.x86Size) == d.hash))
      && (direct ==> forall x | lo <= x < hi :: mem(x) == AppliedAt(Now().(mem := g0.mem), win.checked, x))
      && (Misses(win.guarded, lo, hi) && Misses(win.checked, lo, hi) ==> forall x | lo <= x < hi :: mem(x) == g0.mem(x))
      && StillOpen(g0, Now())
      && (win.Empty() ==> entries == e0[lo := entries[lo]])
    }

    /** Checks block p, which its entry says is to be checked and whose bytes hashed as they
        should: it may be entered directly again, unless it is to be tested always. */
    method Validate(p: Ptr, addr: nat, win: Windows)
      requires Valid() && p in blocks && addr in entries && entries[addr] == JmpNext(p) && blocks[p].done && win.OK()
      modifies this`mem, table.jmptbl, table.Leaves(), this`entries, this`blocks, this`past, prot
      ensures Valid() && fresh(table.Leaves() - old(table.Leaves())) && blocks == old(blocks)
      ensures Validated(old(entries), old(past), old(Now()), p, blocks[p], win)
    {
      hide Valid, MarkedOnly, X31, TrackedPages, Current, Touches, Misses, PagesHit, StillOpen, AppliedAt;
      EntryIsSized(addr);
      var d := blocks[p];
      ghost var e0, g0 := entries, Now();
      var ok := Reguard(d, win.guarded);
      ghost var e2, g2 := entries, Now();
      MarkedStays(e0, e2, addr, p);
      if ok && !d.alwaysTest {
        EnterAgain(p, addr, win.checked);
        X31Same(g2.mem, g0.mem, addr, d.x86Size);
        SameApplied(g2.mem, g0.mem, win.checked, addr, addr + d.x86Size);
        MarkedTrans(e0, e2, entries[addr := JmpNext(p)]);
        StillOpenTrans(g0, g2, Now());
      }
    }

    /** Protects the pages of block d again and looks whether they are; others may write between. */
    method Reguard(d: Dynablock, guarded: Writing) returns (ok: bool)
      requires Valid() && 0 <= d.x86Addr && d.x86Size > 0 && d.x86Addr + d.x86Size <= SPACE && InSpace(guarded)
      modifies this`mem, table.jmptbl, table.Leaves(), this`entries, this`blocks, prot
      ensures Valid() && fresh(table.Leaves() - old(table.Leaves())) && blocks == old(blocks)
      ensures MarkedOnly(old(entries), entries)
      ensures prot.page > 0 && (ok <==> !PagesHit(guarded, prot.page, d.x86Addr, d.x86Addr + d.x86Size))
      ensures StillOpen(old(Now()), Now())
      ensures ok ==> forall x | d.x86Addr <= x < d.x86Addr + d.x86Size :: mem(x) == old(mem)(x) && !prot.os(x).write
      ensures Misses(guarded, d.x86Addr, d.x86Addr + d.x86Size) ==>
                forall x | d.x86Addr <= x < d.x86Addr + d.x86Size :: mem(x) == old(mem)(x)
      ensures guarded == [] ==> entries == old(entries)
    {
      hide Valid, MarkedOnly, X31, TrackedPages, Wrote, Shielded, Misses, PagesHit, PageUp, PageDown, StillOpen;
      ghost var g0 := Now();
      ProtectDB(d.x86Addr, d.x86Size);
      ghost var g1 := Now();
      ShieldOpens(g0, g1, PageDown(d.x86Addr, prot.page), PageUp(d.x86Addr + d.x86Size, prot.page));
      Writes(guarded);
      StillOpenTrans(g0, g1, Now());
      WroteTracked(g1, guarded, Now(), prot.page, d.x86Addr, d.x86Size);
      UnmissedBytes(g1, guarded, Now(), prot.page, d.x86Addr, d.x86Addr + d.x86Size);
      ProtIsOK();
      ok := IsProtectedDB(d.x86Addr, d.x86Size);
      if ok { GuardedBytes(d, g1, guarded, Now()); }
    }

    /** Lets block p, whose bytes cannot be written, be entered directly again; others may write
        before that is done. */
    method EnterAgain(p: Ptr, addr: nat, checked: Writing)
      requires Valid() && p in blocks && addr in entries && entries[addr] == JmpNext(p) && blocks[p].done
      requires InSpace(checked) && !blocks[p].alwaysTest
      requires forall x | addr <= x < addr + blocks[p].x86Size :: !prot.os(x).write
      modifies this`mem, table.jmptbl, table.Leaves(), this`entries, this`blocks, this`past, prot
      ensures Valid() && fresh(table.Leaves() - old(table.Leaves())) && blocks == old(blocks)
      ensures addr in entries && entries[addr] == Direct(p) && MarkedOnly(old(entries), entries[addr := JmpNext(p)])
      ensures past == old(past).(tainted := Noted(old(past.tainted), p, true, Current(blocks[p], mem, prot.os)))
      ensures prot.page > 0
      ensures var hi := addr + blocks[p].x86Size;
              && (Current(blocks[p], mem, prot.os) <==>
                   !Touches(checked, Now(), prot.page, addr, hi) &&
                     X31(old(mem), addr, blocks[p].x86Size) == blocks[p].hash)
              && (Misses(checked, addr, hi) ==> forall x | addr <= x < hi :: mem(x) == old(mem)(x))
      ensures forall x :: mem(x) == AppliedAt(Now().(mem := old(mem)), checked, x)
      ensures checked == [] ==> entries == old(entries)[addr := Direct(p)]
      ensures StillOpen(old(Now()), Now())
    {
      hide Valid, MarkedOnly, X31, Current, Wrote, Touches, Misses, StillOpen;
      EntryIsSized(addr);
      ProtIsOK();
      ghost var e2, g2, d := entries, Now(), blocks[p];
      Writes(checked);
      ghost var e3 := entries;
      MarkedStays(e2, e3, addr, p);
      UnmissedBytes(g2, checked, Now(), prot.page, addr, addr + d.x86Size);
      CurrentAfter(d, g2, checked, Now(), prot.page);
      TouchesSame(checked, g2, Now(), prot.page, addr, addr + d.x86Size, checked);
      WroteOver(g2, checked, Now(), prot.page);
      Redirect(p, addr);
      assert entries[addr := JmpNext(p)] == e3[addr := JmpNext(p)];
    }

    /** The bytes that stores leave, the state after them saying which are done. */
    static lemma WroteOver(g0: Guest, ws: Writing, g: Guest, page: int)
      requires page > 0 && Wrote(g0, ws, g, page)
      ensures forall x :: g.mem(x) == AppliedAt(g.(mem := g0.mem), ws, x)
    {
      hide Open, LastStore;
      forall x ensures g.mem(x) == AppliedAt(g.(mem := g0.mem), ws, x) {
        assert WroteAt(g0, ws, g, page, x);
        OpenBytes(g, g0.mem, x);
      }
    }

    /** What stores make of a range depends on no other bytes. */
    lemma SameApplied(m0: Memory, m: Memory, ws: Writing, lo: int, hi: int)
      requires forall x | lo <= x < hi :: m0(x) == m(x)
      ensures forall x | lo <= x < hi :: AppliedAt(Now().(mem := m0), ws, x) == AppliedAt(Now().(mem := m), ws, x)
    {
      hide Open, LastStore;
      forall x | lo <= x < hi ensures AppliedAt(Now().(mem := m0), ws, x) == AppliedAt(Now().(mem := m), ws, x) {
        OpenBytes(Now(), m0, x);
        OpenBytes(Now(), m, x);
      }
    }

    static lemma MarkedStays(e0: Flat, e: Flat, a: int, p: Ptr)
      requires MarkedOnly(e0, e) && a in e0 && e0[a] == JmpNext(p)
      ensures a in e && e[a] == JmpNext(p) && e0[a := JmpNext(p)] == e0 && e[a := JmpNext(p)] == e
    {}

    /** Stores elsewhere leave bytes as they were. */
    static lemma UnmissedBytes(g0: Guest, ws: Writing, g: Guest, page: int, lo: int, hi: int)
      requires page > 0 && Wrote(g0, ws, g, page)
      ensures Stores.Misses(ws, lo, hi) ==> forall x | lo <= x < hi :: g.mem(x) == g0.mem(x)
    {
      if Stores.Misses(ws, lo, hi) {
        MissedUnchanged(g0, ws, lo, hi);
        forall x | lo <= x < hi ensures g.mem(x) == g0.mem(x) {
          assert WroteAt(g0, ws, g, page, x) && !Changed(g0, ws, x);
        }
      }
    }

    /** On pages that are still guarded after stores the bytes are what they were, and cannot be
        written. */
    lemma GuardedBytes(d: Dynablock, g0: Guest, ws: Writing, g: Guest)
      requires prot.page > 0 && Wrote(g0, ws, g, prot.page) && Pages(g.memprot, g.os)
      requires TrackedPages(g.memprot, prot.page, d.x86Addr, d.x86Size)
      ensures forall x | d.x86Addr <= x < d.x86Addr + d.x86Size :: g.mem(x) == g0.mem(x) && !g.os(x).write
    {
      hide X31, Wrote, TrackedPages;
      forall x | d.x86Addr <= x < d.x86Addr + d.x86Size ensures !g.os(x).write && g.mem(x) == g0.mem(x) {
        TrackedBytes(g.memprot, prot.page, d.x86Addr, d.x86Size, x);
        TrackedKept(g0, ws, g, prot.page, x);
        assert Guarded(R.At(g.memprot, x), g.os(x));
      }
    }

    lemma EntryIsSized(a: int)
      requires Valid() && a in entries && entries[a] != ArmNext
      ensures var p := entries[a].db;
              && p in blocks && blocks[p].x86Addr == a && !blocks[p].gone && 0 <= a && a + blocks[p].x86Size <= SPACE
              && blocks[p].code != NoCode && (blocks[p].done ==> blocks[p].code == Translated && blocks[p].x86Size > 0)
              && AsRead(p, blocks[p], past)
              && (entries[a].Direct? ==>
                && blocks[p].code == Translated && !blocks[p].alwaysTest
                && (p in past.tainted || Current(blocks[p], mem, prot.os)))
    {
      assert EntryOK(a, entries[a], blocks, past, mem, prot.os, maxDbSize);
    }

    method Redirect(p: Ptr, addr: nat)
      requires Valid() && p in blocks && addr in entries && entries[addr] == JmpNext(p) && blocks[p].done
      requires !blocks[p].alwaysTest
      modifies table.jmptbl, table.Leaves(), this`entries, this`past
      ensures Valid() && fresh(table.Leaves() - old(table.Leaves()))
      ensures entries == old(entries)[addr := Direct(p)]
      ensures past == old(past).(tainted := Noted(old(past.tainted), p, true, Current(blocks[p], mem, prot.os)))
    {
      hide TableOK, ProtOK, Links, Entries, Current;
      EntryIsSized(addr);
      EntryAt(addr);
      NoteTaint(p);
      EntryAt(addr);
      EntriesAdd(entries, blocks, past, mem, prot.os, maxDbSize, addr, Direct(p));
      var _ := SetJumpTableIfRef(addr, BlockOf(p), JmpNext(p));
    }

    /** The block r keeps the invalid block p for a later release. */
    method Keep(r: Ptr, p: Ptr)
      requires Valid() && r in blocks && p in blocks && blocks[p].gone && Unlinked(blocks, p) && r in blocks
      requires p != NULL
      requires blocks[r].previous == NULL && (blocks[r].done ==> blocks[r].code == Translated && blocks[r].x86Size > 0)
      modifies this`blocks
      ensures Valid() && blocks == old(blocks)[r := old(blocks[r]).(previous := p)]
    {
      hide TableOK, ProtOK, Links, Entries, Unlinked;
      FreeInvalidDynablock(blocks[r].previous);
      EntriesTouch(entries, blocks, past, mem, prot.os, maxDbSize, r, blocks[r].(previous := p));
      LinksKeep(blocks, r, p);
      blocks := blocks[r := blocks[r].(previous := p)];
    }

    /** Releases an invalid block that nothing keeps. */
    method Drop(p: Ptr)
      requires Valid() && p in blocks && blocks[p].gone && Unlinked(blocks, p) && p != NULL
      modifies this`blocks
      ensures Valid() && blocks == old(blocks) - {p}
    {
      hide TableOK, ProtOK, Links, Entries, Unlinked;
      GoneIsUnregistered(p);
      EntriesElsewhere(entries, blocks, past, mem, prot.os, maxDbSize, p, blocks - {p});
      LinksDrop(blocks, p);
      FreeInvalidDynablock(p);
    }

    lemma GoneIsUnregistered(p: Ptr)
      requires Valid() && p in blocks && blocks[p].gone
      ensures blocks[p].x86Addr in entries ==>
          entries[blocks[p].x86Addr] == ArmNext || entries[blocks[p].x86Addr].db != p
    {
      var a := blocks[p].x86Addr;
      if a in entries { assert EntryOK(a, entries[a], blocks, past, mem, prot.os, maxDbSize); }
    }

    /** The guest code of block p has changed: p is invalid and another one is made. */
    method Remake(p: Ptr, addr: nat, create: bool, alternate: bool, busy: bool, at: Ptr, w: Passes)
      returns (r: Ptr, ghost hashed: Memory)
      requires Valid() && w.OK(addr) && at != NULL && at !in blocks
      requires p in blocks && p != NULL && entries[addr] != ArmNext && entries[addr].db == p
      modifies this, table.jmptbl, table.Leaves(), prot
      ensures Valid() && fresh(table.Leaves() - old(table.Leaves()))
      ensures blocks.Keys == if r == NULL then old(blocks.Keys) - {p} else old(blocks.Keys) + {at}
      ensures r == NULL ==> past == old(past)
      ensures r != NULL ==>
          r == at && entries[addr] != ArmNext && entries[addr].db == r && Replaced(old(blocks), p, r, blocks)
      ensures r == NULL ==> blocks == old(blocks) - {p}
      ensures r != NULL ==>
          MadeOK(blocks[r], addr, w, old(Now()), hashed) && MadeTaint(blocks[r], r, w, old(past), old(mem))
      ensures r != NULL ==> entries[addr] == if blocks[r].dirty then JmpNext(r) else BlockOf(r)
      ensures create && !alternate && !busy && w.Undisturbed() && w.Result() == Filled ==> r == at
      ensures !create || alternate || busy ==> r == NULL
    {
      hide Valid, MarkedOnly, X31, Links, Unlinked, MadeOK, MadeTaint, Current, Ends;
      ghost var g0, p0, b0 := Now(), past, blocks;
      EntryIsSized(addr);
      Retire(p, addr);
      ghost var b1 := blocks;
      r, hashed := InternalDBGetBlock(addr, create, alternate, busy, at, w);
      StillUnlinked(b1, blocks, at, p, r);
      if r != NULL {
        KeepOld(r, p, addr, w, g0, hashed, p0);
      } else {
        Drop(p);
        assert blocks == b0 - {p};
      }
    }

    /** The new block r keeps the one that it replaces. */
    method KeepOld(r: Ptr, p: Ptr, addr: nat, ghost w: Passes, ghost g0: Guest, ghost hashed: Memory,
                   ghost p0: Past)
      requires Valid() && r in blocks && p in blocks && blocks[p].gone && Unlinked(blocks, p) && p != NULL
      requires blocks[r].previous == NULL && MadeOK(blocks[r], addr, w, g0, hashed)
      requires MadeTaint(blocks[r], r, w, p0, g0.mem)
      modifies this`blocks
      ensures Valid() && blocks == old(blocks)[r := old(blocks[r]).(previous := p)] && !blocks[r].gone
      ensures MadeOK(blocks[r], addr, w, g0, hashed) && MadeTaint(blocks[r], r, w, p0, g0.mem)
    {
      hide Valid, Unlinked, MadeOK, MadeTaint;
      MadeIsSized(blocks[r], addr, w, g0, hashed);
      KeptAsMade(blocks[r], r, addr, w, g0, hashed, p0, p);
      Keep(r, p);
    }

    /** What is known of a new block does not depend on which block it keeps. */
    lemma KeptAsMade(d: Dynablock, at: Ptr, addr: int, w: Passes, g0: Guest, hashed: Memory, p0: Past, p: Ptr)
      requires MadeOK(d, addr, w, g0, hashed) && MadeTaint(d, at, w, p0, g0.mem)
      ensures MadeOK(d.(previous := p), addr, w, g0, hashed) && MadeTaint(d.(previous := p), at, w, p0, g0.mem)
    {
      hide X31, FilledFrom, Touches, AppliedAt;
      assert Current(d, mem, prot.os) <==> Current(d.(previous := p), mem, prot.os);
      if d.code == Translated { FilledAnyway(d, d.(previous := p), addr, w, g0, hashed); }
    }

    lemma FilledAnyway(d: Dynablock, e: Dynablock, addr: int, w: Passes, g0: Guest, hashed: Memory)
      requires prot.page > 0 && FilledFrom(d, addr, w, g0, hashed, Now(), prot.page)
      requires e.alwaysTest == d.alwaysTest && e.dirty == d.dirty
      ensures FilledFrom(e, addr, w, g0, hashed, Now(), prot.page)
    {
      hide DirtyWhen, Opened;
    }

    lemma MadeIsSized(d: Dynablock, addr: int, w: Passes, g0: Guest, hashed: Memory)
      requires MadeOK(d, addr, w, g0, hashed)
      ensures d.x86Addr == addr && !d.gone && (d.done ==> d.code == Translated && d.x86Size > 0)
      ensures d.code == Translated ==> d.x86Size == w.end - addr
    {}

    /** Block p, registered at addr, is not done any more, unregistered and gone. */
    method Retire(p: Ptr, addr: nat)
      requires Valid() && p in blocks && p != NULL && addr < SPACE && entries[addr] != ArmNext && entries[addr].db == p
      modifies table.Leaves(), this`entries, this`blocks
      ensures Valid() && table.Leaves() == old(table.Leaves()) && blocks == Gone(old(blocks), p) && Unlinked(blocks, p)
      ensures entries == old(entries)[addr := ArmNext]
    {
      hide Valid, Links, Unlinked, Current;
      EntryIsSized(addr);
      ghost var b0 := blocks;
      SetDone(p, false);
      UnlinkedNow(p);
      var _ := InvalidDynablock(p);
      assert blocks == Gone(b0, p);
    }

    lemma UnlinkedNow(p: Ptr)
      requires Valid() && p in blocks && !blocks[p].gone
      ensures Unlinked(Gone(blocks, p), p)
    {
      UnlinkedAfter(blocks, p);
    }

    static lemma StillUnlinked(b: Blocks, now: Blocks, at: Ptr, p: Ptr, r: Ptr)
      requires Unlinked(b, p) && p != NULL
      requires if r == NULL then now == b else at in now && now == b[at := now[at]] && now[at].previous == NULL
      ensures Unlinked(now, p)
    {}

    /** The answer for an address that has a block, g0 being the state at the call: that block, as
        it was, if it is entered directly or is not done; that block, validated, if its bytes hash
        as they should; and otherwise another one, the old one being gone. */
    ghost predicate Answered(e0: Flat, b0: Blocks, p0: Past, g0: Guest, addr: int, r: Ptr, create: bool,
                             win: Windows, at2: Ptr, w2: Passes, hashed: Memory)
      reads this, prot
    {
      addr in e0 && e0[addr] != ArmNext && e0[addr].db in b0 &&
      var p, d := e0[addr].db, b0[e0[addr].db];
      if e0[addr].Direct? || !d.done then
        r == p && blocks == b0 && entries == e0 && past == p0 && Now() == g0
      else if X31(g0.mem, addr, d.x86Size) == d.hash then
        r == p && blocks == b0 && d.x86Addr == addr && Validated(e0, p0, g0.(mem := Applied(g0, win.hashed)), p, d, win)
      else
        && r != p && (if r == NULL then blocks == b0 - {p} else Replaced(b0, p, r, blocks))
        && (create && !win.busy && w2.Undisturbed() && w2.Result() == Filled ==> r == at2)
        && (r != NULL && win.hashed == [] ==> r == at2 && r in blocks && MadeOK(blocks[r], addr, w2, g0, hashed))
    }


    /** The part of DBGetBlock that checks the block p found at addr. */
    method CheckBlock(p: Ptr, addr: nat, create: bool, alternate: bool, win: Windows, at2: Ptr, w2: Passes)
      returns (r: Ptr, ghost hashed: Memory)
      requires Valid() && w2.OK(addr) && win.OK() && at2 != NULL && at2 !in blocks
      requires p in blocks && p != NULL && entries[addr] != ArmNext && entries[addr].db == p
      modifies this, table.jmptbl, table.Leaves(), prot
      ensures Valid() && fresh(table.Leaves() - old(table.Leaves()))
      ensures blocks.Keys <= old(blocks.Keys) + {at2}
      ensures r != NULL ==> r in blocks && entries[addr] != ArmNext && entries[addr].db == r && (r == p || r == at2)
      ensures !alternate ==>
                Answered(old(entries), old(blocks), old(past), old(Now()), addr, r, create, win, at2, w2, hashed)
      ensures r == p ==> Fresh(addr, win)
      ensures r != NULL && r != p ==> MadeAs(addr, w2, hashed)
      ensures NewPast(old(past), addr, w2, win)
      ensures LookupKeeps(old(blocks), blocks)
      ensures old(blocks[p].done && X31(mem, addr, blocks[p].x86Size) != blocks[p].hash) || r == p
    {
      hide Valid, MarkedOnly, X31, Current, Validated, MadeOK, MadeTaint, Fresh, MadeAs, NewPast, Applied, Wrote;
      hide StillOpen;
      hide LookupKeeps, Replaced;
      ghost var e0, p0, g0, b0 := entries, past, Now(), blocks;
      LookupNothing(b0);
      LinksHold();
      r, hashed := p, mem;
      EntryIsSized(addr);
      NullIsNoBlock();
      NothingTainted(p0, addr, w2, win);
      var test := false;
      if blocks[r].done && blocks[r].code != NoCode {
        test := GetNeedTest(addr);
      }
      if test {
        var d := blocks[r];
        var hash := X31HashCode(mem, d.x86Addr, d.x86Size);
        Writes(win.hashed);
        ghost var e1, g1 := entries, Now();
        MarkedStays(e0, e1, addr, p);
        ApplyWrites(g0, win.hashed, g1, prot.page);
        if hash != d.hash {
          r, hashed := Remake(r, addr, create, alternate, win.busy, at2, w2);
          RemadeFacts(r, addr, w2, win, g1, hashed, p0);
          RemadeKeeps(b0, blocks, p, r);
        } else {
          Validate(r, addr, win);
          ValidatedFrom(e0, e1, p0, g0, g1, p, d, win);
          ValidatedFresh(e1, p0, g1, p, addr, w2, win, g0);
        }
      } else {
        AsItWas(addr, win);
      }
    }

    /** What the look-up promises of a block that it returns and did not make again: if it is done
        its hash is that of the guest's bytes now, unless a store slipped by. */
    ghost predicate Fresh(addr: int, win: Windows)
      reads this, prot
    {
      addr in entries && entries[addr] != ArmNext && entries[addr].db in blocks &&
      var r, d := entries[addr].db, blocks[entries[addr].db];
      d.done && (if entries[addr].Direct? then r !in past.tainted else win.Misses(addr, addr + d.x86Size)) ==>
        d.code == Translated && X31(mem, addr, d.x86Size) == d.hash
    }

    /** What it promises of one that it made again: what the stores behind its hash mean. */
    ghost predicate MadeAs(addr: int, w: Passes, hashed: Memory)
      reads this, prot
    {
      addr in entries && entries[addr] != ArmNext && entries[addr].db in blocks &&
      var d, ws := blocks[entries[addr].db], w.late + w.after;
      d.done ==>
        && d.code == Translated && d.x86Size == w.end - addr
        && (ChangesNone(Now().(mem := hashed), ws, addr, w.end) ==> X31(mem, addr, d.x86Size) == d.hash)
        && (ChangesOne(Now().(mem := hashed), ws, addr, w.end) ==> X31(mem, addr, d.x86Size) != d.hash)
    }

    /** No block becomes tainted unless a store comes in one of the windows; and none is misread
        unless a store comes to its bytes between the begin of the first pass and the last hash. */
    ghost predicate NewPast(p0: Past, addr: int, w: Passes, win: Windows)
      reads this`past, prot
    {
      && prot.page > 0
      && (win.hashed == [] && win.checked == [] && !PagesHit(w.after, prot.page, addr, w.end) ==>
            past.tainted <= p0.tainted)
      && (Misses(w.Before(), addr, w.end) ==> past.misread <= p0.misread)
    }

    lemma NothingTainted(p0: Past, addr: int, w: Passes, win: Windows)
      requires Valid() && past == p0
      ensures NewPast(p0, addr, w, win)
    {
      PageIsPositive();
    }

    /** Stores leave the guest's bytes as they are applied. */
    static lemma ApplyWrites(g0: Guest, ws: Writing, g: Guest, page: int)
      requires page > 0 && Wrote(g0, ws, g, page)
      ensures forall x :: g.mem(x) == Applied(g0, ws)(x)
    {
      hide AppliedAt;
      forall x ensures g.mem(x) == Applied(g0, ws)(x) { assert WroteAt(g0, ws, g, page, x); }
    }

    lemma RemadeFacts(r: Ptr, addr: nat, w: Passes, win: Windows, g1: Guest, hashed: Memory, p0: Past)
      requires Valid() && addr < SPACE && prot.page > 0
      requires r == NULL ==> past == p0
      requires r != NULL ==> r in blocks && entries[addr] != ArmNext && entries[addr].db == r
      requires r != NULL ==> MadeOK(blocks[r], addr, w, g1, hashed) && MadeTaint(blocks[r], r, w, p0, g1.mem)
      ensures NewPast(p0, addr, w, win)
      ensures r != NULL ==> MadeAs(addr, w, hashed)
    {
      hide Valid, X31, FilledFrom, ChangesNone, ChangesOne, PageDown, PageUp, Open;
      if r != NULL {
        var d := blocks[r];
        MadeIsSized(d, addr, w, g1, hashed);
        if d.code == Translated {
          HashAfterwards(d, hashed, w.late + w.after, Now());
          if Misses(w.Before(), addr, w.end) { ReadKept(d, addr, w, g1, hashed); }
        }
      }
    }

    lemma ValidatedFrom(e0: Flat, e1: Flat, p0: Past, g0: Guest, g1: Guest, p: Ptr, d: Dynablock, win: Windows)
      requires MarkedOnly(e0, e1) && (win.Empty() ==> e1 == e0) && StillOpen(g0, g1)
      requires forall x :: g1.mem(x) == Applied(g0, win.hashed)(x)
      requires Validated(e1, p0, g1, p, d, win)
      ensures Validated(e0, p0, g0.(mem := Applied(g0, win.hashed)), p, d, win)
    {
      hide X31, Touches, Current, MarkedOnly, Applied, PagesHit, Misses, Open, AppliedAt;
      forall x ensures Open(g0.(mem := Applied(g0, win.hashed)), x) <==> Open(g0, x) {
        OpenBytes(g0, Applied(g0, win.hashed), x);
      }
      MarkedTrans(e0, e1, entries[d.x86Addr := JmpNext(p)]);
      X31Same(g1.mem, Applied(g0, win.hashed), d.x86Addr, d.x86Size);
      SameApplied(g1.mem, Applied(g0, win.hashed), win.checked, d.x86Addr, d.x86Addr + d.x86Size);
    }

    lemma ValidatedFresh(e1: Flat, p0: Past, g1: Guest, p: Ptr, addr: nat, w: Passes, win: Windows, g0: Guest)
      requires Valid() && prot.page > 0 && p in blocks && blocks[p].x86Addr == addr && blocks[p].done
      requires blocks[p].code == Translated && X31(g0.mem, addr, blocks[p].x86Size) == blocks[p].hash
      requires forall x :: g1.mem(x) == Applied(g0, win.hashed)(x)
      requires Validated(e1, p0, g1, p, blocks[p], win)
      ensures addr in entries && entries[addr] != ArmNext && entries[addr].db == p
      ensures Fresh(addr, win) && NewPast(p0, addr, w, win)
    {
      hide Valid, X31, Touches, MarkedOnly, PagesHit, Applied;
      var d := blocks[p];
      if win.Misses(addr, addr + d.x86Size) {
        MissedUnchanged(g0, win.hashed, addr, addr + d.x86Size);
        forall x | addr <= x < addr + d.x86Size ensures mem(x) == g0.mem(x) {
          assert g1.mem(x) == Applied(g0, win.hashed)(x) && !Changed(g0, win.hashed, x);
          AppliedIs(g0, win.hashed, x);
        }
        X31Same(mem, g0.mem, addr, d.x86Size);
      }
      if win.hashed == [] && win.checked == [] {
        forall x ensures g1.mem(x) == g0.mem(x) { AppliedIs(g0, win.hashed, x); }
        X31Same(g1.mem, g0.mem, addr, d.x86Size);
        NoTouch(win.checked, Now(), prot.page, addr, addr + d.x86Size);
      }
    }

    static lemma AppliedIs(g: Guest, ws: Writing, x: int)
      ensures Applied(g, ws)(x) == AppliedAt(g, ws, x)
      ensures ws == [] ==> Applied(g, ws)(x) == g.mem(x)
    {}

    static lemma NoTouch(ws: Writing, g: Guest, page: int, lo: int, hi: int)
      requires page > 0 && ws == []
      ensures !Touches(ws, g, page, lo, hi)
    {}

    /** A block that is entered directly, or is not done, is returned as it was. */
    lemma AsItWas(addr: nat, win: Windows)
      requires Valid() && addr < SPACE && entries[addr] != ArmNext
      requires blocks[entries[addr].db].done ==> entries[addr].Direct?
      ensures Fresh(addr, win)
    {
      hide Valid, X31;
      EntryIsSized(addr);
    }

    /** Looks up the block to run at addr. One whose entry leads to the check is checked first:
        validated, or replaced when the guest code has changed. A block that is returned done
        is registered, and its hash is that of the guest bytes now, except where a store slipped
        by in one of the windows. */
    method DBGetBlock(addr: nat, create: bool, alternate: bool, busy: bool, at1: Ptr, w1: Passes,
                      win: Windows, at2: Ptr, w2: Passes)
      returns (r: Ptr, ghost hashed: Memory)
      requires Valid() && w1.OK(addr) && w2.OK(addr) && win.OK()
      requires at1 != NULL && at2 != NULL && at1 !in blocks && at2 !in blocks && at1 != at2
      modifies this, table.jmptbl, table.Leaves(), prot
      ensures Valid() && fresh(table.Leaves() - old(table.Leaves()))
      ensures blocks.Keys <= old(blocks.Keys) + {at1, at2}
      ensures r != NULL ==> r in blocks && entries[addr] != ArmNext && entries[addr].db == r
      ensures r != NULL ==> if r == at2 then MadeAs(addr, w2, hashed) else Fresh(addr, win)
      ensures LookupKeeps(old(blocks), blocks)
      ensures alternate ==> r == NULL && entries == old(entries) && blocks == old(blocks)
      ensures !alternate && old(entries[addr]) != ArmNext ==>
                Answered(old(entries), old(blocks), old(past), old(Now()), addr, r, create, win, at2, w2, hashed)
      ensures !alternate && old(entries[addr]) == ArmNext && (!create || busy) ==>
                r == NULL && entries == old(entries) && blocks == old(blocks)
      ensures (!alternate && old(entries[addr]) == ArmNext && create && !busy && w1.Undisturbed() &&
               Misses(w1.late + w1.after, addr, w1.end)) ==> r == if w1.Result() == Filled then at1 else NULL
      ensures prot.page > 0
      ensures (win.hashed == [] && win.checked == [] && !PagesHit(w1.after, prot.page, addr, w1.end) &&
               !PagesHit(w2.after, prot.page, addr, w2.end)) ==> past.tainted <= old(past.tainted)
      ensures Misses(w1.Before(), addr, w1.end) && Misses(w2.Before(), addr, w2.end) ==>
                past.misread <= old(past.misread)
    {
      hide Valid, MarkedOnly, X31, Current, Answered, Fresh, MadeAs, NewPast, PagesHit, Misses, MadeOK, MadeTaint;
      hide LookupKeeps, Ends;
      ghost var b0 := blocks;
      LookupNothing(b0);
      EntryIsCoded(addr);
      NullIsNoBlock();
      PageIsPositive();
      ghost var p0, g0, hashed1 := past, Now(), mem;
      r, hashed1 := InternalDBGetBlock(addr, create, alternate, busy, at1, w1);
      hashed := hashed1;
      ghost var p1 := past;
      if r == NULL {
        NothingTainted(p0, addr, w2, win);
        return;
      }
      if r == at1 { MadeFirst(at1, addr, w1, g0, hashed1, p0); }
      ghost var b1, made := blocks, r == at1;
      r, hashed := CheckBlock(r, addr, create, alternate, win, at2, w2);
      if made { MadeThenKeeps(b0, at1, b1, blocks); }
      NewPastMeans(p1, addr, w2, win);
    }

    lemma MadeFirst(at: Ptr, addr: nat, w: Passes, g0: Guest, hashed: Memory, p0: Past)
      requires Valid() && at in blocks && MadeOK(blocks[at], addr, w, g0, hashed)
      requires MadeTaint(blocks[at], at, w, p0, g0.mem)
      ensures prot.page > 0 && (!PagesHit(w.after, prot.page, addr, w.end) ==> past.tainted <= p0.tainted)
      ensures Misses(w.Before(), addr, w.end) ==> past.misread <= p0.misread
      ensures !blocks[at].gone
      ensures blocks[at].done && Misses(w.late + w.after, addr, w.end) ==>
                X31(mem, addr, blocks[at].x86Size) == blocks[at].hash
    {
      hide Valid, X31, FilledFrom, ChangesNone, ChangesOne, PageDown, PageUp, Open, Misses, AppliedAt;
      var d := blocks[at];
      PageIsPositive();
      MadeIsSized(d, addr, w, g0, hashed);
      if d.code == Translated {
        HashAfterwards(d, hashed, w.late + w.after, Now());
        if Misses(w.Before(), addr, w.end) { ReadKept(d, addr, w, g0, hashed); }
        if Misses(w.late + w.after, addr, w.end) {
          MissedUnchanged(Now().(mem := hashed), w.late + w.after, addr, w.end);
        }
      }
    }

    static lemma LookupNothing(b: Blocks)
      ensures LookupKeeps(b, b)
    {}

    lemma NewPastMeans(p1: Past, addr: int, w: Passes, win: Windows)
      requires NewPast(p1, addr, w, win)
      ensures prot.page > 0
      ensures win.hashed == [] && win.checked == [] && !PagesHit(w.after, prot.page, addr, w.end) ==>
                past.tainted <= p1.tainted
      ensures Misses(w.Before(), addr, w.end) ==> past.misread <= p1.misread
    {}

    /** The hash of a block is that of the bytes that its first pass began with, if no store came to
        these up to the last hash. */
    lemma ReadKept(d: Dynablock, addr: int, w: Passes, g0: Guest, hashed: Memory)
      requires MadeOK(d, addr, w, g0, hashed) && d.code == Translated && Misses(w.Before(), addr, w.end)
      ensures X31(g0.mem, d.x86Addr, d.x86Size) == d.hash
    {
      hide X31, BytesAt, DirtyWhen, AppliedAt, Opened;
      forall x | addr <= x < w.end ensures hashed(x) == g0.mem(x) {
        BytesMissed(g0, Now(), prot.page, addr, w, x);
      }
      X31Same(hashed, g0.mem, addr, d.x86Size);
    }

    /** A block that is entered directly and that no store slipped by: all its pages are
        write-protected, and its bytes hash to what was recorded when it was translated; unless it
        was misread, that is the hash of the bytes that its translation began with. */
    lemma NoStaleCode(a: int)
      requires Valid() && a in entries && entries[a].Direct? && entries[a].db !in past.tainted
      ensures var p := entries[a].db;
              && p in blocks && blocks[p].x86Addr == a && blocks[p].x86Size > 0 && !blocks[p].alwaysTest &&
                prot.page > 0
              && X31(mem, a, blocks[p].x86Size) == blocks[p].hash
              && (p !in past.misread ==> p in past.read && X31(past.read[p], a, blocks[p].x86Size) == blocks[p].hash)
              && forall x | PageDown(a, prot.page) <= x < PageUp(a + blocks[p].x86Size, prot.page) :: !prot.os(x).write
    {
      hide X31, R.Rem, Pages;
      EntryIsSized(a);
      ProtIsOK();
      var d := blocks[entries[a].db];
      forall x | PageDown(a, prot.page) <= x < PageUp(a + d.x86Size, prot.page) ensures !prot.os(x).write {
        var y := PageShared(a, d.x86Size, x, prot.page);
      }
    }

    /** What a step does to the blocks that wait for their release: a store or a release of pages
        leaves all blocks as they are; a look-up loses none exactly when a block that it takes away
        kept none, and a destruction when no block that it takes away keeps one that keeps another. */
    static ghost predicate StepKeeps(step: Step, b: Blocks, now: Blocks) {
      match step
      case Lookup(_, _, _, _, _, _, _, _, _) => LookupKeeps(b, now)
      case Destroy(_, _) => DestroyKeeps(b, now)
      case _ => now == b
    }

    static ghost predicate StepSpares(step: Step, b: Blocks, now: Blocks) {
      && (step.Lookup? ==> SparedByLookup(b, now))
      && (step.Destroy? ==> SparedByDestroy(b, now))
    }

    /** One step of a run. */
    method Take(step: Step)
      requires Valid() && step.OK()
      modifies this, table.jmptbl, table.Leaves(), prot
      ensures Valid() && fresh(table.Leaves() - old(table.Leaves()))
      ensures StepKeeps(step, old(blocks), blocks)
      ensures prot.page > 0
      ensures step.Noticed(prot.page) ==>
                past.tainted <= old(past.tainted) && past.misread <= old(past.misread)
    {
      hide LookupKeeps, DestroyKeeps, Destroyed;
      hide Valid, Current, Cleaned, Within, MarkedOnly, UnprotectedTo, Wrote, PagesHit, Answered, Fresh, MadeAs, Misses;
      PageIsPositive();
      match step {
        case Write(a, v) =>
          var _ := GuestWrite(a, v);
        case Lookup(addr, create, alternate, busy, at1, w1, win, at2, w2) =>
          LookupNothing(blocks);
          if at1 !in blocks && at2 !in blocks {
            var _, _ := DBGetBlock(addr, create, alternate, busy, at1, w1, win, at2, w2);
          }
        case Unprotect(addr, size) =>
          UnprotectDB(addr, size);
        case Destroy(addr, size) =>
          var _ := CleanDBFromAddressRange(addr, size, true);
      }
    }

    /** Over a run that begins with every gone block reachable: they all stay so at every moment
        exactly when every step spares them. */
    static lemma RunKeeps(steps: seq<Step>, trace: seq<Blocks>)
      requires |trace| == |steps| + 1 && NoneLost(trace[0])
      requires forall i | 0 <= i < |steps| :: StepKeeps(steps[i], trace[i], trace[i + 1])
      ensures (forall i | 0 <= i <= |steps| :: NoneLost(trace[i])) <==>
              forall i | 0 <= i < |steps| :: StepSpares(steps[i], trace[i], trace[i + 1])
    {
      hide NoneLost, SparedByLookup, SparedByDestroy;
      if forall i | 0 <= i < |steps| :: StepSpares(steps[i], trace[i], trace[i + 1]) {
        var i := 0;
        while i < |steps|
          invariant 0 <= i <= |steps| && forall j | 0 <= j <= i :: NoneLost(trace[j])
        {
          assert StepKeeps(steps[i], trace[i], trace[i + 1]) && StepSpares(steps[i], trace[i], trace[i + 1]);
          i := i + 1;
        }
      }
      if forall i | 0 <= i <= |steps| :: NoneLost(trace[i]) {
        forall i | 0 <= i < |steps| ensures StepSpares(steps[i], trace[i], trace[i + 1]) {
          assert StepKeeps(steps[i], trace[i], trace[i + 1]) && NoneLost(trace[i]) && NoneLost(trace[i + 1]);
        }
      }
    }

    /** Any sequence of guest stores, look-ups, releases and destructions. A look-up needs two
        addresses for records that are free. What is entered directly is not to be tested always, and
        is current, except for blocks that a store slipped by; it has the hash of what its
        translation began with, except for those that were misread; and there are no more of these
        if the look-ups have no store that is not noticed. `trace` holds the blocks before every
        step and at the end, and every step says which gone blocks it loses. */
    method Run(steps: seq<Step>) returns (ghost trace: seq<Blocks>)
      requires Valid() && forall i | 0 <= i < |steps| :: steps[i].OK()
      modifies this, table.jmptbl, table.Leaves(), prot
      ensures Valid() && fresh(table.Leaves() - old(table.Leaves()))
      ensures forall a | a in entries && entries[a] != ArmNext ::
                var p := entries[a].db;
                && p in blocks && !blocks[p].gone && blocks[p].x86Addr == a
                && (entries[a].Direct? && p !in past.tainted ==> Current(blocks[p], mem, prot.os))
                && (entries[a].Direct? ==> !blocks[p].alwaysTest) && AsRead(p, blocks[p], past)
      ensures prot.page > 0
      ensures (forall i | 0 <= i < |steps| :: steps[i].Noticed(prot.page)) ==>
          past.tainted <= old(past.tainted) && past.misread <= old(past.misread)
      ensures |trace| == |steps| + 1 && trace[0] == old(blocks) && trace[|steps|] == blocks
      ensures forall i | 0 <= i < |steps| :: StepKeeps(steps[i], trace[i], trace[i + 1])
      ensures NoneLost(old(blocks)) ==>
                ((forall i | 0 <= i <= |steps| :: NoneLost(trace[i])) <==>
                 forall i | 0 <= i < |steps| :: StepSpares(steps[i], trace[i], trace[i + 1]))
    {
      hide StepKeeps, StepSpares, NoneLost, Valid, Current, AsRead, Step.Noticed;
      PageIsPositive();
      trace := [blocks];
      var i := 0;
      while i < |steps|
        invariant 0 <= i <= |steps| && Valid() && fresh(table.Leaves() - old(table.Leaves()))
        invariant |trace| == i + 1 && trace[0] == old(blocks) && trace[i] == blocks
        invariant forall j | 0 <= j < i :: StepKeeps(steps[j], trace[j], trace[j + 1])
        invariant (forall j | 0 <= j < i :: steps[j].Noticed(prot.page)) ==>
            past.tainted <= old(past.tainted) && past.misread <= old(past.misread)
      {
        Take(steps[i]);
        trace := trace + [blocks];
        i := i + 1;
      }
      if NoneLost(trace[0]) { RunKeeps(steps, trace); }
      forall a | a in entries && entries[a] != ArmNext
        ensures var p := entries[a].db;
                && p in blocks && !blocks[p].gone && blocks[p].x86Addr == a
                && (entries[a].Direct? && p !in past.tainted ==> Current(blocks[p], mem, prot.os))
                && (entries[a].Direct? ==> !blocks[p].alwaysTest) && AsRead(p, blocks[p], past)
      {
        EntryIsSized(a);
      }
    }
  }
}
