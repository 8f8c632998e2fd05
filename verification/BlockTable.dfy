/** The jump table and the records of translated blocks, as values (src/dynarec/dynablock.c): what
    the entries may hold, which blocks keep which, and what every step of their life does to them. */
module BlockTable {
  import opened X31Hash
  import opened JumpTable
  import opened Protection
  import opened Stores
  import R = RangeTree

  /** Where a dynablock_t lies; NULL is no block. */
  type Ptr = nat
  const NULL: Ptr := 0

  /** What the pointer to the code of a block points to. */
  datatype Code = NoCode | EmptyBlock | Translated

  /** A dynablock_t. */
  datatype Dynablock = Dynablock(x86Addr: int, x86Size: nat, hash: int, code: Code,
                                 done: bool, gone: bool, alwaysTest: bool, dirty: bool, previous: Ptr)

  /** A jump target: the way out of translated code, a block's code, or the check in front of
      it. Of an empty block both are the same address. */
  datatype Target = ArmNext | Direct(db: Ptr) | JmpNext(db: Ptr)

  type Blocks = map<Ptr, Dynablock>   // the blocks that are allocated
  type Flat = imap<int, Target>       // the jump table, seen flat

  /** No block is made in the last slot of the jump table, where the sweeps would come round. */
  const SPACE: nat := 0xFFFF_0000

  function Wrap(x: int): int { x % JumpTable.TOP }

  predicate IntervalIntersects(start1: int, end1: int, start2: int, end2: int) {
    !(start1 > end2 || start2 > end1)
  }

  /** The test of the sweeps; its ends are those of the source, one byte generous. */
  predicate Hits(d: Dynablock, addr: int, size: nat) {
    IntervalIntersects(d.x86Addr, Wrap(d.x86Addr + d.x86Size - 1), addr, Wrap(addr + size + 1))
  }

  /** The test finds exactly the blocks that share a byte with the range or with one of the two
      bytes behind it. */
  lemma HitsIntersecting(d: Dynablock, addr: int, size: nat)
    requires 0 <= d.x86Addr && d.x86Addr + d.x86Size <= SPACE && 0 <= addr && addr + size <= SPACE && d.x86Size > 0
    ensures Hits(d, addr, size) <==> d.x86Addr < addr + size + 2 && addr < d.x86Addr + d.x86Size
  {}

  /** The guest bytes of d cannot be written and hash to what was recorded. */
  ghost predicate Current(d: Dynablock, mem: Memory, os: int -> Prot) {
    && d.x86Size > 0 && X31(mem, d.x86Addr, d.x86Size) == d.hash
    && forall x | d.x86Addr <= x < d.x86Addr + d.x86Size :: !os(x).write
  }

  /** What happened to the blocks that are registered: those that a store slipped by before they
      could be entered directly; those whose hash is not that of the bytes that their translation
      began with; and these bytes. */
  datatype Past = Past(tainted: set<Ptr>, misread: set<Ptr>, read: map<Ptr, Memory>)

  /** The hash of block p is that of the bytes that the first pass began with, unless it is noted
      that these changed under it. */
  ghost predicate AsRead(p: Ptr, d: Dynablock, past: Past) {
    d.code == Translated ==>
      p in past.misread || (p in past.read && X31(past.read[p], d.x86Addr, d.x86Size) == d.hash)
  }

  /** What the jump table may hold for address a. */
  ghost predicate EntryOK(a: int, t: Target, blocks: Blocks, past: Past, mem: Memory, os: int -> Prot,
                          maxDbSize: nat)
  {
    t == ArmNext ||
    (t.db in blocks && var d := blocks[t.db];
      && !d.gone && d.x86Addr == a && d.code != NoCode && d.x86Size <= maxDbSize && a + d.x86Size <= SPACE
      && (d.done ==> d.code == Translated && d.x86Size > 0)
      && AsRead(t.db, d, past)
      && (t.Direct? ==> d.code == Translated && !d.alwaysTest && (t.db in past.tainted || Current(d, mem, os))))
  }

  ghost predicate Entries(entries: Flat, blocks: Blocks, past: Past, mem: Memory, os: int -> Prot,
                          maxDbSize: nat)
  {
    forall a | a in entries :: EntryOK(a, entries[a], blocks, past, mem, os, maxDbSize)
  }

  /** A block kept for later release is gone, and kept by one block only. */
  ghost predicate Links(blocks: Blocks) {
    && NULL !in blocks
    && (forall p | p in blocks && blocks[p].previous != NULL ::
      blocks[p].previous in blocks && blocks[blocks[p].previous].gone)
    && (forall p, q | p in blocks && q in blocks && blocks[p].previous != NULL &&
      blocks[p].previous == blocks[q].previous :: p == q)
  }

  /** What a sweep over [addr, addr + size) makes of the entry t. */
  function Swept(t: Target, blocks: Blocks, addr: int, size: nat, destroy: bool): Target {
    if t == ArmNext || t.db !in blocks || !Hits(blocks[t.db], addr, size) then t
    else if destroy then ArmNext else JmpNext(t.db)
  }

  /** The entries e0 swept from address lo up to address hi. */
  ghost predicate SweptTo(e0: Flat, blocks: Blocks, e: Flat, addr: int, size: nat, destroy: bool, lo: int, hi: int) {
    && e.Keys == e0.Keys
    && forall a | a in e0 :: e[a] == if lo <= a < hi then Swept(e0[a], blocks, addr, size, destroy) else e0[a]
  }

  ghost predicate Bounded(e: Flat, b: Blocks, max: nat) {
    forall a | a in e && e[a] != ArmNext ::
      var p := e[a].db; p in b && b[p].x86Addr == a && b[p].x86Size <= max && 0 <= a && a + b[p].x86Size <= SPACE
  }

  /** Every block that shared a byte with the range is marked (or freed); every block that lay
      wholly before it is as it was; and nothing else happened to any entry. */
  ghost predicate Cleaned(e0: Flat, b0: Blocks, e: Flat, addr: int, size: nat, destroy: bool) {
    && e.Keys == e0.Keys
    && forall a | a in e0 ::
        if e0[a] == ArmNext || e0[a].db !in b0 then e[a] == e0[a]
        else
          var d := b0[e0[a].db];
          && (e[a] == e0[a] || e[a] == if destroy then ArmNext else JmpNext(e0[a].db))
          && (d.x86Size > 0 && a < addr + size && addr < a + d.x86Size ==>
            e[a] == if destroy then ArmNext else JmpNext(e0[a].db))
          && (d.x86Size > 0 && a + d.x86Size <= addr ==> e[a] == e0[a])
  }

  lemma SweptIsCleaned(e0: Flat, b0: Blocks, e: Flat, addr: nat, size: nat, destroy: bool, lo: int, hi: int, max: nat)
    requires addr + size <= SPACE && Bounded(e0, b0, max) && lo == (if addr < max then 0 else addr - max)
    requires hi >= addr + size && SweptTo(e0, b0, e, addr, size, destroy, lo, hi)
    ensures Cleaned(e0, b0, e, addr, size, destroy)
  {
    hide Hits;
    forall a | a in e0 && e0[a] != ArmNext && e0[a].db in b0
      ensures var d := b0[e0[a].db];
              && (e[a] == e0[a] || e[a] == if destroy then ArmNext else JmpNext(e0[a].db))
              && (d.x86Size > 0 && a < addr + size && addr < a + d.x86Size ==>
                e[a] == if destroy then ArmNext else JmpNext(e0[a].db))
              && (d.x86Size > 0 && a + d.x86Size <= addr ==> e[a] == e0[a])
    {
      var d := b0[e0[a].db];
      if d.x86Size > 0 { HitsIntersecting(d, addr, size); }
    }
  }

  predicate Within(now: Blocks, was: Blocks) {
    forall p | p in now :: p in was && now[p] == was[p]
  }

  lemma WithinSame(b: Blocks)
    ensures Within(b, b)
  {}

  lemma WithinTrans(a: Blocks, b: Blocks, c: Blocks)
    requires Within(a, b) && Within(b, c)
    ensures Within(a, c)
  {}

  lemma SweptStart(e0: Flat, b0: Blocks, addr: int, size: nat, destroy: bool, lo: int)
    ensures SweptTo(e0, b0, e0, addr, size, destroy, lo, lo)
  {}

  lemma SweptNothing(e0: Flat, b0: Blocks, e: Flat, addr: int, size: nat, destroy: bool, lo: int, mid: int, hi: int)
    requires SweptTo(e0, b0, e, addr, size, destroy, lo, mid) && lo <= mid <= hi
    requires forall a | mid <= a < hi && a in e :: e[a] == ArmNext
    ensures SweptTo(e0, b0, e, addr, size, destroy, lo, hi)
  {
    hide Hits;
    forall a | a in e0 ensures e[a] == if lo <= a < hi then Swept(e0[a], b0, addr, size, destroy) else e0[a] {
      assert a in e;
    }
  }

  lemma SweptAt(e0: Flat, b0: Blocks, e1: Flat, b1: Blocks, e: Flat, addr: int, size: nat, destroy: bool, lo: int,
                mid: int, at: int)
    requires SweptTo(e0, b0, e1, addr, size, destroy, lo, mid) && lo <= mid <= at && at in e1 && Within(b1, b0)
    requires forall a | mid <= a < at && a in e1 :: e1[a] == ArmNext
    requires e1[at] != ArmNext && e1[at].db in b1 && e == e1[at := Swept(e1[at], b1, addr, size, destroy)]
    ensures SweptTo(e0, b0, e, addr, size, destroy, lo, at + 1)
  {
    hide Hits;
    SweptNothing(e0, b0, e1, addr, size, destroy, lo, mid, at);
    assert at in e0 && e1[at] == e0[at];
    assert b1[e1[at].db] == b0[e1[at].db];
  }

  // ---- What each step does to the invariants, on values

  /** Entries of other blocks do not care what becomes of block p. */
  lemma EntriesWithout(entries: Flat, blocks: Blocks, past: Past, mem: Memory, os: int -> Prot, maxDbSize: nat,
                       p: Ptr, now: Blocks)
    requires Entries(entries, blocks, past, mem, os, maxDbSize) && p in blocks
    requires forall q | q in blocks && q != p && !blocks[q].gone :: q in now && now[q] == blocks[q]
    ensures Entries(entries[blocks[p].x86Addr := ArmNext], now, past, mem, os, maxDbSize)
  {
    hide Current;
    var e := entries[blocks[p].x86Addr := ArmNext];
    forall a | a in e ensures EntryOK(a, e[a], now, past, mem, os, maxDbSize) {
      if a != blocks[p].x86Addr { assert EntryOK(a, entries[a], blocks, past, mem, os, maxDbSize); }
    }
  }

  /** No block that is entered directly, and that no store slipped by, shares a byte with [lo, hi). */
  ghost predicate Undirected(e: Flat, b: Blocks, past: Past, lo: int, hi: int) {
    forall a | a in e && e[a].Direct? && e[a].db in b && e[a].db !in past.tainted :: var d := b[e[a].db];
      a + d.x86Size <= lo || hi <= a
  }

  lemma CleanedUndirected(e0: Flat, b: Blocks, e: Flat, past: Past, mem: Memory, os: int -> Prot, max: nat,
                          lo: int, hi: int)
    requires lo < hi && Cleaned(e0, b, e, lo, hi - lo, false) && Entries(e, b, past, mem, os, max)
    ensures Undirected(e, b, past, lo, hi)
  {
    forall a | a in e && e[a].Direct? && e[a].db in b && e[a].db !in past.tainted
      ensures a + b[e[a].db].x86Size <= lo || hi <= a
    {
      assert EntryOK(a, e[a], b, past, mem, os, max);
    }
  }

  /** What happens to addresses that no directly entered block covers does not matter. */
  lemma EntriesOutside(e: Flat, b: Blocks, past: Past, mem0: Memory, os0: int -> Prot, mem: Memory,
                       os: int -> Prot, max: nat, lo: int, hi: int)
    requires Entries(e, b, past, mem0, os0, max) && Undirected(e, b, past, lo, hi)
    requires forall x | !(lo <= x < hi) :: mem(x) == mem0(x) && os(x) == os0(x)
    ensures Entries(e, b, past, mem, os, max)
  {
    forall a | a in e ensures EntryOK(a, e[a], b, past, mem, os, max) {
      assert EntryOK(a, e[a], b, past, mem0, os0, max);
      if e[a].Direct? && e[a].db !in past.tainted {
        var d := b[e[a].db];
        X31Same(mem0, mem, a, d.x86Size);
      }
    }
  }

  /** A writable byte lies in no directly entered block. */
  lemma WritableUndirected(e: Flat, b: Blocks, past: Past, mem: Memory, os: int -> Prot, max: nat, x: int)
    requires Entries(e, b, past, mem, os, max) && os(x).write
    ensures Undirected(e, b, past, x, x + 1)
  {
    forall a | a in e && e[a].Direct? && e[a].db in b && e[a].db !in past.tainted
      ensures a + b[e[a].db].x86Size <= x || x + 1 <= a
    {
      assert EntryOK(a, e[a], b, past, mem, os, max);
    }
  }

  /** Entries are as they were, or marked. */
  ghost predicate MarkedOnly(e0: Flat, e: Flat) {
    e.Keys == e0.Keys && forall a | a in e0 :: e[a] == e0[a] || (e0[a] != ArmNext && e[a] == JmpNext(e0[a].db))
  }

  lemma CleanedMarks(e0: Flat, b: Blocks, e: Flat, addr: int, size: nat)
    requires Cleaned(e0, b, e, addr, size, false)
    ensures MarkedOnly(e0, e)
  {}

  lemma MarkedTrans(e0: Flat, e1: Flat, e2: Flat)
    requires MarkedOnly(e0, e1) && MarkedOnly(e1, e2)
    ensures MarkedOnly(e0, e2)
  {}

  lemma MarkedKeeps(e0: Flat, e: Flat, a: int)
    requires MarkedOnly(e0, e) && a in e0 && e0[a] == ArmNext
    ensures a in e && e[a] == ArmNext
  {}

  lemma MarkedNone(e: Flat)
    ensures MarkedOnly(e, e)
  {}

  /** Unprotecting [lo, hi) is safe when no write permission comes back there, or no block is
      entered directly there. */
  ghost predicate Quiet(r0: seq<R.Run<Prot>>, e: Flat, b: Blocks, past: Past, lo: int, hi: int) {
    Undirected(e, b, past, lo, hi) || forall x | lo <= x < hi :: !GivesBack(R.At(r0, x))
  }

  lemma UnprotectedQuiet(r0: seq<R.Run<Prot>>, e: Flat, b: Blocks, past: Past, lo: int, hi: int,
                         v: R.Option<Prot>)
    requires R.Uniform(r0, lo, hi, v) && !GivesBack(v)
    ensures Quiet(r0, e, b, past, lo, hi)
  {
    hide R.At;
  }

  lemma EntriesUnprotected(e: Flat, b: Blocks, past: Past, mem: Memory, r0: seq<R.Run<Prot>>, o0: int -> Prot,
                           r: seq<R.Run<Prot>>, o: int -> Prot, max: nat, lo: int, hi: int)
    requires Entries(e, b, past, mem, o0, max) && UnprotectedTo(r0, o0, r, o, lo, hi)
    requires Quiet(r0, e, b, past, lo, hi)
    ensures Entries(e, b, past, mem, o, max)
  {
    hide R.At, X31;
    if Undirected(e, b, past, lo, hi) {
      EntriesOutside(e, b, past, mem, o0, mem, o, max, lo, hi);
    } else {
      assert forall x :: o(x) == o0(x);
      forall a | a in e ensures EntryOK(a, e[a], b, past, mem, o, max) {
        assert EntryOK(a, e[a], b, past, mem, o0, max);
      }
    }
  }

  lemma PagesUnprotected(r0: seq<R.Run<Prot>>, o0: int -> Prot, r: seq<R.Run<Prot>>, o: int -> Prot, lo: int, hi: int)
    requires Pages(r0, o0) && UnprotectedTo(r0, o0, r, o, lo, hi)
    ensures Pages(r, o)
  {
    hide R.At;
    forall x ensures Guarded(R.At(r, x), o(x)) { assert Guarded(R.At(r0, x), o0(x)); }
  }

  lemma PagesProtected(r0: seq<R.Run<Prot>>, o0: int -> Prot, r: seq<R.Run<Prot>>, o: int -> Prot, lo: int, hi: int)
    requires Pages(r0, o0) && ProtectedTo(r0, o0, r, o, lo, hi)
    ensures Pages(r, o) && forall x :: o(x).write ==> o0(x).write
  {
    hide R.At;
    forall x ensures Guarded(R.At(r, x), o(x)) && (o(x).write ==> o0(x).write) { assert Guarded(R.At(r0, x), o0(x)); }
  }

  /** The same guest bytes, less of them writable. */
  lemma EntriesGuarded(e: Flat, b: Blocks, past: Past, mem: Memory, os0: int -> Prot, os: int -> Prot, max: nat)
    requires Entries(e, b, past, mem, os0, max) && forall x :: os(x).write ==> os0(x).write
    ensures Entries(e, b, past, mem, os, max)
  {
    hide X31;
    forall a | a in e ensures EntryOK(a, e[a], b, past, mem, os, max) {
      assert EntryOK(a, e[a], b, past, mem, os0, max);
    }
  }

  /** A block whose bytes are what they were when it was hashed, on pages that are all guarded. */
  lemma GuardedIsCurrent(d: Dynablock, hashed: Memory, g: Guest)
    requires Pages(g.memprot, g.os) && d.x86Size > 0 && X31(hashed, d.x86Addr, d.x86Size) == d.hash
    requires forall x | d.x86Addr <= x < d.x86Addr + d.x86Size :: Tracked(g.memprot, x) && g.mem(x) == hashed(x)
    ensures Current(d, g.mem, g.os)
  {
    forall x | d.x86Addr <= x < d.x86Addr + d.x86Size ensures !g.os(x).write {
      assert Tracked(g.memprot, x) && Guarded(R.At(g.memprot, x), g.os(x));
    }
    X31Same(hashed, g.mem, d.x86Addr, d.x86Size);
  }

  /** A block whose bytes cannot be written is current after stores exactly when it had the bytes
      that were hashed and no store that is on one of its pages was done. */
  lemma CurrentAfter(d: Dynablock, g0: Guest, ws: Writing, g: Guest, page: int)
    requires page > 0 && Pagewise(g0.memprot, g0.os, page) && Wrote(g0, ws, g, page) && d.x86Size > 0
    requires forall x | d.x86Addr <= x < d.x86Addr + d.x86Size :: !g0.os(x).write
    ensures Current(d, g.mem, g.os) <==>
            !Touches(ws, g0, page, d.x86Addr, d.x86Addr + d.x86Size) && X31(g0.mem, d.x86Addr, d.x86Size) == d.hash
  {
    hide X31, Wrote, Pagewise, Touches;
    TouchedOrNot(g0, ws, g, page, d.x86Addr, d.x86Addr + d.x86Size);
    if !Touches(ws, g0, page, d.x86Addr, d.x86Addr + d.x86Size) {
      X31Same(g0.mem, g.mem, d.x86Addr, d.x86Size);
    }
  }

  lemma LinksUpdate(blocks: Blocks, p: Ptr, d: Dynablock)
    requires Links(blocks) && p in blocks && d.previous == blocks[p].previous && d.gone == blocks[p].gone
    ensures Links(blocks[p := d])
  {}

  lemma EntriesMax(e: Flat, b: Blocks, past: Past, mem: Memory, os: int -> Prot, max0: nat, max: nat)
    requires Entries(e, b, past, mem, os, max0) && max0 <= max
    ensures Entries(e, b, past, mem, os, max)
  {
    hide Current;
    forall a | a in e ensures EntryOK(a, e[a], b, past, mem, os, max) {
      assert EntryOK(a, e[a], b, past, mem, os, max0);
    }
  }

  /** A new entry for a block that is right for it. */
  lemma EntriesAdd(e: Flat, b: Blocks, past: Past, mem: Memory, os: int -> Prot, max: nat, a: int, t: Target)
    requires Entries(e, b, past, mem, os, max) && EntryOK(a, t, b, past, mem, os, max)
    ensures Entries(e[a := t], b, past, mem, os, max)
  {
    hide EntryOK;
  }

  /** Whether a block is noted as tainted matters only while it is entered directly. */
  lemma EntriesTaint(e: Flat, b: Blocks, was: Past, mem: Memory, os: int -> Prot, max: nat, p: Ptr, past: Past)
    requires Entries(e, b, was, mem, os, max) && p in b && past == was.(tainted := past.tainted)
    requires past.tainted - {p} == was.tainted - {p}
    requires b[p].x86Addr in e ==> e[b[p].x86Addr] != Direct(p)
    ensures Entries(e, b, past, mem, os, max)
  {
    hide Current, AsRead;
    forall a | a in e ensures EntryOK(a, e[a], b, past, mem, os, max) {
      assert EntryOK(a, e[a], b, was, mem, os, max);
      ReadAnyway(e[a], b, was, past);
      assert forall q | q != p :: q in past.tainted <==> q in past.tainted - {p};
      assert forall q | q != p :: q in was.tainted <==> q in was.tainted - {p};
    }
  }

  lemma ReadAnyway(t: Target, b: Blocks, was: Past, past: Past)
    requires past == was.(tainted := past.tainted) && (t != ArmNext ==> t.db in b)
    ensures t != ArmNext ==> (AsRead(t.db, b[t.db], past) <==> AsRead(t.db, b[t.db], was))
  {}

  /** What was read for a block matters only while an entry leads to it. */
  lemma EntriesRead(e: Flat, b: Blocks, was: Past, mem: Memory, os: int -> Prot, max: nat, p: Ptr, past: Past)
    requires Entries(e, b, was, mem, os, max) && p in b && past.tainted == was.tainted
    requires forall q | q != p :: q in past.misread <==> q in was.misread
    requires forall q | q != p && q in was.read :: q in past.read && past.read[q] == was.read[q]
    requires b[p].x86Addr in e ==> e[b[p].x86Addr] == ArmNext || e[b[p].x86Addr].db != p
    ensures Entries(e, b, past, mem, os, max)
  {
    hide Current, X31;
    forall a | a in e ensures EntryOK(a, e[a], b, past, mem, os, max) {
      assert EntryOK(a, e[a], b, was, mem, os, max);
    }
  }

  /** The same block but for what the entries do not ask about. */
  lemma EntriesTouch(e: Flat, b: Blocks, past: Past, mem: Memory, os: int -> Prot, max: nat, p: Ptr,
                     d: Dynablock)
    requires Entries(e, b, past, mem, os, max) && p in b && d.(done := b[p].done, previous := b[p].previous) == b[p]
    requires d.done ==> d.code == Translated && d.x86Size > 0
    ensures Entries(e, b[p := d], past, mem, os, max)
  {
    hide X31;
    forall a | a in e ensures EntryOK(a, e[a], b[p := d], past, mem, os, max) {
      assert EntryOK(a, e[a], b, past, mem, os, max);
    }
  }

  lemma LinksWithout(blocks: Blocks, p: Ptr)
    requires Links(blocks) && p in blocks && !blocks[p].gone
    ensures Links(blocks - {p})
  {}

  ghost predicate Unlinked(blocks: Blocks, p: Ptr) {
    forall q | q in blocks :: blocks[q].previous != p
  }

  lemma LinksKeep(blocks: Blocks, r: Ptr, p: Ptr)
    requires Links(blocks) && r in blocks && p in blocks && blocks[p].gone && Unlinked(blocks, p)
    ensures Links(blocks[r := blocks[r].(previous := p)])
  {}

  lemma LinksDrop(blocks: Blocks, p: Ptr)
    requires Links(blocks) && p in blocks && Unlinked(blocks, p)
    ensures Links(blocks - {p})
  {}

  lemma UnlinkedAfter(blocks: Blocks, p: Ptr)
    requires Links(blocks) && p in blocks && !blocks[p].gone
    ensures Unlinked(Gone(blocks, p), p)
  {}

  lemma LinksNew(blocks: Blocks, p: Ptr, d: Dynablock)
    requires Links(blocks) && p !in blocks && p != NULL && d.previous == NULL
    ensures Links(blocks[p := d])
  {}

  function Gone(blocks: Blocks, p: Ptr): Blocks
    requires p in blocks
  {
    blocks[p := blocks[p].(done := false, gone := true)]
  }

  /** The blocks after p is freed, with the one it kept. */
  function Freed(blocks: Blocks, p: Ptr): Blocks
    requires p in blocks
  {
    blocks - {p} - {blocks[p].previous}
  }

  /** The blocks after p, in use so far, is gone and kept by r: a new block, or one that kept
      none. */
  ghost predicate Replaced(b: Blocks, p: Ptr, r: Ptr, now: Blocks) {
    && p in b && p in now && r in now && r != p && p != NULL
    && !b[p].gone && now[p].gone && !now[p].done && now[p].previous == b[p].previous
    && !now[r].gone && now[r].previous == p && (r in b ==> b[r].previous == NULL)
    && forall q | q in b && q != p && q != r :: q in now && now[q] == b[q]
  }

  /** The blocks after all of `freed` are freed, each with the one it kept. */
  function FreedAll(blocks: Blocks, freed: set<Ptr>): Blocks {
    blocks - freed - (set p | p in freed && p in blocks :: blocks[p].previous)
  }

  lemma FreedOneMore(b0: Blocks, freed: set<Ptr>, b: Blocks, p: Ptr)
    requires b == FreedAll(b0, freed) && p in b
    ensures p in b0 && b[p] == b0[p] && Freed(b, p) == FreedAll(b0, freed + {p})
  {
    var f, g := (set q | q in freed && q in b0 :: b0[q].previous),
                (set q | q in freed + {p} && q in b0 :: b0[q].previous);
    assert g == f + {b0[p].previous} by {
      forall x ensures x in g <==> x in f + {b0[p].previous} {
        if x == b0[p].previous { assert p in freed + {p} && b0[p].previous == x; }
        if x in f {
          var q :| q in freed && q in b0 && b0[q].previous == x;
          assert q in freed + {p};
        }
      }
    }
    assert Freed(b, p) == FreedAll(b0, freed + {p});
  }

  /** The blocks that a sweep freed are those whose entry has become free. */
  ghost predicate FreedAre(e0: Flat, b0: Blocks, e: Flat, freed: set<Ptr>) {
    forall p :: p in freed <==>
      p in b0 && var a := b0[p].x86Addr; a in e0 && a in e && e0[a] != ArmNext && e0[a].db == p && e[a] == ArmNext
  }

  lemma FreedNone(e: Flat, b: Blocks)
    ensures FreedAre(e, b, e, {}) && FreedAll(b, {}) == b
  {}

  /** The sweep is at the entry `at`, which it has not changed yet. */
  lemma FreedStep(e0: Flat, b0: Blocks, e1: Flat, e: Flat, freed: set<Ptr>, at: int, p: Ptr, hit: bool)
    requires FreedAre(e0, b0, e1, freed) && at in e0 && at in e1 && e1[at] == e0[at] != ArmNext && e0[at].db == p
    requires p in b0 && b0[p].x86Addr == at && e.Keys == e1.Keys
    requires forall a | a in e1 && a != at :: e[a] == e1[a]
    requires if hit then e[at] == ArmNext else e[at] != ArmNext
    ensures FreedAre(e0, b0, e, if hit then freed + {p} else freed)
  {
    var now := if hit then freed + {p} else freed;
    forall q ensures q in now <==>
      q in b0 && var a := b0[q].x86Addr; a in e0 && a in e && e0[a] != ArmNext && e0[a].db == q && e[a] == ArmNext
    {
      if q != p && q in b0 && b0[q].x86Addr in e0 && e0[b0[q].x86Addr] != ArmNext && e0[b0[q].x86Addr].db == q {
        assert b0[q].x86Addr != at;
      }
    }
  }

  lemma LinksGone(blocks: Blocks, p: Ptr)
    requires Links(blocks) && p in blocks
    ensures Links(Gone(blocks, p))
  {}

  lemma LinksFreed(blocks: Blocks, p: Ptr)
    requires Links(blocks) && p in blocks && !blocks[p].gone
    ensures Links(Freed(blocks, p))
  {}

  /** A marked entry is still right. */
  lemma EntriesMarked(entries: Flat, blocks: Blocks, past: Past, mem: Memory, os: int -> Prot, maxDbSize: nat,
                      a: int)
    requires Entries(entries, blocks, past, mem, os, maxDbSize) && a in entries && entries[a] != ArmNext
    ensures Entries(entries[a := JmpNext(entries[a].db)], blocks, past, mem, os, maxDbSize)
  {
    hide Current;
    var e := entries[a := JmpNext(entries[a].db)];
    assert EntryOK(a, entries[a], blocks, past, mem, os, maxDbSize);
    forall b | b in e ensures EntryOK(b, e[b], blocks, past, mem, os, maxDbSize) {
      if b != a { assert EntryOK(b, entries[b], blocks, past, mem, os, maxDbSize); }
    }
  }

  /** Blocks that no entry leads to may become gone, be linked or be released. */
  lemma EntriesElsewhere(entries: Flat, blocks: Blocks, past: Past, mem: Memory, os: int -> Prot,
                         maxDbSize: nat, p: Ptr, now: Blocks)
    requires Entries(entries, blocks, past, mem, os, maxDbSize) && p in blocks
    requires blocks[p].x86Addr in entries ==>
        entries[blocks[p].x86Addr] == ArmNext || entries[blocks[p].x86Addr].db != p
    requires forall q | q in blocks && q != p :: q in now && now[q].(previous := blocks[q].previous) == blocks[q]
    ensures Entries(entries, now, past, mem, os, maxDbSize)
  {
    hide X31;
    forall a | a in entries ensures EntryOK(a, entries[a], now, past, mem, os, maxDbSize) {
      assert EntryOK(a, entries[a], blocks, past, mem, os, maxDbSize);
    }
  }

  lemma EntriesNew(entries: Flat, blocks: Blocks, past: Past, mem: Memory, os: int -> Prot, maxDbSize: nat,
                   p: Ptr, d: Dynablock)
    requires Entries(entries, blocks, past, mem, os, maxDbSize) && p !in blocks
    ensures Entries(entries, blocks[p := d], past, mem, os, maxDbSize)
  {
    hide X31;
    forall a | a in entries ensures EntryOK(a, entries[a], blocks[p := d], past, mem, os, maxDbSize) {
      assert EntryOK(a, entries[a], blocks, past, mem, os, maxDbSize);
    }
  }

  lemma LostElsewhere(blocks: Blocks, p: Ptr, cur: Ptr)
    requires p in blocks && cur != p && (cur != NULL ==> cur in blocks)
    ensures forall q | q in blocks && q != p ::
        q in Lost(blocks, p, cur) && Lost(blocks, p, cur)[q].(previous := blocks[q].previous) == blocks[q]
  {}

  /** What is left of block p when it turns out not to be registered any more: it is released,
      or kept by the block cur that is registered in its place. */
  function Lost(blocks: Blocks, p: Ptr, cur: Ptr): Blocks
    requires p in blocks && cur != p && (cur != NULL ==> cur in blocks)
  {
    if cur == NULL || blocks[cur].previous != NULL then blocks - {p}
    else Gone(blocks, p)[cur := blocks[cur].(previous := p)]
  }

  lemma LinksLost(blocks: Blocks, p: Ptr, cur: Ptr)
    requires Links(blocks) && p in blocks && !blocks[p].gone && cur != p && (cur != NULL ==> cur in blocks)
    ensures Links(Lost(blocks, p, cur))
  {
    if cur == NULL || blocks[cur].previous != NULL {
      LinksWithout(blocks, p);
    } else {
      LinksGone(blocks, p);
      UnlinkedAfter(blocks, p);
      var b := Gone(blocks, p);
      LinksKeep(b, cur, p);
      assert Lost(blocks, p, cur) == b[cur := b[cur].(previous := p)];
    }
  }

  lemma KeptGone(blocks: Blocks, p: Ptr)
    requires Links(blocks) && p in blocks && !blocks[p].gone
    ensures NULL !in blocks && blocks[p].previous != p
    ensures blocks[p].previous != NULL ==> blocks[p].previous in blocks && blocks[blocks[p].previous].gone
  {}
}
