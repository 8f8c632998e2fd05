/** A history in which a block is never released (src/dynarec/dynablock.c): its guest code changes
    twice, and then its memory is unmapped. */
module LostBlocks {
  import opened X31Hash
  import opened JumpTable
  import opened Protection
  import opened Stores
  import opened BlockTable
  import opened KeptBlocks
  import opened Dynablocks
  import opened StoreWindows

  /** Block p is registered at ADDR for the byte v there, and no block is lost. */
  ghost predicate Holding(d: Dynarec, p: Ptr, v: Byte)
    reads d, d.prot
  {
    && ADDR in d.entries && d.entries[ADDR] != ArmNext && d.entries[ADDR].db == p && p in d.blocks && !d.blocks[p].gone
    && d.blocks[p].done && d.blocks[p].x86Addr == ADDR && d.blocks[p].x86Size == 1
    && d.prot.page == PAGE && Open(d.Now(), ADDR) && d.mem(ADDR) == v && d.past.tainted == {}
    && X31(d.mem, ADDR, 1) == d.blocks[p].hash && NoneLost(d.blocks)
  }

  /** The guest writes another byte, and the code is looked up again: block `at` takes the place
      of p and keeps it. */
  method ChangeAndLookUp(d: Dynarec, p: Ptr, v: Byte, u: Byte, spare: Ptr, at: Ptr)
    requires d.Valid() && Holding(d, p, v) && u != v
    requires spare != NULL && at != NULL && spare != at && spare !in d.blocks && at !in d.blocks
    modifies d, d.table.jmptbl, d.table.Leaves(), d.prot
    ensures d.Valid() && fresh(d.table.Leaves() - old(d.table.Leaves()))
    ensures Holding(d, at, u) && Replaced(old(d.blocks), p, at, d.blocks)
    ensures d.blocks.Keys <= old(d.blocks.Keys) + {spare, at}
  {
    hide Dynarec.Valid, X31, Open, NoneLost, Replaced, Dynarec.MadeOK, Dynarec.MadeAs, PagesHit, Misses, LookupKeeps;
    hide Wrote, MarkedOnly, Dynarec.Fresh, OneByte;
    Marked(d, u);
    ghost var b1, g1 := d.blocks, d.Now();
    var w := OneByte([], []);
    var r, hashed := d.DBGetBlock(ADDR, true, false, false, spare, w, QUIET, at, w);
    NoHits();
    MadeAgain(d, at, w, g1, hashed, u);
    ReplacedIs(b1, p, at, d.blocks);
  }

  /** A store of another byte marks the block. */
  method Marked(d: Dynarec, u: Byte)
    requires d.Valid() && ADDR in d.entries && d.entries[ADDR] != ArmNext
    requires var p := d.entries[ADDR].db; Holding(d, p, d.mem(ADDR)) && u != d.mem(ADDR)
    modifies d`mem, d.table.jmptbl, d.table.Leaves(), d`entries, d`blocks, d.prot
    ensures d.Valid() && fresh(d.table.Leaves() - old(d.table.Leaves())) && d.blocks == old(d.blocks)
    ensures ADDR in d.entries && d.entries[ADDR] == JmpNext(old(d.entries[ADDR].db))
    ensures Open(d.Now(), ADDR) && d.mem(ADDR) == u && d.prot.page == PAGE
    ensures X31(d.mem, ADDR, 1) != X31(old(d.mem), ADDR, 1)
  {
    hide Dynarec.Valid, X31, Open, NoneLost, Wrote, MarkedOnly, Current, PageDown, PageUp;
    ghost var g0, e0 := d.Now(), d.entries;
    var done := d.GuestWrite(ADDR, u);
    AtThatByte(g0, u, d.Now());
    X31NoticesOneByte(d.mem, g0.mem, ADDR, 1, ADDR);
    MarkedAt(e0, d.entries);
    d.EntryIsSized(ADDR);
    WritableIsStale(d.blocks[d.entries[ADDR].db], d.mem, d.prot.os);
  }

  lemma AtThatByte(g0: Guest, u: Byte, g: Guest)
    requires Wrote(g0, [(ADDR, u)], g, PAGE) && Open(g0, ADDR)
    ensures Open(g, ADDR) && g.os(ADDR).write && g.mem(ADDR) == u
  {
    hide Open;
    assert WroteAt(g0, [(ADDR, u)], g, PAGE, ADDR);
    HitByOne(ADDR, u, PAGE, ADDR);
    SamePageSelf(ADDR, PAGE);
    LastStoreOne(ADDR, u, ADDR, g0.mem(ADDR));
  }

  lemma MarkedAt(e0: Flat, e: Flat)
    requires MarkedOnly(e0, e) && ADDR in e0 && e0[ADDR] != ArmNext
    ensures ADDR in e && (e[ADDR] == e0[ADDR] || e[ADDR] == JmpNext(e0[ADDR].db))
  {}

  lemma WritableIsStale(b: Dynablock, mem: Memory, os: int -> Prot)
    requires b.x86Addr == ADDR && b.x86Size == 1 && os(ADDR).write
    ensures !Current(b, mem, os)
  {
    hide X31;
  }

  lemma NoHits()
    ensures !PagesHit([], PAGE, ADDR, ADDR + 1)
  {}

  /** The new block hashes as it should. */
  lemma MadeAgain(d: Dynarec, at: Ptr, w: Passes, g1: Guest, hashed: Memory, u: Byte)
    requires w == OneByte([], []) && at in d.blocks && d.prot.page == PAGE && g1.mem(ADDR) == u && Open(g1, ADDR)
    requires d.MadeOK(d.blocks[at], ADDR, w, g1, hashed)
    ensures var b := d.blocks[at];
            && b.done && !b.gone && b.x86Addr == ADDR && b.x86Size == 1 && X31(d.mem, ADDR, 1) == b.hash
    ensures d.mem(ADDR) == u && Open(d.Now(), ADDR)
  {
    hide X31, Open, BytesAt, DirtyWhen, PageDown, PageUp;
    EndsUndisturbed(g1, d.Now(), PAGE, ADDR, w);
    assert w.late + w.after == [];
    OpenBytes(d.Now(), hashed, ADDR);
    X31Same(hashed, d.mem, ADDR, 1);
  }

  lemma ReplacedIs(b: Blocks, p: Ptr, at: Ptr, now: Blocks)
    requires Replaced(b, p, at, now) && LookupKeeps(b, now)
    ensures NoneLost(b) ==> NoneLost(now)
  {
    hide NoneLost;
    if NoneLost(b) {
      forall q | q in b && !b[q].gone && q !in now ensures b[q].previous == NULL {}
    }
  }

  /** The byte at ADDR changes twice and is looked up each time: of three blocks, each keeps the
      one that it replaced. */
  method ThreeInARow() returns (d: Dynarec)
    ensures d.Valid() && fresh(d) && fresh(d.table) && fresh(d.table.jmptbl) && fresh(d.table.Leaves()) && fresh(d.prot)
    ensures Holding(d, 5, 0) && InARow(d.blocks)
  {
    hide Dynarec.Valid, X31, Open, NoneLost, Replaced;
    d := Translated1(false);
    OneBlock(d.blocks);
    ghost var b0 := d.blocks;
    ChangeAndLookUp(d, 1, 0, 1, 2, 3);
    ghost var b1 := d.blocks;
    ChangeAndLookUp(d, 3, 1, 0, 4, 5);
    InARowNow(b0, b1, d.blocks);
  }

  ghost predicate InARow(b: Blocks) {
    && 1 in b && b[1].gone && 3 in b && b[3].previous == 1 && 5 in b && b[5].previous == 3
  }

  lemma InARowNow(b0: Blocks, b1: Blocks, b2: Blocks)
    requires Replaced(b0, 1, 3, b1) && Replaced(b1, 3, 5, b2)
    ensures InARow(b2)
  {}

  /** Two changes and two look-ups, and then the range is unmapped: the first block is gone and
      kept by none. */
  method LostForever() returns (d: Dynarec)
    ensures d.Valid() && 1 in d.blocks && d.blocks[1].gone && !Reached(d.blocks, 1) && !NoneLost(d.blocks)
  {
    hide Dynarec.Valid, X31, Open, NoneLost, Reached, Cleaned, KeptShort, Dynarec.Destroyed, InARow, DestroyKeeps;
    d := ThreeInARow();
    ghost var b, e := d.blocks, d.entries;
    d.LinksHold();
    ghost var freed := d.CleanDBFromAddressRange(ADDR, 1, true);
    TakenAway(e, b, d.entries, d.blocks, freed);
    Unkept(b, d.blocks, freed);
  }

  lemma OneBlock(b: Blocks)
    requires b.Keys == {1} && !b[1].gone
    ensures NoneLost(b)
  {}

  lemma TakenAway(e0: Flat, b: Blocks, e: Flat, now: Blocks, freed: set<Ptr>)
    requires Cleaned(e0, b, e, ADDR, 1, true) && Dynarec.Destroyed(e0, b, e, now, freed)
    requires ADDR in e0 && e0[ADDR] != ArmNext && e0[ADDR].db == 5 && 5 in b && b[5].x86Addr == ADDR
    requires b[5].x86Size == 1
    ensures 5 in freed && now == FreedAll(b, freed) && forall p | p in freed :: p in b && !b[p].gone
  {}

  /** What block 5 kept goes with it, but not what that one kept. */
  lemma Unkept(b: Blocks, now: Blocks, freed: set<Ptr>)
    requires InARow(b) && Links(b) && now == FreedAll(b, freed) && 5 in freed
    requires forall p | p in freed :: p in b && !b[p].gone
    ensures 1 in now && now[1].gone && !Reached(now, 1) && !NoneLost(now)
  {
    GrandStays(b, freed, 5);
    UnkeptIsLost(now, 1);
    if Reached(now, 1) { ReachedIsKept(now, 1); }
  }
}
