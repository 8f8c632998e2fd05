/** The custom heap (src/custommem.c): customMalloc, customRealloc and customFree over a list
    of blocks. Mapping new memory is a parameter: the address at which the system would map. */
module CustomHeap {
  import opened Allocations
  import opened BlockChain
  import opened BlockIndex
  import opened Blocks

  const MMAPSIZE := 64 * 1024

  class Heap {
    var blocks: seq<Block>
    ghost var Repr: set<object>

    /** Blocks do not share memory or addresses, and each is coherent and exactly indexed. */
    ghost predicate Valid()
      reads this, Repr
    {
      && this !in Repr
      && (forall i, j | 0 <= i < j < |blocks| ::
        blocks[i] != blocks[j] && blocks[i].mem != blocks[j].mem && Apart(blocks[i], blocks[j]))
      && (forall i | 0 <= i < |blocks| :: blocks[i] in Repr && blocks[i].mem in Repr && BlockOK(blocks[i]))
    }

    static ghost predicate BlockOK(b: Block)
      reads b, b.mem
    {
      b.base % 8 == 0 && b.base > 0 && b.Valid(true)
    }

    static predicate Apart(a: Block, b: Block) {
      a.base + 8 * a.mem.Length <= b.base || b.base + 8 * b.mem.Length <= a.base
    }

    /** The live allocations: block index, first cell, number of cells. */
    ghost function Allocs(): set<(int, int, int)>
      requires Valid()
      reads this, Repr
    {
      AllOf(Lives())
    }

    ghost function Lives(): (lives: seq<set<(int, int)>>)
      requires Valid()
      reads this, Repr
      ensures |lives| == |blocks|
    {
      seq(|blocks|, i requires 0 <= i < |blocks| && Valid() reads this, Repr => blocks[i].Live())
    }

    /** The free sub-blocks of every block. */
    ghost function Spares(): (spares: seq<set<(int, int)>>)
      requires Valid()
      reads this, Repr
      ensures |spares| == |blocks|
    {
      seq(|blocks|, i requires 0 <= i < |blocks| && Valid() reads this, Repr => blocks[i].Spare())
    }

    function Address(a: (int, int, int)): int
      reads this
    {
      if 0 <= a.0 < |blocks| then blocks[a.0].base + 8 * a.1 else 0
    }

    /** Live allocations are aligned, lie inside their block and do not overlap. */
    lemma AllocsDisjoint(a: (int, int, int), b: (int, int, int))
      requires Valid() && a in Allocs() && b in Allocs()
      ensures Address(a) % 8 == 0 && blocks[a.0].base < Address(a)
      ensures Address(a) + 8 * a.2 < blocks[a.0].base + 8 * blocks[a.0].mem.Length
      ensures a != b ==> Address(a) + 8 * a.2 <= Address(b) || Address(b) + 8 * b.2 <= Address(a)
    {
      AllOfAt(Lives(), a);
      AllOfAt(Lives(), b);
      LiveDisjoint(blocks[a.0].mem[..], blocks[a.0].marks, (a.1, a.2), (a.1, a.2));
      LiveDisjoint(blocks[b.0].mem[..], blocks[b.0].marks, (b.1, b.2), (b.1, b.2));
      if a.0 == b.0 {
        LiveDisjoint(blocks[a.0].mem[..], blocks[a.0].marks, (a.1, a.2), (b.1, b.2));
      } else if a.0 < b.0 {
        assert Apart(blocks[a.0], blocks[b.0]);
      } else {
        assert Apart(blocks[b.0], blocks[a.0]);
      }
    }

    constructor ()
      ensures Valid() && Allocs() == {} && blocks == [] && fresh(Repr)
    {
      blocks, Repr := [], {};
    }

    /** A fresh mapping of `bytes` at `at` overlaps no block. */
    predicate MayMap(at: nat, bytes: nat)
      reads this
    {
      at > 0 && at % 8 == 0 && forall i | 0 <= i < |blocks| ::
        at + bytes <= blocks[i].base || blocks[i].base + 8 * blocks[i].mem.Length <= at
    }

    static function MapSize(size: nat): nat {
      var fullsize := RoundSize(size) + 2 * MARK;
      if fullsize > MMAPSIZE then fullsize else MMAPSIZE
    }

    ghost function Mems(): (mems: seq<seq<Cell>>)
      requires Valid()
      reads this, Repr
      ensures |mems| == |blocks|
    {
      seq(|blocks|, i requires 0 <= i < |blocks| && Valid() reads this, Repr => blocks[i].mem[..])
    }

    /** All live contents of the memories `mems` are still there, but those of `gone`. */
    ghost predicate Kept(mems: seq<seq<Cell>>, lives: seq<set<(int, int)>>, gone: set<(int, int, int)>)
      requires |mems| == |lives| && Valid()
      reads this, Repr
    {
      KeptOver(mems, lives, gone, Mems())
    }

    /** What a step on block i alone does to the whole heap. */
    lemma StepOn(i: int, mems: seq<seq<Cell>>, lives: seq<set<(int, int)>>, gone: set<(int, int, int)>)
      requires Valid() && 0 <= i < |blocks| == |mems| == |lives|
      requires forall j | 0 <= j < |blocks| && j != i :: blocks[j].mem[..] == mems[j] && blocks[j].Live() == lives[j]
      requires SameCells(mems[i], blocks[i].mem[..], Staying(lives, i, gone))
      ensures Kept(mems, lives, gone) && Lives() == lives[i := blocks[i].Live()]
    {}

    method TakeFrom(i: nat, size: int) returns (addr: int, ghost a: (int, int, int))
      requires Valid() && i < |blocks| && size % 8 == 0 && 8 <= size <= blocks[i].maxfree
      modifies Repr
      ensures Valid() && Kept(old(Mems()), old(Lives()), {}) && blocks == old(blocks) && Repr == old(Repr)
      ensures Allocs() == old(Allocs()) + {a} && a !in old(Allocs()) && addr == Address(a)
      ensures a.0 == i && size <= 8 * a.2 <= size + 128 && Spares() == old(Spares())[i := Spares()[i]]
      ensures CutFrom(old(Spares())[i], Spares()[i], size, a.1, a.2)
    {
      hide Chain, Merged, FirstAt, Largest, BlockChain.Live, BlockChain.Spare, SameCells, Ordered, Block.Linked;
      hide FirstFit, Served, Behind;
      ghost var mems, lives, spares := Mems(), Lives(), Spares();
      var p, r := blocks[i].Take(size);
      ghost var n := Served(size, r);
      a := (i, p, n);
      addr := blocks[i].base + 8 * p;
      assert Valid();
      assert Staying(lives, i, {}) == lives[i];
      StepOn(i, mems, lives, {});
      AllOfGains(lives, i, (p, n));
      AllOfAt(lives, a);
    }

    static method NewBlock(size: int, at: nat) returns (b: Block, p: int, ghost n: int)
      requires size % 8 == 0 && 8 <= size < 0x7FFF_FFE0 && RoundSize(size) == size
      ensures fresh(b) && fresh(b.mem) && b.base == at && b.mem.Length == MapSize(size) / 8 && b.Valid(true)
      ensures size <= 8 * n <= size + 128 && p == 1 && b.Live() == {(p, n)} && b.Started(size)
    {
      b := new Block(at, MapSize(size) / 8);
      p := b.StartHeap(size);
      n := Served(size, b.mem.Length - 2);
      ServedEnough(size, 1, b.mem.Length - 2);
    }

    /** Block i is a new one at `at`, as large as it must be and not below 64 KB, and the allocation a
        is its first. */
    ghost predicate Mapped(i: int, a: (int, int, int), size: int, at: int)
      requires Valid()
      reads this, Repr
    {
      && a.0 == i && 0 <= i < |blocks| && blocks[i].base == at && blocks[i].Started(size)
      && 8 * blocks[i].mem.Length == if size + 16 > 0x10000 then size + 16 else 0x10000
    }

    /** Puts a block behind all others. */
    method Append(b: Block)
      requires Valid() && BlockOK(b) && b !in Repr && b.mem !in Repr && b.mem as object != this && b as object != this
      requires forall i | 0 <= i < |blocks| :: Apart(blocks[i], b)
      modifies this
      ensures Valid() && blocks == old(blocks) + [b] && Repr == old(Repr) + {b, b.mem}
      ensures Mems() == old(Mems()) + [b.mem[..]] && Lives() == old(Lives()) + [b.Live()]
      ensures Spares() == old(Spares()) + [b.Spare()]
    {
      hide BlockChain.Live, BlockChain.Spare, Block.Linked, Chain, Merged, FirstAt, Largest, Ordered;
      ghost var mems, lives, spares := Mems(), Lives(), Spares();
      blocks, Repr := blocks + [b], Repr + {b, b.mem};
      assert Valid();
      assert Mems() == mems + [b.mem[..]];
      assert Lives() == lives + [b.Live()];
      assert Spares() == spares + [b.Spare()];
    }

    /** Maps a new block at `at` and takes its first payload. */
    method AddBlock(size: int, at: nat) returns (addr: int, ghost a: (int, int, int))
      requires Valid() && size % 8 == 0 && 8 <= size < 0x7FFF_FFE0 && MayMap(at, MapSize(size))
      requires RoundSize(size) == size
      modifies this, Repr
      ensures Valid() && Kept(old(Mems()), old(Lives()), {}) && fresh(Repr - old(Repr))
      ensures |blocks| == |old(blocks)| + 1 && blocks[..|old(blocks)|] == old(blocks)
      ensures Allocs() == old(Allocs()) + {a} && a !in old(Allocs()) && addr == Address(a)
      ensures size <= 8 * a.2 <= size + 128 && Spares()[..|old(blocks)|] == old(Spares())
      ensures a.0 == |old(blocks)| && a.1 == 1
      ensures Mapped(|old(blocks)|, a, size, at)
    {
      hide Chain, Merged, FirstAt, Largest, BlockChain.Live, Ordered, Block.Linked, Block.Valid, KeptOver, RoundSize;
      hide BlockChain.Spare, Block.Started, Served, Behind, MapSize;
      ghost var mems, lives := Mems(), Lives();
      var b, p, n := NewBlock(size, at);
      MapSizeIs(size);
      Append(b);
      a := (|lives|, p, n);
      addr := at + 8 * p;
      KeptSame(mems, lives, {}, Mems());
      AllOfGrows(lives, (p, n));
      AllOfAt(lives, a);
    }

    static lemma MapSizeIs(size: nat)
      requires size % 8 == 0 && RoundSize(size) == size
      ensures MapSize(size) / 8 * 8 == if size + 16 > 0x10000 then size + 16 else 0x10000
    {}

    /** The first block that can serve `size` bytes, or the number of blocks. */
    method FindBlock(size: int) returns (i: nat)
      requires Valid() && size > 0
      ensures i <= |blocks| && (forall j | 0 <= j < i :: !blocks[j].Fits(size))
      ensures forall j | 0 <= j < i :: NoFit(Spares()[j], size)
      ensures i < |blocks| ==> size <= blocks[i].maxfree && blocks[i].Fits(size)
    {
      hide Block.Fits, NoFit;
      i := 0;
      while i < |blocks| && blocks[i].maxfree < size
        invariant i <= |blocks| && forall j | 0 <= j < i :: !blocks[j].Fits(size) && NoFit(Spares()[j], size)
      {
        blocks[i].FitsIndexed(size, true);
        blocks[i].FitsSpare(size);
        i := i + 1;
      }
      if i < |blocks| {
        blocks[i].FitsIndexed(size, true);
      }
    }

    /** Allocates at least `size` bytes; maps a new block only when no block can serve. */
    method Malloc(size0: nat, at: nat) returns (addr: int, ghost a: (int, int, int))
      requires Valid() && size0 > 0 && RoundSize(size0) < 0x7FFF_FFE0 && MayMap(at, MapSize(size0))
      modifies this, Repr
      ensures Valid() && Kept(old(Mems()), old(Lives()), {}) && fresh(Repr - old(Repr))
      ensures |old(blocks)| <= |blocks| && blocks[..|old(blocks)|] == old(blocks)
      ensures Allocs() == old(Allocs()) + {a} && a !in old(Allocs()) && addr == Address(a)
      ensures RoundSize(size0) <= 8 * a.2 <= RoundSize(size0) + 128
      ensures a.0 < |old(blocks)| ==>
          blocks == old(blocks) && ServedFirst(old(Spares()), Spares(), RoundSize(size0), a)
      ensures a.0 >= |old(blocks)| ==>
          Mapped(|old(blocks)|, a, RoundSize(size0), at) && Spares()[..|old(blocks)|] == old(Spares())
      ensures |blocks| == |old(blocks)| + if forall i | 0 <= i < |old(blocks)| ::
          !old(blocks[i].Fits(RoundSize(size0))) then 1 else 0
    {
      hide Block.Fits, Kept, Apart, Block.Valid, MapSize, SameCells, CutFrom, Mapped, NoFit;
      RoundSizeLeast(size0);
      var size := RoundSize(size0);
      assert MapSize(size) == MapSize(size0) by { SameMap(size0); }
      var i := FindBlock(size);
      if i < |blocks| {
        addr, a := TakeFrom(i, size);
      } else {
        addr, a := AddBlock(size, at);
      }
    }

    static lemma SameMap(size: nat)
      requires size > 0
      ensures MapSize(RoundSize(size)) == MapSize(size)
    {
      RoundSizeLeast(size);
    }

    predicate Inside(i: int, addr: int)
      requires 0 <= i < |blocks|
      reads this
    {
      blocks[i].base < addr < blocks[i].base + 8 * blocks[i].mem.Length
    }

    /** The block that addr lies in, or the number of blocks. */
    method Locate(addr: int) returns (i: nat)
      requires Valid()
      ensures i <= |blocks| && (i < |blocks| ==> Inside(i, addr))
      ensures forall j | 0 <= j < |blocks| && j != i :: !Inside(j, addr)
    {
      i := 0;
      while i < |blocks|
        invariant i <= |blocks| && forall j | 0 <= j < i :: !Inside(j, addr)
      {
        if addr > blocks[i].base && addr < blocks[i].base + 8 * blocks[i].mem.Length {
          forall j | i < j < |blocks| ensures !Inside(j, addr) { assert Apart(blocks[i], blocks[j]); }
          return;
        }
        i := i + 1;
      }
    }

    /** A live allocation is found in its block. */
    lemma AllocInside(a: (int, int, int))
      requires Valid() && a in Allocs()
      ensures 0 <= a.0 < |blocks| && (a.1, a.2) in blocks[a.0].Live() && Inside(a.0, Address(a))
    {
      AllOfAt(Lives(), a);
      AllocsDisjoint(a, a);
    }

    /** What a caller may pass: a live allocation, or an address in no block at all. */
    ghost predicate MayPass(addr: int, live: bool, a: (int, int, int))
      requires Valid()
      reads this, Repr
    {
      if live then a in Allocs() && addr == Address(a)
        else addr == 0 || forall i | 0 <= i < |blocks| :: !Inside(i, addr)
    }

    /** Gives the live allocation `a` of block i back. */
    method ReleaseIn(i: nat, addr: int, ghost a: (int, int, int))
      requires Valid() && a in Allocs() && i == a.0 && addr == Address(a)
      modifies Repr
      ensures Valid() && blocks == old(blocks) && Repr == old(Repr) && Kept(old(Mems()), old(Lives()), {a})
      ensures Allocs() == old(Allocs()) - {a}
    {
      hide Chain, Merged, FirstAt, Largest, BlockChain.Live, Ordered, Block.Linked, SameCells;
      AllocInside(a);
      ghost var mems, lives := Mems(), Lives();
      blocks[i].Give((addr - blocks[i].base) / 8, a.2, true);
      assert Valid();
      assert Staying(lives, i, {a}) == lives[i] - {(a.1, a.2)};
      StepOn(i, mems, lives, {a});
      AllOfLoses(lives, i, (a.1, a.2));
    }

    /** Gives a live allocation back; ignores NULL and addresses it knows nothing of. */
    method Release(addr: int, ghost live: bool, ghost a: (int, int, int))
      requires Valid() && MayPass(addr, live, a)
      modifies Repr
      ensures Valid() && blocks == old(blocks) && Repr == old(Repr) && Kept(old(Mems()), old(Lives()), {a})
      ensures Allocs() == if live then old(Allocs()) - {a} else old(Allocs())
    {
      hide KeptOver, Valid, AllOf, Lives, Mems;
      KeptSame(Mems(), Lives(), {a}, Mems());
      if live { AllocInside(a); assert Inside(a.0, addr); }
      if addr == 0 {
        return;
      }
      var i := Locate(addr);
      assert live ==> Inside(a.0, addr) && i == a.0;
      if i < |blocks| {
        ReleaseIn(i, addr, a);
      }
    }

    /** The cells of a live allocation. */
    ghost function Contents(a: (int, int, int)): seq<Cell>
      requires Valid()
      reads this, Repr
    {
      CellsOf(Mems(), a)
    }

    lemma AllocBounds(a: (int, int, int))
      requires Valid() && a in Allocs()
      ensures 0 <= a.0 < |blocks| && 0 < a.1 && 0 < a.2 && a.1 + a.2 < blocks[a.0].mem.Length
      ensures (a.1, a.2) in blocks[a.0].Live()
    {
      AllOfAt(Lives(), a);
      LiveDisjoint(blocks[a.0].mem[..], blocks[a.0].marks, (a.1, a.2), (a.1, a.2));
    }

    /** Copies the whole of one live allocation to the start of another. */
    method Copy(i: nat, j: nat, from: int, to: int, cells: nat, ghost a: (int, int, int), ghost b: (int, int, int))
      requires Valid() && a in Allocs() && b in Allocs() && a != b && a.2 <= b.2
      requires i == a.0 && j == b.0 && from == a.1 && to == b.1 && cells == a.2
      modifies Repr
      ensures Valid() && blocks == old(blocks) && Repr == old(Repr) && Allocs() == old(Allocs())
      ensures Lives() == old(Lives())
      ensures Kept(old(Mems()), old(Lives()), {b}) && old(Contents(a)) <= Contents(b)
    {
      hide BlockChain.Live, Block.Linked, Ordered, Block.Valid, SameCells;
      AllocBounds(a);
      AllocBounds(b);
      ghost var mems, lives, marks := Mems(), Lives(), blocks[j].marks;
      CopyPayload(blocks[i], (from, cells), blocks[j], to, (b.1, b.2));
      assert Valid();
      OnlyPayload(mems[j], blocks[j].mem[..], marks, (b.1, b.2));
      assert Staying(lives, j, {b}) == lives[j] - {(b.1, b.2)};
      StepOn(j, mems, lives, {b});
      assert Lives() == lives;
      assert Contents(b)[..cells] == blocks[j].mem[to..to + cells];
    }

    /** The memcpy of customRealloc: the size copied is that of the old sub-block. */
    method CopyOut(addr: int, i: nat, newAddr: int, ghost a: (int, int, int), ghost b: (int, int, int))
      requires Valid() && a in Allocs() && b in Allocs() && a != b && a.2 <= b.2
      requires addr == Address(a) && i == a.0 && newAddr == Address(b)
      modifies Repr
      ensures Valid() && blocks == old(blocks) && Repr == old(Repr) && Allocs() == old(Allocs())
      ensures Lives() == old(Lives())
      ensures Kept(old(Mems()), old(Lives()), {b}) && old(Contents(a)) <= Contents(b)
    {
      hide Chain, Merged, FirstAt, Largest, BlockChain.Live, Ordered, Block.Linked, Kept, AllOf, Contents;
      AllocBounds(a);
      AllocInside(b);
      var from := (addr - blocks[i].base) / 8;
      var bytes := blocks[i].SizeBlock(from, a.2);
      var j := Locate(newAddr);
      assert Inside(b.0, newAddr) && j == b.0;
      Copy(i, j, from, (newAddr - blocks[j].base) / 8, bytes / 8, a, b);
    }

    /** Realloc when the allocation cannot stay: a new one, the copy, and the release. */
    method Move(addr: int, i: nat, size: nat, at: nat, ghost a: (int, int, int))
      returns (r: int, ghost b: (int, int, int))
      requires Valid() && a in Allocs() && addr == Address(a) && i == a.0
      requires 0 < size == RoundSize(size) < 0x7FFF_FFE0 && 8 * a.2 < size && MayMap(at, MapSize(size))
      modifies this, Repr
      ensures Valid() && fresh(Repr - old(Repr))
      ensures |old(blocks)| <= |blocks| && blocks[..|old(blocks)|] == old(blocks)
      ensures Allocs() == old(Allocs()) - {a} + {b} && b !in old(Allocs()) && r == Address(b)
      ensures size <= 8 * b.2 <= size + 128
      ensures Kept(old(Mems()), old(Lives()), {a}) && old(Contents(a)) <= Contents(b)
    {
      hide RoundSize, AllOf, KeptOver, CellsOf, Valid, MayMap, MapSize, Lives, Mems, ServedFirst, Mapped;
      ghost var m0, l0 := Mems(), Lives();
      AllocInside(a);
      r, b := Malloc(size, at);
      ghost var m1, l1 := Mems(), Lives();
      KeptAt(m0, l0, {}, m1, a);
      CopyOut(addr, i, r, a, b);
      ghost var m2, l2 := Mems(), Lives();
      KeptTrans(m0, l0, {}, m1, l1, {b}, m2, {});
      Release(addr, true, a);
      KeptTrans(m0, l0, {}, m2, l2, {a}, Mems(), {a});
      KeptAt(m2, l2, {a}, Mems(), b);
    }

    /** Whether the allocation may stay where it is; then the index is looked up again. */
    method Stay(i: nat, addr: int, size: nat, ghost a: (int, int, int)) returns (ok: bool)
      requires Valid() && a in Allocs() && addr == Address(a) && i == a.0
      modifies Repr
      ensures ok <==> size <= 8 * a.2
      ensures Valid() && blocks == old(blocks) && Repr == old(Repr) && Mems() == old(Mems()) && Lives() == old(Lives())
    {
      hide Chain, Merged, FirstAt, Largest, BlockChain.Live, Ordered;
      AllocBounds(a);
      var p := (addr - blocks[i].base) / 8;
      ghost var mems, lives := Mems(), Lives();
      ok := blocks[i].ExpandBlock(p, size, a.2);
      if ok {
        blocks[i].Refresh(p, size, a.2);
      }
      assert Valid();
      assert Lives() == lives;
    }

    /** Gives an allocation of at least `size0` bytes that begins with all that the old one
        held; every other live allocation is as it was. It moves only when it is too small. */
    method Realloc(addr: int, size0: nat, at: nat, ghost live: bool, ghost a: (int, int, int))
      returns (r: int, ghost b: (int, int, int))
      requires Valid() && MayPass(addr, live, a) && size0 > 0 && RoundSize(size0) < 0x7FFF_FFE0
      requires MayMap(at, MapSize(size0))
      modifies this, Repr
      ensures Valid() && fresh(Repr - old(Repr)) && b in Allocs() && r == Address(b) && 8 * b.2 >= RoundSize(size0)
      ensures |old(blocks)| <= |blocks| && blocks[..|old(blocks)|] == old(blocks)
      ensures !live ==> Allocs() == old(Allocs()) + {b} && b !in old(Allocs()) && Kept(old(Mems()), old(Lives()), {})
      ensures live ==>
          Allocs() == old(Allocs()) - {a} + {b} && Kept(old(Mems()), old(Lives()), {a}) &&
            old(Contents(a)) <= Contents(b)
      ensures live ==> if RoundSize(size0) <= 8 * a.2 then r == addr && b == a else b !in old(Allocs())
      ensures b !in old(Allocs()) ==> 8 * b.2 <= RoundSize(size0) + 128
    {
      hide RoundSize, AllOf, KeptOver, CellsOf, Valid, MapSize, Lives, Mems, ServedFirst, Mapped;
      if live { AllocInside(a); assert Inside(a.0, addr); }
      if addr == 0 {
        r, b := Malloc(size0, at);
        return;
      }
      RoundSizeLeast(size0);
      SameMap(size0);
      var size := RoundSize(size0);
      var i := Locate(addr);
      assert live ==> Inside(a.0, addr) && i == a.0;
      if i < |blocks| {
        var ok := Stay(i, addr, size, a);
        if ok {
          r, b := addr, a;
          KeptSame(Mems(), Lives(), {a}, Mems());
        } else {
          r, b := Move(addr, i, size, at, a);
        }
      } else {
        r, b := Malloc(size, at);
      }
    }

    /** The bytes of the first k blocks: all of them, and those in free or in used sub-blocks. */
    ghost function Bytes(k: nat): int
      requires Valid() && k <= |blocks|
      reads this, Repr
    {
      if k == 0 then 0 else Bytes(k - 1) + 8 * blocks[k - 1].mem.Length
    }

    ghost function BytesIf(k: nat, free: bool): int
      requires Valid() && k <= |blocks|
      reads this, Repr
    {
      if k == 0 then 0
      else
        var b := blocks[k - 1];
        BytesIf(k - 1, free) + Block.SizeIf(b.mem[..], b.marks, |b.marks| - 1, free)
    }

    ghost function MarkBytes(k: nat): int
      requires Valid() && k <= |blocks|
      reads this, Repr
    {
      if k == 0 then 0 else MarkBytes(k - 1) + MARK * |blocks[k - 1].marks|
    }

    /** No free sub-block of the first k blocks is larger than v, and one is that large. */
    ghost predicate LargestFree(k: nat, v: int)
      requires Valid() && k <= |blocks|
      reads this, Repr
    {
      (forall i | 0 <= i < k :: blocks[i].maxfree <= v) && (v == 0 || exists i :: 0 <= i < k && blocks[i].maxfree == v)
    }

    /** The allocator's own check accepts every block, and the sums that it shows add up: what is
        free, what is in use and the marks are all there is. */
    method TestAllBlocks() returns (coherent: bool, total: int, fragmentedFree: int, maxFree: int)
      requires Valid()
      ensures coherent
      ensures total == Bytes(|blocks|) && fragmentedFree == BytesIf(|blocks|, true) && LargestFree(|blocks|, maxFree)
      ensures total == fragmentedFree + BytesIf(|blocks|, false) + MarkBytes(|blocks|)
    {
      hide Merged, Largest, Block.Valid, FirstAt, Valid, BlockOK, Block.SizeIf, Bytes, BytesIf, LargestFree;
      SumsStart();
      coherent, total, fragmentedFree, maxFree := true, 0, 0, 0;
      LargestStart();
      var i := 0;
      while i < |blocks|
        invariant 0 <= i <= |blocks| && coherent && LargestFree(i, maxFree)
        invariant total == Bytes(i) && fragmentedFree == BytesIf(i, true)
      {
        var b := blocks[i];
        BlockAt(i);
        var ret := b.PrintBlockCoherent();
        coherent := coherent && ret;
        total := total + 8 * b.mem.Length;
        LargestStep(i, maxFree);
        if maxFree < b.maxfree {
          maxFree := b.maxfree;
        }
        var free := b.FreeBytes();
        fragmentedFree := fragmentedFree + free;
        SumsStep(i);
        i := i + 1;
      }
      AllAddUp(|blocks|);
    }

    lemma SumsStep(i: nat)
      requires Valid() && i < |blocks|
      ensures Bytes(i + 1) == Bytes(i) + 8 * blocks[i].mem.Length && blocks[i].Linked()
      ensures var b := blocks[i];
          BytesIf(i + 1, true) == BytesIf(i, true) + Block.SizeIf(b.mem[..], b.marks, |b.marks| - 1, true)
    {
      BlockAt(i);
      hide Block.SizeIf, Merged;
    }

    /** Free and used sub-blocks and marks are all there is. */
    lemma {:induction false} AllAddUp(k: nat)
      requires Valid() && k <= |blocks|
      ensures Bytes(k) == BytesIf(k, true) + BytesIf(k, false) + MarkBytes(k)
    {
      hide Block.SizeIf, Merged;
      if k == 0 {
      } else {
        AllAddUp(k - 1);
        BlockAt(k - 1);
        blocks[k - 1].BytesAddUp();
      }
    }

    lemma BlockAt(i: int)
      requires Valid() && 0 <= i < |blocks|
      ensures var b := blocks[i];
              && b.Linked() && b.first in b.marks && b.maxfree >= 0
              && Merged(b.mem[..], b.marks) && FirstAt(b.mem[..], b.marks, b.first, true) &&
                Largest(b.mem[..], b.marks, b.maxfree)
    {
      assert BlockOK(blocks[i]);
    }

    lemma SumsStart()
      requires Valid()
      ensures Bytes(0) == 0 && BytesIf(0, true) == 0
    {}

    lemma LargestStart()
      requires Valid()
      ensures LargestFree(0, 0)
    {}

    lemma LargestStep(i: nat, v: int)
      requires Valid() && i < |blocks| && LargestFree(i, v)
      ensures LargestFree(i + 1, if v < blocks[i].maxfree then blocks[i].maxfree else v)
    {
      BlockAt(i);
      hide Valid;
      if v != 0 && v >= blocks[i].maxfree {
        var j :| 0 <= j < i && blocks[j].maxfree == v;
        assert 0 <= j < i + 1;
      }
    }

    /** A block that no live allocation lies in is one single free sub-block. */
    lemma BlockWithoutAllocs(i: int)
      requires Valid() && 0 <= i < |blocks| && forall a | a in Allocs() :: a.0 != i
      ensures var b := blocks[i];
          b.marks == [0, b.mem.Length - 1] && Free(b.mem[..], b.marks, 0) && b.maxfree == 8 * b.mem.Length - 16
    {
      var b := blocks[i];
      if p :| p in b.Live() {
        AllOfAt(Lives(), (i, p.0, p.1));
        assert false;
      }
      b.EmptyIsOneFree();
      LargestUnique(b.mem[..], b.marks, b.maxfree, SizeOf(b.marks, 0));
    }

    /** ptrs are the addresses of the live allocations, which `live` lists, each once. */
    ghost predicate Tracks(ptrs: seq<int>, live: seq<(int, int, int)>)
      requires Valid()
      reads this, Repr
    {
      Listed(live, Allocs()) && |ptrs| == |live| && forall k | 0 <= k < |live| ::
        live[k].0 < |blocks| && ptrs[k] == Address(live[k])
    }

    method StepObtain(size: nat, at: nat, ptrs0: seq<int>, ghost live0: seq<(int, int, int)>)
      returns (ptrs: seq<int>, ghost live: seq<(int, int, int)>)
      requires Valid() && Tracks(ptrs0, live0) && size > 0 && RoundSize(size) < 0x7FFF_FFE0 && MayMap(at, MapSize(size))
      modifies this, Repr
      ensures Valid() && fresh(Repr - old(Repr)) && Tracks(ptrs, live)
    {
      hide RoundSize, AllOf, KeptOver, Valid, MapSize, Lives, Mems, MayMap, Listed, Allocs;
      ghost var allocs := Allocs();
      var p, a := Malloc(size, at);
      AllocInside(a);
      ListedMore(live0, allocs, a);
      ptrs, live := ptrs0 + [p], live0 + [a];
    }

    method StepResize(which: nat, size: nat, at: nat, ptrs0: seq<int>, ghost live0: seq<(int, int, int)>)
      returns (ptrs: seq<int>, ghost live: seq<(int, int, int)>)
      requires Valid() && Tracks(ptrs0, live0) && which < |ptrs0| && size > 0 && RoundSize(size) < 0x7FFF_FFE0
      requires MayMap(at, MapSize(size))
      modifies this, Repr
      ensures Valid() && fresh(Repr - old(Repr)) && Tracks(ptrs, live)
    {
      hide RoundSize, AllOf, KeptOver, CellsOf, Valid, MapSize, Lives, Mems, MayMap, Listed, Allocs;
      ghost var allocs := Allocs();
      ListedAt(live0, allocs, which);
      var p, a := Realloc(ptrs0[which], size, at, true, live0[which]);
      AllocInside(a);
      ListedSwap(live0, allocs, which, a);
      ptrs, live := ptrs0[which := p], live0[which := a];
    }

    method StepDiscard(which: nat, ptrs0: seq<int>, ghost live0: seq<(int, int, int)>)
      returns (ptrs: seq<int>, ghost live: seq<(int, int, int)>)
      requires Valid() && Tracks(ptrs0, live0) && which < |ptrs0|
      modifies Repr
      ensures Valid() && Repr == old(Repr) && Tracks(ptrs, live)
    {
      hide AllOf, KeptOver, Valid, Lives, Mems, Listed, Allocs;
      ghost var allocs := Allocs();
      ListedAt(live0, allocs, which);
      Release(ptrs0[which], true, live0[which]);
      ListedLess(live0, allocs, which);
      ptrs, live := ptrs0[..which] + ptrs0[which + 1..], live0[..which] + live0[which + 1..];
    }

    /** Any sequence of calls on live pointers. At the end the allocator's check accepts every
        block, and the pointers given out lead to distinct, disjoint allocations. */
    method Run(steps: seq<HeapStep>) returns (ptrs: seq<int>, coherent: bool, ghost live: seq<(int, int, int)>)
      requires Valid() && Allocs() == {}
      modifies this, Repr
      ensures Valid() && coherent && fresh(Repr - old(Repr)) && Tracks(ptrs, live)
      ensures forall j, k | 0 <= j < k < |live| ::
          ptrs[j] + 8 * live[j].2 <= ptrs[k] || ptrs[k] + 8 * live[k].2 <= ptrs[j]
    {
      hide RoundSize, Valid, MapSize, MayMap, Listed, Allocs;
      ptrs, live := [], [];
      ListedNone(Allocs());
      var i := 0;
      while i < |steps|
        invariant 0 <= i <= |steps| && Valid() && fresh(Repr - old(Repr)) && Tracks(ptrs, live)
      {
        match steps[i] {
          case Obtain(size, at) =>
            if size > 0 && RoundSize(size) < 0x7FFF_FFE0 && MayMap(at, MapSize(size)) {
              ptrs, live := StepObtain(size, at, ptrs, live);
            }
          case Resize(which, size, at) =>
            if which < |ptrs| && size > 0 && RoundSize(size) < 0x7FFF_FFE0 && MayMap(at, MapSize(size)) {
              ptrs, live := StepResize(which, size, at, ptrs, live);
            }
          case Discard(which) =>
            if which < |ptrs| {
              ptrs, live := StepDiscard(which, ptrs, live);
            }
        }
        i := i + 1;
      }
      var total, free, largest;
      coherent, total, free, largest := TestAllBlocks();
      forall j, k | 0 <= j < k < |live|
        ensures ptrs[j] + 8 * live[j].2 <= ptrs[k] || ptrs[k] + 8 * live[k].2 <= ptrs[j]
      {
        ListedAt(live, Allocs(), j);
        ListedAt(live, Allocs(), k);
        ListedApart(live, Allocs(), j, k);
        AllocsDisjoint(live[j], live[k]);
      }
    }
  }

  /** live lists the allocations, each once. */
  ghost predicate Listed(live: seq<(int, int, int)>, allocs: set<(int, int, int)>) {
    (forall a :: a in allocs <==> a in live) && forall j, k | 0 <= j < k < |live| :: live[j] != live[k]
  }

  lemma ListedNone(allocs: set<(int, int, int)>)
    requires allocs == {}
    ensures Listed([], allocs)
  {}

  lemma ListedAt(live: seq<(int, int, int)>, allocs: set<(int, int, int)>, k: int)
    requires Listed(live, allocs) && 0 <= k < |live|
    ensures live[k] in allocs
  {}

  lemma ListedApart(live: seq<(int, int, int)>, allocs: set<(int, int, int)>, j: int, k: int)
    requires Listed(live, allocs) && 0 <= j < k < |live|
    ensures live[j] != live[k]
  {}

  lemma ListedMore(live: seq<(int, int, int)>, allocs: set<(int, int, int)>, a: (int, int, int))
    requires Listed(live, allocs) && a !in allocs
    ensures Listed(live + [a], allocs + {a})
  {}

  lemma ListedSwap(live: seq<(int, int, int)>, allocs: set<(int, int, int)>, w: nat, b: (int, int, int))
    requires Listed(live, allocs) && w < |live| && (b !in allocs || b == live[w])
    ensures Listed(live[w := b], allocs - {live[w]} + {b})
  {
    var now := live[w := b];
    forall a ensures a in allocs - {live[w]} + {b} <==> a in now {
      if a in allocs && a != live[w] {
        var k :| 0 <= k < |live| && live[k] == a;
        assert now[k] == a;
      }
      if a == b { assert now[w] == a; }
    }
  }

  lemma ListedLess(live: seq<(int, int, int)>, allocs: set<(int, int, int)>, w: nat)
    requires Listed(live, allocs) && w < |live|
    ensures Listed(live[..w] + live[w + 1..], allocs - {live[w]})
  {
    var now := live[..w] + live[w + 1..];
    forall a ensures a in allocs - {live[w]} <==> a in now {
      if a in allocs && a != live[w] {
        var k :| 0 <= k < |live| && live[k] == a;
        assert now[if k < w then k else k - 1] == a;
      }
      if a in now {
        var k :| 0 <= k < |now| && now[k] == a;
        assert live[if k < w then k else k + 1] == a;
      }
    }
  }

  /** A call: on the which-th of the pointers given out, in the order they were. */
  datatype HeapStep =
    | Obtain(size: nat, at: nat)
    | Resize(which: nat, size: nat, at: nat)
    | Discard(which: nat)
}
