/** The map of translated code (src/custommem.c): AllocDynarecMap, FreeDynarecMap and
    FindDynablockFromNativeAddress over chunks kept in groups of 64. Mapping new memory is a
    parameter: the address at which the system would map, or 0 when it would fail. */
module CodeMap {
  import opened Allocations
  import opened BlockChain
  import opened BlockIndex
  import opened Blocks

  const NCHUNK := 64
  const DYNMMAPSZ := 2 * 1024 * 1024

  /** What the search for an address reads: nothing, the first word of a sub-block, or (from
      inside the end mark) whatever lies behind the chunk. */
  datatype Found = Nothing | Owner(word: Word) | Beyond

  function AlignUp(n: nat, page: nat): nat
    requires page > 0
  {
    (n + (page - 1)) / page * page
  }

  function ChunkSize(size: nat, page: nat): nat
    requires page > 0
  {
    var sz := RoundSize(size) + 2 * MARK;
    AlignUp(if sz > DYNMMAPSZ then sz else DYNMMAPSZ, page)
  }

  /** A chunk holds the request with its marks, and 2 MB at least; it is whole pages, and no page
      more than that. */
  lemma ChunkFits(size: nat, page: nat)
    requires size > 0 && page > 0 && page % 8 == 0
    ensures ChunkSize(size, page) >= RoundSize(size) + 2 * MARK && ChunkSize(size, page) % 8 == 0
    ensures ChunkSize(size, page) >= 0x200000 && exists q: nat :: ChunkSize(size, page) == q * page
    ensures ChunkSize(size, page) < RoundSize(size) + 2 * MARK + page || ChunkSize(size, page) < 0x200000 + page
  {
    var n := if RoundSize(size) + 2 * MARK > DYNMMAPSZ then RoundSize(size) + 2 * MARK else DYNMMAPSZ;
    var q := (n + (page - 1)) / page;
    assert (n + (page - 1)) == q * page + (n + (page - 1)) % page;
    assert page == page / 8 * 8;
    MultipleOf8(q, page / 8);
  }

  lemma MultipleOf8(q: nat, m: nat)
    ensures q * (m * 8) % 8 == 0
  {
    assert q * (m * 8) == (q * m) * 8;
  }

  function OwnerIn(mems: seq<seq<Cell>>, a: (int, int, int)): Word {
    var cells := CellsOf(mems, a);
    if cells == [] then NONE else cells[0].prev
  }

  ghost function OwnersIn(mems: seq<seq<Cell>>, allocs: set<(int, int, int)>): map<(int, int, int), Word> {
    map a | a in allocs :: OwnerIn(mems, a)
  }

  /** What stays of the owners when everything live was kept. */
  lemma OwnersStay(m0: seq<seq<Cell>>, l0: seq<set<(int, int)>>, gone: set<(int, int, int)>, m: seq<seq<Cell>>,
                   allocs: set<(int, int, int)>)
    requires |m0| == |l0| && KeptOver(m0, l0, gone, m) && AllOf(l0) - gone <= allocs <= AllOf(l0) + gone
    ensures OwnersIn(m, allocs) - gone == OwnersIn(m0, AllOf(l0)) - gone
  {
    forall a | a in AllOf(l0) - gone ensures OwnerIn(m, a) == OwnerIn(m0, a) { KeptAt(m0, l0, gone, m, a); }
  }

  lemma OwnersSame(m0: seq<seq<Cell>>, l0: seq<set<(int, int)>>, m: seq<seq<Cell>>)
    requires |m0| == |l0| && KeptOver(m0, l0, {}, m)
    ensures OwnersIn(m, AllOf(l0)) == OwnersIn(m0, AllOf(l0))
  {
    OwnersStay(m0, l0, {}, m, AllOf(l0));
    assert OwnersIn(m, AllOf(l0)) - {} == OwnersIn(m, AllOf(l0));
  }

  lemma OwnersGain(m0: seq<seq<Cell>>, l0: seq<set<(int, int)>>, m: seq<seq<Cell>>, a: (int, int, int))
    requires |m0| == |l0| && KeptOver(m0, l0, {}, m) && a !in AllOf(l0)
    ensures OwnersIn(m, AllOf(l0) + {a}) - {a} == OwnersIn(m0, AllOf(l0))
  {
    OwnersSame(m0, l0, m);
    assert OwnersIn(m, AllOf(l0) + {a}) - {a} == OwnersIn(m, AllOf(l0));
  }

  lemma OwnersLose(m0: seq<seq<Cell>>, l0: seq<set<(int, int)>>, m: seq<seq<Cell>>, a: (int, int, int))
    requires |m0| == |l0| && KeptOver(m0, l0, {a}, m)
    ensures OwnersIn(m, AllOf(l0) - {a}) == OwnersIn(m0, AllOf(l0)) - {a}
  {
    OwnersStay(m0, l0, {a}, m, AllOf(l0) - {a});
    assert OwnersIn(m, AllOf(l0) - {a}) - {a} == OwnersIn(m, AllOf(l0) - {a});
  }

  lemma OwnersSet(m0: seq<seq<Cell>>, l0: seq<set<(int, int)>>, m: seq<seq<Cell>>, a: (int, int, int), owner: Word)
    requires |m0| == |l0| && KeptOver(m0, l0, {a}, m) && a in AllOf(l0) && OwnerIn(m, a) == owner
    ensures OwnersIn(m, AllOf(l0)) == OwnersIn(m0, AllOf(l0))[a := owner]
  {
    OwnersStay(m0, l0, {a}, m, AllOf(l0));
    forall x | x in AllOf(l0) - {a} ensures OwnerIn(m, x) == OwnerIn(m0, x) { KeptAt(m0, l0, {a}, m, x); }
  }

  /** The mmaplist_t nodes are laid end to end: a node is a group of 64 chunks, the next node
      the group behind it. An unused chunk is null. */
  class Map {
    const page: nat
    var chunks: seq<Block?>
    ghost var Repr: set<object>

    ghost predicate Valid()
      reads this, Repr
    {
      && this !in Repr && page > 0 && page % 8 == 0 && |chunks| % NCHUNK == 0
      && (forall i, j | 0 <= i < j < |chunks| ::
        chunks[j] != null ==> chunks[i] != null && chunks[i] != chunks[j] && Apart(chunks[i], chunks[j]))
      && (forall i | 0 <= i < |chunks| ::
        chunks[i] != null ==> chunks[i] in Repr && chunks[i].mem in Repr && BlockOK(chunks[i]))
    }

    static ghost predicate BlockOK(b: Block)
      reads b, b.mem
    {
      b.base % 8 == 0 && b.base > 0 && b.Valid(false)
    }

    static predicate Apart(a: Block, b: Block) {
      a.mem != b.mem && (a.base + 8 * a.mem.Length <= b.base || b.base + 8 * b.mem.Length <= a.base)
    }

    ghost function Lives(): (lives: seq<set<(int, int)>>)
      requires Valid()
      reads this, Repr
      ensures |lives| == |chunks|
    {
      seq(|chunks|, i requires 0 <= i < |chunks| && Valid()
        reads this, Repr => if chunks[i] == null then {} else chunks[i].Live())
    }

    /** The free sub-blocks of every chunk. */
    ghost function Spares(): (spares: seq<set<(int, int)>>)
      requires Valid()
      reads this, Repr
      ensures |spares| == |chunks|
    {
      seq(|chunks|, i requires 0 <= i < |chunks| && Valid()
        reads this, Repr => if chunks[i] == null then {} else chunks[i].Spare())
    }

    ghost function Mems(): (mems: seq<seq<Cell>>)
      requires Valid()
      reads this, Repr
      ensures |mems| == |chunks|
    {
      seq(|chunks|, i requires 0 <= i < |chunks| && Valid()
        reads this, Repr => if chunks[i] == null then [] else chunks[i].mem[..])
    }

    ghost function Allocs(): set<(int, int, int)>
      requires Valid()
      reads this, Repr
    {
      AllOf(Lives())
    }

    /** The owner word of every live allocation: the first word of its payload. */
    ghost function Owners(): map<(int, int, int), Word>
      requires Valid()
      reads this, Repr
    {
      OwnersIn(Mems(), Allocs())
    }

    function Address(a: (int, int, int)): int
      reads this
    {
      if 0 <= a.0 < |chunks| && chunks[a.0] != null then chunks[a.0].base + 8 * a.1 else 0
    }

    constructor (page: nat)
      requires page > 0 && page % 8 == 0
      ensures Valid() && Owners() == map[] && Allocs() == {} && fresh(Repr) && chunks == []
    {
      this.page := page;
      chunks, Repr := [], {};
    }

    /** A fresh mapping of `bytes` at `at` overlaps no chunk. */
    ghost predicate MayMap(at: nat, bytes: nat)
      reads this
    {
      at % 8 == 0 && forall i | 0 <= i < |chunks| && chunks[i] != null ::
        at + bytes <= chunks[i].base || chunks[i].base + 8 * chunks[i].mem.Length <= at
    }

    /** What a step on chunk i alone does to the whole map. */
    lemma StepOn(i: int, mems: seq<seq<Cell>>, lives: seq<set<(int, int)>>, gone: set<(int, int, int)>)
      requires Valid() && 0 <= i < |chunks| == |mems| == |lives| && chunks[i] != null
      requires forall j | 0 <= j < |chunks| && j != i :: Mems()[j] == mems[j] && Lives()[j] == lives[j]
      requires SameCells(mems[i], chunks[i].mem[..], Staying(lives, i, gone))
      ensures KeptOver(mems, lives, gone, Mems()) && Lives() == lives[i := chunks[i].Live()]
    {
      assert Mems()[i] == chunks[i].mem[..] && Lives()[i] == chunks[i].Live();
    }

    method TakeFrom(i: nat, size: int) returns (addr: int, ghost a: (int, int, int))
      requires Valid() && i < |chunks| && chunks[i] != null && size % 8 == 0 && 8 <= size <= chunks[i].maxfree
      modifies Repr
      ensures Valid() && KeptOver(old(Mems()), old(Lives()), {}, Mems()) && chunks == old(chunks) && Repr == old(Repr)
      ensures Allocs() == old(Allocs()) + {a} && a !in old(Allocs()) && addr == Address(a) > 0
      ensures Owners() - {a} == old(Owners())
      ensures a.0 == i && size <= 8 * a.2 <= size + 128
      ensures Spares() == old(Spares())[i := Spares()[i]] && CutFrom(old(Spares())[i], Spares()[i], size, a.1, a.2)
    {
      hide Chain, Merged, FirstAt, Largest, BlockChain.Live, SameCells, Ordered, Block.Linked, OwnersIn;
      hide BlockChain.Spare, FirstFit, Served, Behind;
      ghost var mems, lives, spares := Mems(), Lives(), Spares();
      var p, r := chunks[i].TakeCode(size);
      ghost var n := Served(size, r);
      a := (i, p, n);
      addr := chunks[i].base + 8 * p;
      assert Valid();
      assert Staying(lives, i, {}) == lives[i];
      StepOn(i, mems, lives, {});
      AllOfGains(lives, i, (p, n));
      AllOfAt(lives, a);
      AllocBounds(a);
      OwnersGain(mems, lives, Mems(), a);
    }

    lemma AllocBounds(a: (int, int, int))
      requires Valid() && a in Allocs()
      ensures 0 <= a.0 < |chunks| && chunks[a.0] != null && (a.1, a.2) in chunks[a.0].Live()
      ensures 0 < a.1 && 0 < a.2 && a.1 + a.2 < chunks[a.0].mem.Length
    {
      AllOfAt(Lives(), a);
      LiveDisjoint(chunks[a.0].mem[..], chunks[a.0].marks, (a.1, a.2), (a.1, a.2));
    }

    static method NewChunk(size: int, bytes: nat, at: nat) returns (b: Block, p: int, ghost n: int)
      requires size % 8 == 0 && 8 <= size && size + 2 * MARK <= bytes < 0x8000_0000 && bytes % 8 == 0
      ensures fresh(b) && fresh(b.mem) && b.base == at && b.mem.Length == bytes / 8 && b.Valid(false)
      ensures size <= 8 * n <= size + 128 && b.Live() == {(p, n)} && p == 1 && b.Started(size)
    {
      b := new Block(at, bytes / 8);
      p := b.StartCode(size);
      n := Served(size, b.mem.Length - 2);
      ServedEnough(size, 1, b.mem.Length - 2);
    }

    /** The chunk of allocation a is a new one at `at`, of so many bytes, and a is its first. */
    ghost predicate Mapped(a: (int, int, int), size: int, at: int, bytes: int)
      requires Valid()
      reads this, Repr
    {
      && 0 <= a.0 < |chunks| && chunks[a.0] != null && chunks[a.0].base == at && 8 * chunks[a.0].mem.Length == bytes
      && chunks[a.0].Started(size) && a.1 == 1
    }

    /** Maps a new chunk at `at` for the unused slot i and takes its first payload. */
    method AddChunk(i: nat, size: int, bytes: nat, at: nat) returns (addr: int, ghost a: (int, int, int))
      requires Valid() && i < |chunks| && (forall j | 0 <= j < |chunks| :: j < i <==> chunks[j] != null) && at > 0
      requires MayMap(at, bytes)
      requires size % 8 == 0 && 8 <= size && size + 2 * MARK <= bytes < 0x8000_0000 && bytes % 8 == 0
      modifies this, Repr
      ensures Valid() && KeptOver(old(Mems()), old(Lives()), {}, Mems()) && fresh(Repr - old(Repr))
      ensures |chunks| == |old(chunks)| && chunks[..i] == old(chunks)[..i] && chunks[i] != null
      ensures Allocs() == old(Allocs()) + {a} && a !in old(Allocs()) && addr == Address(a) > 0
      ensures Owners() - {a} == old(Owners())
      ensures a.0 == i && size <= 8 * a.2 <= size + 128 && Mapped(a, size, at, bytes)
      ensures Spares()[..i] == old(Spares())[..i]
    {
      hide Chain, Merged, FirstAt, Largest, BlockChain.Live, Ordered, Block.Linked, Block.Valid, OwnersIn;
      hide BlockChain.Spare, Block.Started, Served, Behind;
      ghost var mems, lives := Mems(), Lives();
      var b, p, n := NewChunk(size, bytes, at);
      Install(i, b);
      a := (i, p, n);
      addr := at + 8 * p;
      assert Lives()[i] == lives[i] + {(p, n)};
      AllOfGains(lives, i, (p, n));
      AllOfAt(lives, a);
      OwnersGain(mems, lives, Mems(), a);
    }

    /** Enters a new chunk in the unused slot i. */
    method Install(i: nat, b: Block)
      requires Valid() && i < |chunks| && (forall j | 0 <= j < |chunks| :: j < i <==> chunks[j] != null)
      requires b !in Repr && b.mem !in Repr && BlockOK(b)
      requires forall j | 0 <= j < i :: Apart(chunks[j], b)
      modifies this
      ensures Valid() && chunks == old(chunks)[i := b] && Repr == old(Repr) + {b, b.mem}
      ensures old(Lives())[i] == {} && old(Mems())[i] == []
      ensures Mems() == old(Mems())[i := b.mem[..]] && Lives() == old(Lives())[i := b.Live()]
      ensures Spares() == old(Spares())[i := b.Spare()]
    {
      hide Chain, Merged, FirstAt, Largest, BlockChain.Live, BlockChain.Spare, Ordered, Block.Linked, Block.Valid;
      ghost var mems, lives, spares := Mems(), Lives(), Spares();
      chunks, Repr := chunks[i := b], Repr + {b, b.mem};
      assert Valid();
      assert forall j | 0 <= j < |chunks| && j != i ::
          chunks[j] == old(chunks)[j] && Mems()[j] == mems[j] && Lives()[j] == lives[j] && Spares()[j] == spares[j];
    }

    /** How many chunks are in use: they are the first ones. */
    ghost function Used(): (u: nat)
      requires Valid()
      reads this, Repr
      ensures u <= |chunks| && forall j | 0 <= j < |chunks| :: j < u <==> chunks[j] != null
    {
      UsedIn(chunks, |chunks|)
    }

    static ghost function UsedIn(chunks: seq<Block?>, n: nat): (u: nat)
      requires n <= |chunks| && forall i, j | 0 <= i < j < |chunks| :: chunks[j] != null ==> chunks[i] != null
      ensures u <= n && forall j | 0 <= j < n :: j < u <==> chunks[j] != null
    {
      if n == 0 then 0 else if chunks[n - 1] != null then n else UsedIn(chunks, n - 1)
    }

    /** None of the first k chunks is unused or can serve `size` bytes. */
    ghost predicate NoRoom(k: int, size: int)
      requires Valid() && 0 <= k <= |chunks|
      reads this, Repr
    {
      forall j | 0 <= j < k :: chunks[j] != null && !chunks[j].Fits(size)
    }

    lemma NoRoomStep(k: int, size: int)
      requires Valid() && 0 <= k < |chunks| && size > 0 && NoRoom(k, size)
      ensures chunks[k] != null ==> (chunks[k].Fits(size) <==> size <= chunks[k].maxfree)
      ensures chunks[k] != null && chunks[k].maxfree < size ==> NoRoom(k + 1, size)
    {
      hide Block.Fits;
      if chunks[k] != null { chunks[k].FitsIndexed(size, false); }
    }

    /** Links a new node, its 64 chunks unused. */
    method AddNode(ghost k: int, ghost size: int)
      requires Valid() && 0 <= k <= |chunks| && NoRoom(k, size)
      modifies this`chunks
      ensures Valid() && chunks == old(chunks) + seq(NCHUNK, _ => null) && NoRoom(k, size)
    {
      hide Block.Fits, BlockOK;
      chunks := chunks + seq(NCHUNK, _ => null);
    }

    lemma NoRoomStart(size: int)
      requires Valid()
      ensures NoRoom(0, size) && |chunks| % NCHUNK == 0
    {}

    /** Looks for a chunk that can serve `size` bytes or is unused, adding a node of unused
        chunks when there is no other. */
    method FindChunk(size: int) returns (i: nat)
      requires Valid() && size > 0
      modifies this`chunks
      ensures Valid() && i < |chunks| && old(chunks) <= chunks
      ensures forall j | |old(chunks)| <= j < |chunks| :: chunks[j] == null
      ensures NoRoom(i, size)
      ensures chunks[i] != null ==> size <= chunks[i].maxfree && chunks[i].Fits(size) && chunks == old(chunks)
    {
      hide Valid, NoRoom, Block.Fits;
      if chunks == [] {
        NoRoomStart(size);
        AddNode(0, size);
      }
      NoRoomStart(size);
      var list := 0;
      i := 0;
      ghost var g, h := 0, |chunks| / NCHUNK;
      while true
        invariant 0 <= i < NCHUNK && list + i < |chunks| && list + i <= |old(chunks)|
        invariant list == NCHUNK * g && |chunks| == NCHUNK * h && (chunks == old(chunks) || list + i == |old(chunks)|)
        invariant Valid() && old(chunks) <= chunks && forall j | |old(chunks)| <= j < |chunks| :: chunks[j] == null
        invariant NoRoom(list + i, size)
        decreases |old(chunks)| - list - i
      {
        NoRoomStep(list + i, size);
        var b := chunks[list + i];
        if b != null && b.maxfree >= size {
          return list + i;
        }
        if b == null {
          return list + i;
        }
        i := i + 1;
        if i == NCHUNK {
          i := 0;
          if list + NCHUNK == |chunks| {
            AddNode(list + NCHUNK, size);
            h := h + 1;
          }
          list, g := list + NCHUNK, g + 1;
        }
      }
    }

    /** Unused chunks hold nothing. */
    lemma Padded(m0: seq<seq<Cell>>, l0: seq<set<(int, int)>>)
      requires Valid() && |m0| == |l0| <= |chunks| && m0 <= Mems() && l0 <= Lives()
      requires forall j | |l0| <= j < |chunks| :: chunks[j] == null
      ensures AllOf(Lives()) == AllOf(l0) && KeptOver(m0, l0, {}, Mems())
    {
      KeptSame(m0, l0, {}, Mems());
      forall a ensures a in AllOf(Lives()) <==> a in AllOf(l0) {
        AllOfAt(Lives(), a);
        AllOfAt(l0, a);
        assert |l0| <= a.0 < |chunks| ==> Lives()[a.0] == {};
      }
    }

    /** The search, and what it leaves as it was. */
    method Search(size: int) returns (i: nat)
      requires Valid() && size > 0
      modifies this`chunks
      ensures Valid() && i < |chunks| && |old(chunks)| <= |chunks|
      ensures Allocs() == old(Allocs()) && Owners() == old(Owners())
      ensures chunks[i] == null <==> old(NoRoom(Used(), size))
      ensures if chunks[i] == null then forall j | 0 <= j < |chunks| :: j < i <==> chunks[j] != null
              else chunks == old(chunks) && size <= chunks[i].maxfree
      ensures forall j | 0 <= j < |chunks| && chunks[j] != null :: j < |old(chunks)| && old(chunks)[j] == chunks[j]
      ensures chunks[i] == null <==> i == old(Used())
      ensures i <= old(Used()) <= |old(chunks)| && Spares()[..i] == old(Spares())[..i]
      ensures chunks[i] != null ==> i < old(Used()) && Spares() == old(Spares())
      ensures forall j | 0 <= j < i :: NoFit(Spares()[j], size)
    {
      hide Block.Fits, BlockChain.Live, BlockChain.Spare, Block.Linked, Block.Valid, NoFit;
      ghost var m0, l0, u, f0 := Mems(), Lives(), Used(), Spares();
      i := FindChunk(size);
      assert m0 <= Mems() && l0 <= Lives() && f0 <= Spares();
      Padded(m0, l0);
      OwnersSame(m0, l0, Mems());
      NoRoomSpare(i, size);
      assert forall j | 0 <= j < |chunks| :: j < u <==> chunks[j] != null;
      FirstUnused(chunks, u, i);
    }

    static lemma FirstUnused(chunks: seq<Block?>, u: nat, i: nat)
      requires i < |chunks| && u <= |chunks| && forall j | 0 <= j < |chunks| :: j < u <==> chunks[j] != null
      requires forall j | 0 <= j < i :: chunks[j] != null
      ensures i <= u && (chunks[i] == null <==> i == u)
    {
      var j := if u < |chunks| then u else i;
      assert j < u <==> chunks[j] != null;
    }

    lemma NoRoomSpare(k: int, size: int)
      requires Valid() && 0 <= k <= |chunks| && NoRoom(k, size)
      ensures forall j | 0 <= j < k :: NoFit(Spares()[j], size)
    {
      hide Block.Fits, BlockChain.Spare, NoFit;
      forall j | 0 <= j < k ensures NoFit(Spares()[j], size) { chunks[j].FitsSpare(size); }
    }

    /** Code memory of at least `size0` bytes whose owner is not yet set. A chunk is mapped
        only when none can serve; the answer is 0 for an empty request or when that fails. */
    method AllocDynarecMap(size0: nat, at: nat) returns (r: int, ghost a: (int, int, int))
      requires Valid() && ChunkSize(size0, page) < 0x8000_0000 && MayMap(at, ChunkSize(size0, page))
      modifies this, Repr
      ensures Valid() && fresh(Repr - old(Repr)) && |old(chunks)| <= |chunks|
      ensures r == 0 ==> Owners() == old(Owners()) && Allocs() == old(Allocs())
      ensures r != 0 ==>
          && Allocs() == old(Allocs()) + {a} && a !in old(Allocs()) && r == Address(a)
          && RoundSize(size0) <= 8 * a.2 <= RoundSize(size0) + 128
      ensures r != 0 ==>
          if a.0 < old(Used()) then ServedFirst(old(Spares()), Spares(), RoundSize(size0), a)
          else
            && a.0 == old(Used()) && Mapped(a, RoundSize(size0), at, ChunkSize(size0, page))
            && Spares()[..a.0] == old(Spares())[..a.0]
      ensures r != 0 ==> Owners() - {a} == old(Owners())
      ensures r == 0 <==> size0 == 0 || (at == 0 && old(NoRoom(Used(), RoundSize(size0))))
      ensures old(!NoRoom(Used(), RoundSize(size0))) ==> chunks == old(chunks)
    {
      if size0 == 0 {
        return 0, (0, 0, 0);
      }
      RoundSizeLeast(size0);
      hide RoundSize, ChunkSize, NoRoom, AllOf, OwnersIn, Valid, Lives, Mems, Owners, Allocs, Used, Spares, Mapped;
      hide CutFrom, NoFit;
      var size := RoundSize(size0);
      var i := Search(size);
      if chunks[i] != null {
        r, a := TakeFrom(i, size);
      } else if at == 0 {
        r, a := 0, (0, 0, 0);
      } else {
        ChunkFits(size0, page);
        r, a := AddChunk(i, size, ChunkSize(size0, page), at);
      }
    }

    static predicate Inside(b: Block?, addr: int) {
      b != null && b.base < addr < b.base + 8 * b.mem.Length
    }

    /** Walks the nodes to the chunk that addr lies in; the number of chunks when there is none. */
    method Locate(addr: int) returns (k: nat)
      requires Valid()
      ensures k <= |chunks| && (k < |chunks| ==> Inside(chunks[k], addr))
      ensures forall j | 0 <= j < |chunks| && j != k :: !Inside(chunks[j], addr)
    {
      hide BlockOK;
      var list, i := 0, 0;
      while list < |chunks|
        invariant 0 <= i < NCHUNK && list % NCHUNK == 0 && (list + i < |chunks| || (list == |chunks| && i == 0))
        invariant forall j | 0 <= j < list + i :: !Inside(chunks[j], addr)
        decreases |chunks| - list - i
      {
        var b := chunks[list + i];
        if b != null && addr > b.base && addr < b.base + 8 * b.mem.Length {
          forall j | list + i < j < |chunks| && chunks[j] != null ensures !Inside(chunks[j], addr) {
            assert Apart(b, chunks[j]);
          }
          return list + i;
        }
        i := i + 1;
        if i == NCHUNK {
          i := 0;
          list := list + NCHUNK;
        }
      }
      return |chunks|;
    }

    lemma AllocInside(a: (int, int, int), addr: int)
      requires Valid() && a in Allocs() && Address(a) <= addr < Address(a) + 8 * a.2
      ensures 0 <= a.0 < |chunks| && Inside(chunks[a.0], addr)
    {
      AllocBounds(a);
    }

    method ReleaseIn(i: nat, addr: int, ghost a: (int, int, int))
      requires Valid() && a in Allocs() && i == a.0 && addr == Address(a)
      modifies Repr
      ensures Valid() && chunks == old(chunks) && Repr == old(Repr)
      ensures Allocs() == old(Allocs()) - {a} && Owners() == old(Owners()) - {a}
    {
      hide Chain, Merged, FirstAt, Largest, BlockChain.Live, Ordered, Block.Linked, SameCells, OwnersIn;
      AllocBounds(a);
      ghost var mems, lives := Mems(), Lives();
      chunks[i].Give((addr - chunks[i].base) / 8, a.2, false);
      assert Valid();
      assert Staying(lives, i, {a}) == lives[i] - {(a.1, a.2)};
      StepOn(i, mems, lives, {a});
      AllOfLoses(lives, i, (a.1, a.2));
      OwnersLose(mems, lives, Mems(), a);
    }

    /** Gives code memory back; ignores 0 and addresses in no chunk. */
    method FreeDynarecMap(addr: int, ghost live: bool, ghost a: (int, int, int))
      requires Valid()
      requires if live then a in Allocs() && addr == Address(a)
          else forall i | 0 <= i < |chunks| :: !Inside(chunks[i], addr)
      modifies Repr
      ensures Valid() && chunks == old(chunks) && Repr == old(Repr)
      ensures if live then Allocs() == old(Allocs()) - {a} && Owners() == old(Owners()) - {a}
              else Allocs() == old(Allocs()) && Owners() == old(Owners())
    {
      hide Valid, Owners, Allocs;
      if live { AllocBounds(a); AllocInside(a, addr); }
      if addr == 0 {
        return;
      }
      var i := Locate(addr);
      assert live ==> Inside(chunks[a.0], addr) && i == a.0;
      if i < |chunks| {
        ReleaseIn(i, addr, a);
      }
    }

    /** FillBlock stores the address of its dynablock in the first word of its memory. */
    method SetOwner(addr: int, owner: Word, ghost a: (int, int, int))
      requires Valid() && a in Allocs() && addr == Address(a)
      modifies Repr
      ensures Valid() && chunks == old(chunks) && Repr == old(Repr)
      ensures Allocs() == old(Allocs()) && Owners() == old(Owners())[a := owner]
    {
      hide Chain, Merged, FirstAt, Largest, BlockChain.Live, Ordered, Block.Linked, SameCells, OwnersIn, Block.Valid;
      AllocBounds(a);
      AllocInside(a, addr);
      ghost var mems, lives := Mems(), Lives();
      var i := Locate(addr);
      assert Inside(chunks[a.0], addr) && i == a.0;
      var b := chunks[i];
      var p := (addr - b.base) / 8;
      ghost var marks := b.marks;
      b.Store(p, b.mem[p].(prev := owner), (a.1, a.2), false);
      assert Valid();
      OnlyPayload(mems[i], b.mem[..], marks, (a.1, a.2));
      assert Staying(lives, i, {a}) == lives[i] - {(a.1, a.2)};
      StepOn(i, mems, lives, {a});
      assert Lives() == lives;
      assert b.mem[..] == mems[i][p := mems[i][p].(prev := owner)];
      OwnersSet(mems, lives, Mems(), a, owner);
    }

    /** What the walk to addr reads: nothing on a mark's address, otherwise the first word of
        the sub-block, or the word behind the chunk from inside the end mark. */
    static ghost predicate Walked(b: Block, addr: int, r: Found)
      requires b.Linked()
      reads b, b.mem
    {
      && (r == Beyond <==> addr > b.base + 8 * (b.mem.Length - 1))
      && (forall k | 0 <= k < |b.marks| && addr == b.base + 8 * b.marks[k] :: r == Nothing)
      && (forall k | 0 <= k < |b.marks| - 1 && b.base + 8 * b.marks[k] < addr < b.base + 8 * b.marks[k + 1] ::
            r == Owner(b.mem[b.marks[k] + 1].prev))
    }

    /** Sub-blocks do not overlap: what the walk meets first is all there is. */
    static lemma WalkedIn(b: Block, addr: int, k: int)
      requires b.Linked() && 0 <= k < |b.marks| && b.base + 8 * b.marks[k] <= addr < b.base + 8 * b.mem.Length
      requires k < |b.marks| - 1 ==> addr < b.base + 8 * b.marks[k + 1]
      ensures addr == b.base + 8 * b.marks[k] ==> Walked(b, addr, Nothing)
      ensures addr > b.base + 8 * b.marks[k] && k == |b.marks| - 1 ==> Walked(b, addr, Beyond)
      ensures addr > b.base + 8 * b.marks[k] && k < |b.marks| - 1 ==> Walked(b, addr, Owner(b.mem[b.marks[k] + 1].prev))
    {
      forall j | 0 <= j < |b.marks| && j != k
        ensures addr != b.base + 8 * b.marks[j]
        ensures j < |b.marks| - 1 ==> !(b.base + 8 * b.marks[j] < addr < b.base + 8 * b.marks[j + 1])
      {
        if j < k {
          MarksApart(b.mem[..], b.marks, j, k);
          if j + 1 < k { MarksApart(b.mem[..], b.marks, j + 1, k); }
        } else {
          MarksApart(b.mem[..], b.marks, k, j);
          if k + 1 < j { MarksApart(b.mem[..], b.marks, k + 1, j); }
        }
      }
    }

    /** Walks the marks of one chunk up to the sub-block that addr lies in. */
    static method Walk(b: Block, addr: int) returns (r: Found)
      requires b.Linked() && b.base < addr < b.base + 8 * b.mem.Length
      ensures Walked(b, addr, r)
    {
      hide Merged, LinkOK, Walked;
      var sub := 0;
      ghost var k := 0;
      while b.base + 8 * sub < addr
        invariant 0 <= k < |b.marks| && sub == b.marks[k] && b.base + 8 * sub <= addr
        decreases |b.marks| - k
      {
        ChainSteps(b.mem[..], b.marks, k);
        var n := sub + b.mem[sub].next.size / 8 + 1;
        if b.base + 8 * n > addr {
          WalkedIn(b, addr, k);
          if sub + 1 == b.mem.Length {
            return Beyond;
          }
          return Owner(b.mem[sub + 1].prev);
        }
        sub := n;
        k := k + 1;
      }
      WalkedMark(b, addr, k);
      return Nothing;
    }

    static lemma WalkedMark(b: Block, addr: int, k: int)
      requires b.Linked() && 0 <= k < |b.marks| && b.base + 8 * b.marks[k] == addr
      ensures Walked(b, addr, Nothing)
    {
      if k < |b.marks| - 1 { MarksApart(b.mem[..], b.marks, k, k + 1); }
      WalkedIn(b, addr, k);
    }

    /** The owner of the live code memory that the native address p lies in. An address in no
        chunk belongs to nothing; one strictly inside an end mark makes the source read the
        word behind the chunk. */
    method FindDynablockFromNativeAddress(p: int) returns (r: Found)
      requires Valid()
      ensures forall a | a in Allocs() && Address(a) <= p < Address(a) + 8 * a.2 :: r == Owner(Owners()[a])
      ensures (forall i | 0 <= i < |chunks| :: !Inside(chunks[i], p)) ==> r == Nothing
      ensures r == Beyond <==>
          exists i :: 0 <= i < |chunks| && Inside(chunks[i], p) && p > chunks[i].base + 8 * (chunks[i].mem.Length - 1)
    {
      hide Allocs, Walked, BlockOK, Block.Linked, OwnerIn;
      forall a | a in Allocs() && Address(a) <= p < Address(a) + 8 * a.2
        ensures 0 <= a.0 < |chunks| && Inside(chunks[a.0], p)
      {
        AllocInside(a, p);
      }
      if p == 0 {
        return Nothing;
      }
      var i := Locate(p);
      if i == |chunks| {
        return Nothing;
      }
      ChunkLinked(i);
      r := Walk(chunks[i], p);
      ReadOwner(i, p, r);
    }

    lemma ChunkLinked(i: int)
      requires Valid() && 0 <= i < |chunks| && chunks[i] != null
      ensures chunks[i].Linked()
    {}

    lemma ReadOwner(i: int, p: int, r: Found)
      requires Valid() && 0 <= i < |chunks| && Inside(chunks[i], p) && Walked(chunks[i], p, r)
      ensures r == Beyond <==> p > chunks[i].base + 8 * (chunks[i].mem.Length - 1)
      ensures forall a | a in Allocs() && a.0 == i && Address(a) <= p < Address(a) + 8 * a.2 :: r == Owner(Owners()[a])
    {
      hide Allocs, Chain, Merged, FirstAt, Largest, OwnerIn;
      forall a | a in Allocs() && a.0 == i && Address(a) <= p < Address(a) + 8 * a.2 ensures r == Owner(Owners()[a]) {
        var k := AllocMarks(a);
      }
    }

    lemma OwnerAt(a: (int, int, int))
      requires Valid() && a in Allocs()
      ensures 0 <= a.0 < |chunks| && chunks[a.0] != null && 0 < a.1 < chunks[a.0].mem.Length
      ensures Owners()[a] == chunks[a.0].mem[a.1].prev
    {
      hide Block.Valid, Live, AllOf;
      AllocBounds(a);
      assert Mems()[a.0] == chunks[a.0].mem[..];
      OwnerFirst(Mems(), a);
    }

    static lemma OwnerFirst(mems: seq<seq<Cell>>, a: (int, int, int))
      requires 0 <= a.0 < |mems| && 0 <= a.1 && 0 < a.2 && a.1 + a.2 <= |mems[a.0]|
      ensures OwnerIn(mems, a) == mems[a.0][a.1].prev
    {}

    /** The marks around an allocation, and its owner. */
    lemma AllocMarks(a: (int, int, int)) returns (k: int)
      requires Valid() && a in Allocs()
      ensures 0 <= a.0 < |chunks| && chunks[a.0] != null
      ensures var b := chunks[a.0];
              && 0 <= k < |b.marks| - 1 && Address(a) == b.base + 8 * (b.marks[k] + 1)
              && Address(a) + 8 * a.2 == b.base + 8 * b.marks[k + 1]
              && 0 <= b.marks[k] < b.mem.Length - 1 && Owners()[a] == b.mem[b.marks[k] + 1].prev
    {
      hide Valid, Block.Valid, Owners, Live, Allocs;
      OwnerAt(a);
      AllocBounds(a);
      ChunkLinked(a.0);
      var b := chunks[a.0];
      k := LivePlace(b.mem[..], b.marks, (a.1, a.2));
    }

    static lemma LivePlace(c: seq<Cell>, marks: seq<int>, p: (int, int)) returns (k: int)
      requires Ordered(c, marks) && p in Live(c, marks)
      ensures 0 <= k < |marks| - 1 && p == (marks[k] + 1, marks[k + 1] - marks[k] - 1) && 0 <= marks[k] < |c| - 1
    {
      k :| 0 <= k < |marks| - 1 && !Free(c, marks, k) && Payload(marks, k) == p;
    }
  }
}
