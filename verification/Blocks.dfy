/** One block of the allocator, its marks changed in place (src/custommem.c). Positions are
    cell indices; a payload begins one cell behind its mark. */
module Blocks {
  import opened BlockChain
  import opened BlockIndex

  class Block {
    const base: nat           // address of the block
    const mem: array<Cell>    // its memory
    var first: int            // position of the first free sub-block, or a mark before it
    var maxfree: int          // size of the largest free sub-block
    ghost var marks: seq<int>

    ghost predicate Linked(): (ok: bool)
      reads this, mem
      ensures ok ==> Ordered(mem[..], marks)
    {
      Chain(mem[..], marks) && Merged(mem[..], marks)
    }

    /** The chain is coherent and the index is right; `exact` also asks that `first` is the
        first free sub-block (or the end mark) and not merely before it. */
    ghost predicate Valid(exact: bool): (ok: bool)
      reads this, mem
      ensures ok ==> Linked()
    {
      Linked() && FirstAt(mem[..], marks, first, exact) && Largest(mem[..], marks, maxfree) && maxfree >= 0
    }

    ghost function Live(): set<(int, int)>
      requires Linked()
      reads this, mem
    {
      BlockChain.Live(mem[..], marks)
    }

    ghost function Spare(): set<(int, int)>
      requires Linked()
      reads this, mem
    {
      BlockChain.Spare(mem[..], marks)
    }

    /** Some free sub-block can serve `size` bytes. */
    ghost predicate Fits(size: int)
      requires Linked()
      reads this, mem
    {
      exists k :: 0 <= k < |marks| - 1 && Free(mem[..], marks, k) && SizeOf(marks, k) >= size
    }

    lemma FitsSpare(size: int)
      requires Linked()
      ensures Fits(size) <==> !NoFit(Spare(), size)
    {
      if k :| 0 <= k < |marks| - 1 && Free(mem[..], marks, k) && SizeOf(marks, k) >= size {
        SpareAt(mem[..], marks, k);
        assert 8 * Payload(marks, k).1 >= size;
      }
    }

    /** The index decides whether a block can serve. */
    lemma FitsIndexed(size: int, exact: bool)
      requires Valid(exact) && size > 0
      ensures Fits(size) <==> size <= maxfree
    {}

    /** A block without a live payload is one single free sub-block. */
    lemma EmptyIsOneFree()
      requires Linked() && Live() == {}
      ensures marks == [0, mem.Length - 1] && Free(mem[..], marks, 0) && SizeOf(marks, 0) == 8 * mem.Length - 16
    {
      assert |marks| > 2 ==> Free(mem[..], marks, 0) ==> !Free(mem[..], marks, 1);
      forall k | 0 <= k < |marks| - 1 ensures Free(mem[..], marks, k) { LiveAt(mem[..], marks, k); }
    }

    /** Sub-block sizes and marks add up to the block. */
    lemma {:induction false} SizesAddUp(k: nat)
      requires Linked() && k < |marks|
      ensures MARK * (k + 1) + TotalSize(marks, k) == 8 * (marks[k] + 1)
      ensures k == |marks| - 1 ==> MARK * |marks| + TotalSize(marks, k) == 8 * mem.Length
    {
      if k == 0 {
      } else {
        SizesAddUp(k - 1);
      }
    }

    static function TotalSize(marks: seq<int>, k: nat): int
      requires k < |marks|
    {
      if k == 0 then 0 else TotalSize(marks, k - 1) + SizeOf(marks, k - 1)
    }

    /** The bytes in the first k sub-blocks that are free, or that are not. */
    static function SizeIf(c: seq<Cell>, marks: seq<int>, k: nat, free: bool): int
      requires Ordered(c, marks) && k < |marks|
    {
      if k == 0 then 0
      else SizeIf(c, marks, k - 1, free) + if Free(c, marks, k - 1) == free then SizeOf(marks, k - 1) else 0
    }

    lemma {:induction false} SizesSplit(k: nat)
      requires Linked() && k < |marks|
      ensures SizeIf(mem[..], marks, k, true) + SizeIf(mem[..], marks, k, false) == TotalSize(marks, k)
    {
      if k == 0 {
      } else {
        SizesSplit(k - 1);
      }
    }

    /** What is free, what is in use and the marks make up the block. */
    lemma BytesAddUp()
      requires Linked()
      ensures var k := |marks| - 1;
              SizeIf(mem[..], marks, k, true) + SizeIf(mem[..], marks, k, false) + MARK * |marks| == 8 * mem.Length
    {
      SizesSplit(|marks| - 1);
      SizesAddUp(|marks| - 1);
    }

    /** The walk that adds up the free sub-blocks, up to the mark with nothing behind it. */
    method FreeBytes() returns (n: int)
      requires Linked()
      ensures n == SizeIf(mem[..], marks, |marks| - 1, true)
    {
      hide Merged;
      n := 0;
      var m := 0;
      ghost var k := 0;
      while mem[m].next != NONE
        invariant 0 <= k < |marks| && m == marks[k] && n == SizeIf(mem[..], marks, k, true)
        decreases |marks| - k
      {
        ChainSteps(mem[..], marks, k);
        assert k < |marks| - 1 && LinkOK(mem[..], marks, k);
        if !mem[m].next.fill {
          n := n + mem[m].next.size;
        }
        m := m + mem[m].next.size / 8 + 1;
        k := k + 1;
      }
      ChainSteps(mem[..], marks, k);
    }

    constructor (base: nat, cells: nat)
      requires cells >= 3 && 8 * cells < 0x8000_0000
      ensures this.base == base && mem.Length == cells && fresh(mem)
    {
      this.base := base;
      mem := new Cell[cells];
      first, maxfree, marks := 0, 0, [];
    }

    /** Sets up the two marks of a block without sub-blocks in use. */
    method Format()
      requires mem.Length >= 3 && 8 * mem.Length < 0x8000_0000
      modifies this, mem
      ensures Linked() && Live() == {} && Spare() == {(1, mem.Length - 2)} && first == 0
      ensures marks == [0, mem.Length - 1] && Free(mem[..], marks, 0)
    {
      first := 0;
      var size := 8 * mem.Length - 2 * MARK;
      var n := size / 8 + 1;
      mem[0] := Cell(NONE, Word(size, false));
      mem[n] := Cell(Word(size, false), NONE);
      marks := [0, mem.Length - 1];
      assert LinkOK(mem[..], marks, 0);
      assert Payload(marks, 0) == (1, mem.Length - 2);
    }

    /** The first free sub-block of at least maxsize from `start` on. */
    method GetFirstBlock(maxsize: int, start: int, ghost ks: int)
      returns (found: bool, sub: int, size: int, ghost k: int)
      requires Linked() && 0 <= ks < |marks| && start == marks[ks]
      ensures if found then ks <= k < |marks| - 1 && sub == marks[k] && Free(mem[..], marks, k) &&
          size == SizeOf(marks, k) >= maxsize
              else k == |marks| - 1
      ensures forall j | ks <= j < k :: Free(mem[..], marks, j) ==> SizeOf(marks, j) < maxsize
      ensures found <==> exists j :: ks <= j < |marks| - 1 && Free(mem[..], marks, j) && SizeOf(marks, j) >= maxsize
      ensures found ==> 0 <= sub < mem.Length && !mem[sub].next.fill && mem[sub].next.size == size >= maxsize
    {
      var m := start;
      k := ks;
      ChainSteps(mem[..], marks, k);
      while mem[m].next != NONE
        invariant ks <= k < |marks| && m == marks[k]
        invariant mem[m].next != NONE <==> k < |marks| - 1
        invariant forall j | ks <= j < k :: Free(mem[..], marks, j) ==> SizeOf(marks, j) < maxsize
        decreases |marks| - k
      {
        assert LinkOK(mem[..], marks, k);
        if !mem[m].next.fill && mem[m].next.size >= maxsize {
          return true, m, mem[m].next.size, k;
        }
        ChainSteps(mem[..], marks, k);
        m := m + mem[m].next.size / 8 + 1;
        k := k + 1;
        ChainSteps(mem[..], marks, k);
      }
      return false, 0, 0, k;
    }

    /** The first free sub-block from `from` on, or the end mark. */
    method GetNextFreeBlock(from: int, ghost kf: int) returns (m: int, ghost k: int)
      requires Chain(mem[..], marks) && 0 <= kf < |marks| && from == marks[kf]
      ensures FirstFree(mem[..], marks, kf, k) && m == marks[k]
      ensures from <= m < mem.Length && m in marks && !mem[m].next.fill
    {
      m, k := from, kf;
      while mem[m].next.fill
        invariant kf <= k < |marks| && m == marks[k]
        invariant forall j | kf <= j < k :: !Free(mem[..], marks, j)
        decreases |marks| - k
      {
        ChainSteps(mem[..], marks, k);
        m := m + mem[m].next.size / 8 + 1;
        k := k + 1;
      }
    }

    /** The size of the largest free sub-block, looking forward from a mark. */
    method MaxFreeForward(start: int, ghost ks: int) returns (maxsize: int)
      requires Chain(mem[..], marks) && 0 <= ks < |marks| && start == marks[ks]
      ensures MaxFree(mem[..], marks, ks, |marks| - 1, maxsize) && maxsize >= 0
    {
      hide MaxFree;
      MaxFreeNothing(mem[..], marks, ks);
      var m := start;
      ghost var k := ks;
      maxsize := 0;
      ChainSteps(mem[..], marks, k);
      while mem[m].next != NONE
        invariant ks <= k < |marks| && m == marks[k] && maxsize >= 0
        invariant mem[m].next != NONE <==> k < |marks| - 1
        invariant MaxFree(mem[..], marks, ks, k, maxsize) && (maxsize == 0 || maxsize >= MARK)
        decreases |marks| - k
      {
        assert LinkOK(mem[..], marks, k);
        MaxFreeStep(mem[..], marks, ks, k, maxsize);
        if !mem[m].next.fill && mem[m].next.size > maxsize {
          maxsize := mem[m].next.size;
        }
        ChainSteps(mem[..], marks, k);
        m := m + mem[m].next.size / 8 + 1;
        k := k + 1;
        ChainSteps(mem[..], marks, k);
      }
      maxsize := if maxsize >= MARK then maxsize else 0;
    }

    /** The same, looking backward from the end mark. The source would stop early once
        nothing larger fits before the current mark; that test never succeeds. */
    method MaxFreeBackward() returns (maxsize: int)
      requires Chain(mem[..], marks)
      ensures Largest(mem[..], marks, maxsize) && maxsize >= 0
    {
      var m := mem.Length - 1;
      ghost var k := |marks| - 1;
      maxsize := 0;
      ChainSteps(mem[..], marks, k);
      while mem[m].prev != NONE
        invariant 0 <= k < |marks| && m == marks[k] && maxsize >= 0
        invariant mem[m].prev != NONE <==> k > 0
        invariant MaxFree(mem[..], marks, k, |marks| - 1, maxsize) && (maxsize == 0 || maxsize >= MARK)
        decreases k
      {
        ChainSteps(mem[..], marks, k);
        assert LinkOK(mem[..], marks, k - 1);
        if !mem[m].prev.fill && mem[m].prev.size > maxsize {
          maxsize := mem[m].prev.size;
          assert Free(mem[..], marks, k - 1) && SizeOf(marks, k - 1) == maxsize;
          if maxsize > 8 * m {
            // never taken: the sub-block just looked at lies between the block and m
            assert false;
          }
        }
        m := m - mem[m].prev.size / 8 - 1;
        k := k - 1;
        ChainSteps(mem[..], marks, k);
      }
      maxsize := if maxsize >= MARK then maxsize else 0;
    }

    /** Rewrites the marks around the free sub-block at sub to fill it; returns the mark behind. */
    method WriteMarks(sub: int, size: int, ghost k: int) returns (n: int)
      requires Linked() && 0 <= k < |marks| - 1 && sub == marks[k] && Free(mem[..], marks, k)
      requires size % 8 == 0 && 8 <= size <= SizeOf(marks, k)
      modifies mem
      ensures mem[..] == AllocCells(old(mem[..]), marks, k, size)
      ensures n == if Cuts(marks, k, size) then sub + size / 8 + 1 else marks[k + 1]
    {
      ghost var c := mem[..];
      ChainSteps(c, marks, k);
      assert LinkOK(c, marks, k);
      var s := sub;
      n := s + mem[s].next.size / 8 + 1;
      assert n == marks[k + 1];
      mem[s] := mem[s].(next := mem[s].next.(fill := true));
      if mem[s].next.size > size + 2 * MARK + THRESHOLD {
        var oldSize := mem[s].next.size;
        mem[s] := mem[s].(next := mem[s].next.(size := size));
        var m := s + mem[s].next.size / 8 + 1;
        mem[m] := Cell(Word(mem[s].next.size, true), Word(oldSize - (size + MARK), false));
        mem[n] := mem[n].(prev := Word(mem[m].next.size, false));
        assert mem[..] == Split(c, s, m, n);
        n := m;
      } else {
        mem[n] := mem[n].(prev := mem[n].prev.(fill := true));
        assert mem[..] == Filled(c, s, n, true);
      }
    }

    /** Fills the free sub-block at sub with a payload of `size` bytes, cutting off a new free
        sub-block when enough is left; moves `first` on when `track` and sub was the first. */
    method AllocBlock(sub: int, size: int, track: bool, ghost k: int) returns (p: int)
      requires Linked() && 0 <= k < |marks| - 1 && sub == marks[k] && Free(mem[..], marks, k)
      requires size % 8 == 0 && 8 <= size <= SizeOf(marks, k)
      modifies this, mem
      ensures Linked() && p == sub + 1 && maxfree == old(maxfree)
      ensures mem[..] == AllocCells(old(mem[..]), old(marks), k, size) && marks == AllocMarks(old(marks), k, size)
      ensures k < |marks| - 1 && marks[k] == sub
      ensures if track && sub == old(first) then exists f :: FirstFree(mem[..], marks, k, f) && first == marks[f]
          else first == old(first)
    {
      hide Merged, SameCells, BlockChain.Live, AllocCells, Cuts, LinkOK;
      ghost var c, ms := mem[..], marks;
      AllocKeepsChain(c, ms, k, size);
      AllocPrefix(c, ms, k, size, k);
      AllocBehind(c, ms, k, size);
      var n := WriteMarks(sub, size, k);
      marks := AllocMarks(ms, k, size);
      if track && sub == first {
        var next, f := GetNextFreeBlock(n, k + 1);
        first := next;
      }
      p := sub + 1;
    }

    /** Joins the free sub-block at s with the free one behind it, at n; t is the mark behind both. */
    method Join(s: int, n: int, t: int, ghost k: int)
      requires Chain(mem[..], marks) && 0 <= k < |marks| - 2 && s == marks[k] && n == marks[k + 1] && t == marks[k + 2]
      requires Free(mem[..], marks, k) && Free(mem[..], marks, k + 1)
      modifies mem, this`marks
      ensures mem[..] == Joined(old(mem[..]), s, n, t) && marks == Removed(old(marks), k + 1)
      ensures Chain(mem[..], marks)
    {
      ghost var c := mem[..];
      JoinedChain(c, marks, k);
      assert LinkOK(c, marks, k) && LinkOK(c, marks, k + 1);
      mem[s] := mem[s].(next := mem[s].next.(size := mem[s].next.size + mem[n].next.size + MARK));
      mem[t] := mem[t].(prev := mem[t].prev.(size := mem[s].next.size));
      assert mem[..] == Joined(c, s, n, t);
      marks := Removed(marks, k + 1);
    }

    /** Empties the filled sub-block at sub and joins it with its free neighbours; moves
        `first` back if the result lies before it, and returns the size of the result. */
    method FreeBlock(sub: int, ghost k0: int, ghost exact: bool) returns (size: int)
      requires Valid(exact) && 0 <= k0 < |marks| - 1 && sub == marks[k0] && !Free(mem[..], marks, k0)
      modifies this, mem
      ensures Linked() && maxfree == old(maxfree)
      ensures Live() == old(Live()) - {old(Payload(marks, k0))} && SameCells(old(mem[..]), mem[..], Live())
      ensures FirstAt(mem[..], marks, first, exact)
      ensures Largest(mem[..], marks, Max(maxfree, size)) && size >= old(SizeOf(marks, k0))
    {
      hide LinkOK, Joined, Removed, BlockChain.Live, SameCells, FirstAt, Largest, Merged, Freeing;
      ghost var c0, ms0 := mem[..], marks;
      ghost var pos := if sub < first then sub else first;
      var s, k := EmptyAndJoinPrevious(sub, k0, exact);
      size := JoinNext(s, k, c0, ms0, k0, pos, exact, maxfree);
      FreeingEnds(c0, ms0, k0, first, exact, maxfree, mem[..], marks, k);
      if first > s {
        first := s;
      }
    }

    method EmptyAndJoinPrevious(sub: int, ghost k: int, ghost exact: bool) returns (s: int, ghost j: int)
      requires Valid(exact) && 0 <= k < |marks| - 1 && sub == marks[k] && !Free(mem[..], marks, k)
      modifies mem, this`marks
      ensures Freeing(old(mem[..]), old(marks), k, if sub < first then sub
          else first, exact, maxfree, mem[..], marks, j, false, true)
      ensures 0 <= j < |marks| - 1 && s == marks[j]
    {
      hide LinkOK, Joined, Removed, BlockChain.Live, SameCells, FirstAt, Largest, Merged, Freeing;
      ghost var c0, ms0 := mem[..], marks;
      ghost var pos := if sub < first then sub else first;
      ChainSteps(c0, marks, k);
      ChainSteps(c0, marks, k + 1);
      FreeingStarts(c0, ms0, k, first, exact, maxfree);
      j := k;
      var m := 0;
      s := sub;
      var n := s + mem[s].next.size / 8 + 1;
      if 0 != sub {
        m := s - mem[s].prev.size / 8 - 1;
      }
      mem[s] := mem[s].(next := mem[s].next.(fill := false));
      mem[n] := mem[n].(prev := mem[n].prev.(fill := false));
      assert mem[..] == Filled(c0, s, n, false);
      FreeingFacts(c0, ms0, k, pos, exact, maxfree, mem[..], marks, k, true, true);
      if m != s && mem[s].prev != NONE && !mem[s].prev.fill {
        FreeingJoins(c0, ms0, k, pos, exact, maxfree, mem[..], marks, k, k - 1, true);
        Join(m, s, n, k - 1);
        s, j := m, k - 1;
        FreeingFacts(c0, ms0, k, pos, exact, maxfree, mem[..], marks, j, false, true);
      } else {
        FreeingSettled(c0, ms0, k, pos, exact, maxfree, mem[..], marks, k, true, true, false, true);
      }
    }

    method JoinNext(s: int, ghost k: int, ghost c0: seq<Cell>, ghost ms0: seq<int>, ghost k0: int, ghost pos: int,
                    ghost exact: bool, ghost v: int)
      returns (size: int)
      requires Freeing(c0, ms0, k0, pos, exact, v, mem[..], marks, k, false, true) && 0 <= k < |marks| && s == marks[k]
      modifies mem, this`marks
      ensures Freeing(c0, ms0, k0, pos, exact, v, mem[..], marks, k, false, false)
      ensures 0 <= k < |marks| - 1 && s == marks[k] && size == SizeOf(marks, k)
    {
      hide LinkOK, Joined, Removed, BlockChain.Live, SameCells, FirstAt, Largest, Merged, Freeing;
      FreeingFacts(c0, ms0, k0, pos, exact, v, mem[..], marks, k, false, true);
      ChainSteps(mem[..], marks, k);
      ChainSteps(mem[..], marks, k + 1);
      var n := s + mem[s].next.size / 8 + 1;
      if mem[n].next != NONE && !mem[n].next.fill {
        var n2 := n + mem[n].next.size / 8 + 1;
        FreeingJoins(c0, ms0, k0, pos, exact, v, mem[..], marks, k, k, false);
        Join(s, n, n2, k);
      } else {
        FreeingSettled(c0, ms0, k0, pos, exact, v, mem[..], marks, k, false, true, false, false);
      }
      FreeingFacts(c0, ms0, k0, pos, exact, v, mem[..], marks, k, false, false);
      size := mem[s].next.size;
    }

    /** One more payload at p than when the memory was c, `live` its payloads and `spare` its free
        sub-blocks: p is the first of these that `size` bytes fit in, of r cells, what is cut off
        from it stays free, and the other payloads are as they were. */
    ghost predicate Gained(c: seq<Cell>, live: set<(int, int)>, spare: set<(int, int)>, p: int, r: int, size: int)
      requires Linked()
      reads this, mem
    {
      && FirstFit(spare, size, p, r)
      && Live() == live + {(p, Served(size, r))} && Spare() == spare - {(p, r)} + Behind(p, Served(size, r), r)
      && (forall q | q in live :: q.0 != p)
      && SameCells(c, mem[..], live)
    }

    lemma FirstServes(size: int, exact: bool) returns (f: int)
      requires Valid(exact) && 8 <= size <= maxfree
      ensures 0 <= f < |marks| && marks[f] == first
      ensures exists j :: f <= j < |marks| - 1 && Free(mem[..], marks, j) && SizeOf(marks, j) >= size
    {
      f :| 0 <= f < |marks| && marks[f] == first;
      LargestFrom(mem[..], marks, f, maxfree);
    }

    /** The search of customMalloc in a block whose largest free sub-block is large enough:
        takes `size` bytes from the first that is, or all of it when little would be left. */
    method Take(size: int) returns (p: int, ghost r: int)
      requires Valid(true) && size % 8 == 0 && 8 <= size <= maxfree
      modifies this, mem
      ensures Valid(true) && Gained(old(mem[..]), old(Live()), old(Spare()), p, r, size)
      ensures var n := Served(size, r); size <= 8 * n <= size + 128 && (8 * r > size + 128 ==> 8 * n == size)
    {
      hide LinkOK, BlockChain.Live, BlockChain.Spare, SameCells, Merged, FirstAt, Largest, FirstFit, Served, Behind;
      ghost var f := FirstServes(size, true);
      var found, sub, rsize, k := GetFirstBlock(size, first, f);
      assert found;
      r := marks[k + 1] - marks[k] - 1;
      FoundFirstFit(mem[..], marks, first, true, f, k, size);
      p := TakeSub(sub, rsize, if rsize - size < THRESHOLD then rsize else size, size, true, k);
      ServedEnough(size, p, r);
    }

    /** The search of AllocDynarecMap: the same, but `first` is moved on by the caller of
        allocBlock and may be a mark before the first free sub-block. */
    method TakeCode(size: int) returns (p: int, ghost r: int)
      requires Valid(false) && size % 8 == 0 && 8 <= size <= maxfree
      modifies this, mem
      ensures Valid(false) && Gained(old(mem[..]), old(Live()), old(Spare()), p, r, size)
      ensures old(FirstAt(mem[..], marks, first, true)) ==> FirstAt(mem[..], marks, first, true)
      ensures var n := Served(size, r); size <= 8 * n <= size + 128 && (8 * r > size + 128 ==> 8 * n == size)
    {
      hide LinkOK, BlockChain.Live, BlockChain.Spare, SameCells, Merged, FirstAt, Largest, FirstFit, Served, Behind;
      ghost var f := FirstServes(size, false);
      var found, sub, rsize, k := GetFirstBlock(size, first, f);
      assert found;
      r := marks[k + 1] - marks[k] - 1;
      FoundFirstFit(mem[..], marks, first, false, f, k, size);
      p := TakeSub(sub, rsize, size, size, false, k);
      ServedEnough(size, p, r);
    }

    /** Fills the free sub-block at sub and brings the index up to date. */
    method TakeSub(sub: int, rsize: int, size: int, asked: int, track: bool, ghost k: int) returns (p: int)
      requires Valid(track) && 0 <= k < |marks| - 1 && sub == marks[k] && Free(mem[..], marks, k)
      requires rsize == SizeOf(marks, k)
      requires size % 8 == 0 && 8 <= asked <= size <= rsize
      requires size == asked || (size == rsize && size - asked < THRESHOLD)
      requires FirstFit(Spare(), asked, marks[k] + 1, marks[k + 1] - marks[k] - 1)
      modifies this, mem
      ensures Valid(track) && p == sub + 1
      ensures old(FirstAt(mem[..], marks, first, true)) ==> FirstAt(mem[..], marks, first, true)
      ensures Gained(old(mem[..]), old(Live()), old(Spare()), p, old(marks[k + 1] - marks[k] - 1), asked)
    {
      hide LinkOK, BlockChain.Live, BlockChain.Spare, SameCells, Merged, AllocCells, AllocMarks, FirstAt, Largest;
      hide FirstFit, Served, Behind;
      ghost var c, ms, first0 := mem[..], marks, first;
      AllocGained(c, ms, k, size, asked);
      p := AllocBlock(sub, size, track, k);
      if !track && sub == first {
        ghost var f;
        first, f := GetNextFreeBlock(sub, k);
      }
      ReindexedToo(c, ms, k, size, first0, track);
      if rsize == maxfree {
        maxfree := GetMaxFree();
      } else {
        AllocKeepsIndex(c, ms, k, size, 0, false, maxfree);
      }
    }

    /** The size of the largest free sub-block, looking from `first`. */
    method GetMaxFree() returns (v: int)
      requires Chain(mem[..], marks) && (FirstAt(mem[..], marks, first, true) || FirstAt(mem[..], marks, first, false))
      ensures Largest(mem[..], marks, v) && v >= 0
    {
      ghost var g :| 0 <= g < |marks| && marks[g] == first;
      v := MaxFreeForward(first, g);
      LargestFrom(mem[..], marks, g, v);
    }

    /** What filling a sub-block leaves of the first free one. */
    lemma Reindexed(c: seq<Cell>, ms: seq<int>, k: int, size: int, first0: int, exact: bool)
      requires Chain(c, ms) && Merged(c, ms) && 0 <= k < |ms| - 1 && Free(c, ms, k) && size % 8 == 0
      requires 8 <= size <= SizeOf(ms, k)
      requires FirstAt(c, ms, first0, exact)
      requires mem[..] == AllocCells(c, ms, k, size) && marks == AllocMarks(ms, k, size) && Chain(mem[..], marks)
      requires k < |marks|
      requires if ms[k] == first0 then exists f :: FirstFree(mem[..], marks, k, f) && first == marks[f]
          else first == first0
      ensures FirstAt(mem[..], marks, first, exact)
    {
      if ms[k] == first0 {
        BeforeFirst(c, ms, first0, exact, k);
        var f :| FirstFree(mem[..], marks, k, f) && first == marks[f];
        FirstMoves(c, ms, k, size, f);
      } else {
        AllocKeepsIndex(c, ms, k, size, first0, exact, 0);
      }
    }

    lemma ReindexedToo(c: seq<Cell>, ms: seq<int>, k: int, size: int, first0: int, exact: bool)
      requires Chain(c, ms) && Merged(c, ms) && 0 <= k < |ms| - 1 && Free(c, ms, k) && size % 8 == 0
      requires 8 <= size <= SizeOf(ms, k)
      requires FirstAt(c, ms, first0, exact)
      requires mem[..] == AllocCells(c, ms, k, size) && marks == AllocMarks(ms, k, size) && Chain(mem[..], marks)
      requires k < |marks|
      requires if ms[k] == first0 then exists f :: FirstFree(mem[..], marks, k, f) && first == marks[f]
          else first == first0
      ensures FirstAt(mem[..], marks, first, exact)
      ensures FirstAt(c, ms, first0, true) ==> FirstAt(mem[..], marks, first, true)
    {
      hide Chain, Merged, FirstAt, AllocCells, AllocMarks, FirstFree;
      Reindexed(c, ms, k, size, first0, exact);
      if FirstAt(c, ms, first0, true) { Reindexed(c, ms, k, size, first0, true); }
    }

    /** Where a live payload begins. */
    lemma PayloadAt(p: int, n: int) returns (k: int)
      requires Linked() && (p, n) in Live()
      ensures 0 <= k < |marks| - 1 && !Free(mem[..], marks, k) && Payload(marks, k) == (p, n) && marks[k] == p - 1
    {
      k :| 0 <= k < |marks| - 1 && !Free(mem[..], marks, k) && Payload(marks, k) == (p, n);
    }

    /** Gives the payload at p back and raises the size of the largest free sub-block. */
    method Give(p: int, ghost n: int, ghost exact: bool)
      requires Valid(exact) && (p, n) in Live()
      modifies this, mem
      ensures Valid(exact) && Live() == old(Live()) - {(p, n)}
      ensures SameCells(old(mem[..]), mem[..], Live())
    {
      ghost var k := PayloadAt(p, n);
      hide BlockChain.Live, SameCells, Merged, FirstAt, Largest, LinkOK, Chain, Free, Payload, Ordered;
      var newfree := FreeBlock(p - 1, k, exact);
      if maxfree < newfree {
        maxfree := newfree;
      }
    }

    /** A new block out of which a first payload of `size` bytes was taken. */
    ghost predicate Started(size: int)
      requires Linked()
      reads this, mem
    {
      var r := mem.Length - 2;
      Live() == {(1, Served(size, r))} && Spare() == Behind(1, Served(size, r), r)
    }

    /** A new block of customMalloc: formatted, its first payload taken. */
    method StartHeap(size: int) returns (p: int)
      requires mem.Length >= 3 && 8 * mem.Length < 0x8000_0000
      requires size % 8 == 0 && 8 <= size <= 8 * mem.Length - 16
      modifies this, mem
      ensures Valid(true) && p == 1 && Started(size)
    {
      hide BlockChain.Live, BlockChain.Spare, SameCells, Merged, LinkOK, AllocCells, AllocMarks, FirstAt, Largest;
      hide Served, Behind;
      Format();
      ghost var c, ms := mem[..], marks;
      FirstOfOne(c, ms);
      AllocGained(c, ms, 0, size, size);
      p := AllocBlock(0, size, true, 0);
      Reindexed(c, ms, 0, size, 0, true);
      maxfree := GetMaxFree();
    }

    /** A new block of AllocDynarecMap: its `first` stays at the start when nothing is left. */
    method StartCode(size: int) returns (p: int)
      requires mem.Length >= 3 && 8 * mem.Length < 0x8000_0000
      requires size % 8 == 0 && 8 <= size <= 8 * mem.Length - 16
      modifies this, mem
      ensures Valid(false) && p == 1 && Started(size)
    {
      hide BlockChain.Live, BlockChain.Spare, SameCells, Merged, LinkOK, AllocCells, AllocMarks, Largest;
      hide Served, Behind;
      Format();
      ghost var c, ms := mem[..], marks;
      AllocGained(c, ms, 0, size, size);
      p := AllocBlock(0, size, false, 0);
      maxfree := MaxFreeBackward();
      if maxfree != 0 {
        ghost var f;
        first, f := GetNextFreeBlock(0, 0);
      }
    }

    /** The allocator's own check of a block whose marks can be walked: it accepts exactly when
        no two free sub-blocks are neighbours and the index is exact. */
    method PrintBlockCoherent() returns (ret: bool)
      requires Chain(mem[..], marks) && first in marks
      ensures ret <==>
          Merged(mem[..], marks) && FirstAt(mem[..], marks, first, true) && Largest(mem[..], marks, maxfree) &&
            maxfree >= 0
    {
      ret := true;
      var firstFree, f := GetNextFreeBlock(0, 0);
      if first != firstFree {
        ret := false;
      }
      var v := MaxFreeBackward();
      if v != maxfree {
        ret := false;
      }
      ghost var g :| 0 <= g < |marks| && marks[g] == first;
      var w := MaxFreeForward(first, g);
      if w != maxfree {
        ret := false;
      }
      CheckIndex(f, g, v, w);
      ghost var index := ret;
      var merged := CheckNeighbours();
      ret := ret && merged;
    }

    /** The walk of the check: no free neighbours, and the end is where it should be. */
    method CheckNeighbours() returns (ret: bool)
      requires Chain(mem[..], marks)
      ensures ret <==> Merged(mem[..], marks)
    {
      ret := true;
      var m, last := 0, mem.Length - 1;
      ghost var k := 0;
      while m < last
        invariant 0 <= k < |marks| && m == marks[k]
        invariant ret <==>
            forall j | 0 <= j < k && j < |marks| - 2 :: Free(mem[..], marks, j) ==> !Free(mem[..], marks, j + 1)
        decreases |marks| - k
      {
        ChainSteps(mem[..], marks, k);
        assert k < |marks| - 1;
        var n := m + mem[m].next.size / 8 + 1;
        if !mem[m].next.fill && !mem[n].next.fill && n != last {
          ret := false;
          assert Free(mem[..], marks, k) && Free(mem[..], marks, k + 1);
        }
        m := n;
        k := k + 1;
      }
      assert k == |marks| - 1;
      if m != last {
        ret := false;
      }
    }

    lemma CheckIndex(f: int, g: int, v: int, w: int)
      requires Chain(mem[..], marks) && FirstFree(mem[..], marks, 0, f) && 0 <= g < |marks| && marks[g] == first
      requires Largest(mem[..], marks, v) && v >= 0 && MaxFree(mem[..], marks, g, |marks| - 1, w) && w >= 0
      ensures first == marks[f] && v == maxfree && w == maxfree <==>
              FirstAt(mem[..], marks, first, true) && Largest(mem[..], marks, maxfree) && maxfree >= 0
    {
      FirstIs(f, g);
      hide Chain, FirstAt, Largest, MaxFree, FirstFree, Free, Ordered;
      if first == marks[f] {
        LargestFrom(mem[..], marks, g, w);
        LargestUnique(mem[..], marks, v, w);
      }
      if Largest(mem[..], marks, maxfree) && maxfree >= 0 { LargestUnique(mem[..], marks, v, maxfree); }
    }

    /** The stored first free sub-block is exact when it is the one that is found. */
    lemma FirstIs(f: int, g: int)
      requires Chain(mem[..], marks) && FirstFree(mem[..], marks, 0, f) && 0 <= g < |marks| && marks[g] == first
      ensures first == marks[f] <==> FirstAt(mem[..], marks, first, true)
      ensures first == marks[f] ==> FirstFree(mem[..], marks, 0, g)
    {
      hide LinkOK;
      assert Free(mem[..], marks, g) <==> !mem[..][first].next.fill;
      if f < g {
        assert marks[f] < first;
      } else if g < f {
        assert marks[g] < marks[f];
      }
    }

    /** The owner of a live payload writes one of its cells. */
    method Store(i: int, v: Cell, ghost p: (int, int), ghost exact: bool)
      requires Valid(exact) && p in Live() && p.0 <= i < p.0 + p.1
      modifies mem
      ensures Valid(exact) && Live() == old(Live()) && 0 < i < mem.Length && mem[..] == old(mem[..])[i := v]
    {
      hide BlockChain.Live, Merged, FirstAt, Largest, Chain;
      PayloadIsNoMark(mem[..], marks, p, i);
      StoreKeeps(mem[..], marks, i, v, first, exact, maxfree);
      mem[i] := v;
      assert mem[..] == old(mem[..])[i := v];
    }

    /** A size that is rounded up to 4 fits into whole cells if and only if it does unrounded. */
    static lemma RoundedFits(newsize: int, n: int)
      ensures (newsize + 3) / 4 * 4 <= 8 * n <==> newsize <= 8 * n
    {
      var q := (newsize + 3) / 4;
      assert 4 * q <= newsize + 3 < 4 * q + 4;
      assert q <= 2 * n || 2 * n + 1 <= q;
    }

    /** Whether the live payload at p may stay where it is when newsize bytes are wanted. The
        fill bit tested is that of the payload's own mark, so it is never made larger. */
    method ExpandBlock(p: int, newsize: int, ghost n: int) returns (ok: bool)
      requires Linked() && (p, n) in Live()
      ensures ok <==> newsize <= 8 * n
    {
      ghost var k :| 0 <= k < |marks| - 1 && !Free(mem[..], marks, k) && Payload(marks, k) == (p, n);
      assert LinkOK(mem[..], marks, k);
      assert mem[p - 1].next.size == 8 * n && mem[p - 1].next.fill;
      hide *;
      var rounded := (newsize + 3) / 4 * 4;
      RoundedFits(newsize, n);
      ok := mem[p - 1].next.size >= rounded;
      if !ok && !mem[p - 1].next.fill {
        assert false;
      }
    }

    /** The size, in bytes, of the live payload at p. */
    method SizeBlock(p: int, ghost n: int) returns (size: int)
      requires Linked() && (p, n) in Live()
      ensures size == 8 * n
    {
      ghost var k :| 0 <= k < |marks| - 1 && !Free(mem[..], marks, k) && Payload(marks, k) == (p, n);
      assert LinkOK(mem[..], marks, k);
      size := mem[p - 1].next.size;
    }

    /** After a request is served in place the source looks the index up again: it is the same. */
    method Refresh(p: int, size: int, ghost n: int)
      requires Valid(true) && (p, n) in Live()
      modifies this`first, this`maxfree
      ensures Valid(true) && first == old(first) && maxfree == old(maxfree)
    {
      ghost var k :| 0 <= k < |marks| - 1 && !Free(mem[..], marks, k) && Payload(marks, k) == (p, n);
      if p - 1 < first && 8 * p + size + MARK >= 8 * first {
        var next, f := GetNextFreeBlock(p - 1, k);
        FirstFound(mem[..], marks, first, k, f);
        first := next;
      }
      var v := GetMaxFree();
      LargestUnique(mem[..], marks, v, maxfree);
      maxfree := v;
    }
  }

  /** Copies one live payload to the start of another, cell by cell through their owners. */
  method CopyPayload(src: Block, s: (int, int), dst: Block, to: int, ghost d: (int, int))
    requires to == d.0 && src.Valid(true) && dst.Valid(true) && s in src.Live() && d in dst.Live() && s.1 <= d.1
    requires if src == dst then s != d else src.mem != dst.mem
    modifies dst.mem
    ensures dst.Valid(true) && src.Valid(true) && dst.Live() == old(dst.Live())
    ensures 0 <= d.0 && d.0 + s.1 <= dst.mem.Length && 0 <= s.0 && s.0 + s.1 <= src.mem.Length
    ensures dst.mem[d.0..d.0 + s.1] == old(src.mem[s.0..s.0 + s.1])
    ensures forall i | 0 <= i < dst.mem.Length && !(d.0 <= i < d.0 + s.1) :: dst.mem[i] == old(dst.mem[i])
  {
    hide Block.Valid, Block.Linked, Ordered, BlockChain.Live;
    LiveDisjoint(src.mem[..], src.marks, s, s);
    LiveDisjoint(dst.mem[..], dst.marks, d, d);
    if src == dst { LiveDisjoint(src.mem[..], src.marks, s, d); }
    ghost var payload := src.mem[s.0..s.0 + s.1];
    for c := 0 to s.1
      invariant dst.Valid(true) && dst.Live() == old(dst.Live())
      invariant forall i | 0 <= i < dst.mem.Length && !(d.0 <= i < d.0 + c) :: dst.mem[i] == old(dst.mem[i])
      invariant src.mem[s.0..s.0 + s.1] == payload
      invariant dst.mem[d.0..d.0 + c] == payload[..c]
    {
      ghost var m := dst.mem[..];
      assert src.mem[s.0 + c] == payload[c] by { assert src.mem[s.0..s.0 + s.1][c] == payload[c]; }
      dst.Store(to + c, src.mem[s.0 + c], d, true);
      assert dst.mem[..] == m[d.0 + c := payload[c]];
      assert dst.mem[d.0..d.0 + c + 1] == m[d.0..d.0 + c] + [payload[c]];
    }
    assert payload[..s.1] == payload;
  }
}
