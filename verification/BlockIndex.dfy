/** The index kept beside a chain of marks: the first free sub-block and the size of the
    largest free one, and how the operations on the chain carry it along. */
module BlockIndex {
  import opened BlockChain

  /** pos is a mark with no free sub-block before it; `exact`: it is free, or the end mark. */
  ghost predicate FirstAt(c: seq<Cell>, marks: seq<int>, pos: int, exact: bool)
    requires Ordered(c, marks)
  {
    && pos in marks && 0 <= pos < |c|
    && (forall k | 0 <= k < |marks| && marks[k] < pos :: !Free(c, marks, k))
    && (exact ==> !c[pos].next.fill)
  }

  /** v is the size of the largest free sub-block of the whole chain, or 0. */
  predicate Largest(c: seq<Cell>, marks: seq<int>, v: int)
    requires Ordered(c, marks)
  {
    MaxFree(c, marks, 0, |marks| - 1, v)
  }

  function Max(a: int, b: int): int { if a < b then b else a }

  /** A free sub-block is never before the first one. */
  lemma FirstBefore(c: seq<Cell>, marks: seq<int>, pos: int, exact: bool, k: int)
    requires Ordered(c, marks) && FirstAt(c, marks, pos, exact) && 0 <= k < |marks| && Free(c, marks, k)
    ensures pos <= marks[k]
  {}

  /** Behind a mark with no free sub-block before it, the largest free one is the largest. */
  lemma LargestFrom(c: seq<Cell>, marks: seq<int>, f: int, v: int)
    requires Ordered(c, marks) && 0 <= f < |marks| && forall k | 0 <= k < f :: !Free(c, marks, k)
    requires v >= 0
    ensures MaxFree(c, marks, f, |marks| - 1, v) <==> Largest(c, marks, v)
  {}

  lemma MaxFreeNothing(c: seq<Cell>, marks: seq<int>, lo: int)
    requires Ordered(c, marks) && 0 <= lo < |marks|
    ensures MaxFree(c, marks, lo, lo, 0)
  {}

  /** One sub-block further. */
  lemma MaxFreeStep(c: seq<Cell>, marks: seq<int>, lo: int, k: int, v: int)
    requires Ordered(c, marks) && 0 <= lo <= k < |marks| - 1 && MaxFree(c, marks, lo, k, v)
    ensures MaxFree(c, marks, lo, k + 1, if Free(c, marks, k) && SizeOf(marks, k) > v then SizeOf(marks, k) else v)
  {
    if v != 0 {
      var j :| lo <= j < k && Free(c, marks, j) && SizeOf(marks, j) == v;
      assert lo <= j < k + 1;
    }
  }

  /** The largest size is unique. */
  lemma LargestUnique(c: seq<Cell>, marks: seq<int>, v: int, w: int)
    requires Ordered(c, marks) && Largest(c, marks, v) && Largest(c, marks, w) && v >= 0 && w >= 0
    ensures v == w
  {
    if v != 0 { var k :| 0 <= k < |marks| - 1 && Free(c, marks, k) && SizeOf(marks, k) == v; }
    if w != 0 { var k :| 0 <= k < |marks| - 1 && Free(c, marks, k) && SizeOf(marks, k) == w; }
  }

  // ---- Filling a free sub-block

  lemma FilledIndex(c: seq<Cell>, marks: seq<int>, k: int, pos: int, exact: bool, v: int)
    requires Chain(c, marks) && Merged(c, marks) && 0 <= k < |marks| - 1 && Free(c, marks, k)
    ensures var d := Filled(c, marks[k], marks[k + 1], true);
            && Chain(d, marks) && Merged(d, marks)
            && (FirstAt(c, marks, pos, exact) && pos != marks[k] ==> FirstAt(d, marks, pos, exact))
            && (Largest(c, marks, v) && SizeOf(marks, k) != v ==> Largest(d, marks, v))
  {
    var d := Filled(c, marks[k], marks[k + 1], true);
    FilledChain(c, marks, k, true);
    forall j | 0 <= j < |marks| - 2 ensures Free(d, marks, j) ==> !Free(d, marks, j + 1) {
      assert Free(c, marks, j) ==> !Free(c, marks, j + 1);
    }
    if FirstAt(c, marks, pos, exact) && pos != marks[k] {
      var i :| 0 <= i < |marks| && marks[i] == pos;
      assert !d[pos].next.fill <==> Free(d, marks, i);
      assert !c[pos].next.fill <==> Free(c, marks, i);
    }
    if Largest(c, marks, v) && SizeOf(marks, k) != v && v != 0 {
      var j :| 0 <= j < |marks| - 1 && Free(c, marks, j) && SizeOf(marks, j) == v;
      assert Free(d, marks, j);
    }
  }

  lemma SplitSizes(c: seq<Cell>, marks: seq<int>, k: int, m: int, j: int)
    requires Chain(c, marks) && 0 <= k < |marks| - 1 && marks[k] + 2 <= m && m + 2 <= marks[k + 1] && 0 <= j < |marks|
    ensures SizeOf(Inserted(marks, k, m), j) ==
            if j == k then 8 * (m - marks[k] - 1)
              else if j == k + 1 then 8 * (marks[k + 1] - m - 1) else SizeOf(marks, if j < k then j else j - 1)
    ensures j == k || j == k + 1 ==> SizeOf(Inserted(marks, k, m), j) < SizeOf(marks, k)
  {
    InsertedSizes(c, marks, k, m, j);
  }

  lemma SplitMerged(c: seq<Cell>, marks: seq<int>, k: int, m: int)
    requires Chain(c, marks) && Merged(c, marks) && 0 <= k < |marks| - 1 && Free(c, marks, k) && marks[k] + 2 <= m
    requires m + 2 <= marks[k + 1]
    ensures var d, ms := Split(c, marks[k], m, marks[k + 1]), Inserted(marks, k, m);
            Chain(d, ms) && Merged(d, ms)
  {
    var d, ms := Split(c, marks[k], m, marks[k + 1]), Inserted(marks, k, m);
    hide Split, Inserted, LinkOK;
    SplitChain(c, marks, k, m);
    InsertedMarks(c, marks, k, m);
    forall j | 0 <= j < |ms| - 2 ensures Free(d, ms, j) ==> !Free(d, ms, j + 1) {
      if 0 <= j < k { assert Free(c, marks, j) ==> !Free(c, marks, j + 1); }
      if k < j { assert Free(c, marks, j - 1) ==> !Free(c, marks, j); }
    }
  }

  lemma SplitKeeps(c: seq<Cell>, marks: seq<int>, k: int, m: int, j: int)
    requires Chain(c, marks) && 0 <= k < |marks| - 1 && Free(c, marks, k) && marks[k] + 2 <= m && m + 2 <= marks[k + 1]
    requires 0 <= j < |marks| - 1 && Free(c, marks, j) && j != k
    ensures var d, ms, i := Split(c, marks[k], m, marks[k + 1]), Inserted(marks, k, m), if j < k then j else j + 1;
            Chain(d, ms) && |ms| == |marks| + 1 && Free(d, ms, i) && SizeOf(ms, i) == SizeOf(marks, j)
  {
    hide Split, Inserted, LinkOK, SizeOf;
    SplitChain(c, marks, k, m);
    InsertedMarks(c, marks, k, m);
    SplitSizes(c, marks, k, m, if j < k then j else j + 1);
  }

  lemma SplitLargest(c: seq<Cell>, marks: seq<int>, k: int, m: int, v: int)
    requires Chain(c, marks) && 0 <= k < |marks| - 1 && Free(c, marks, k) && marks[k] + 2 <= m && m + 2 <= marks[k + 1]
    requires Largest(c, marks, v) && SizeOf(marks, k) != v
    ensures var d, ms := Split(c, marks[k], m, marks[k + 1]), Inserted(marks, k, m);
            Chain(d, ms) && Largest(d, ms, v)
  {
    var d, ms := Split(c, marks[k], m, marks[k + 1]), Inserted(marks, k, m);
    hide Split, Inserted, LinkOK, Ordered, SizeOf, Free;
    SplitChain(c, marks, k, m);
    InsertedMarks(c, marks, k, m);
    forall j | 0 <= j < |ms| - 1 && Free(d, ms, j) ensures SizeOf(ms, j) <= v {
      SplitSizes(c, marks, k, m, j);
      assert SizeOf(marks, k) <= v;
    }
    if v != 0 {
      var j :| 0 <= j < |marks| - 1 && Free(c, marks, j) && SizeOf(marks, j) == v;
      SplitKeeps(c, marks, k, m, j);
    }
  }

  lemma SplitFirst(c: seq<Cell>, marks: seq<int>, k: int, m: int, pos: int, exact: bool)
    requires Chain(c, marks) && 0 <= k < |marks| - 1 && Free(c, marks, k) && marks[k] + 2 <= m && m + 2 <= marks[k + 1]
    requires FirstAt(c, marks, pos, exact) && pos != marks[k]
    ensures var d, ms := Split(c, marks[k], m, marks[k + 1]), Inserted(marks, k, m);
            Chain(d, ms) && FirstAt(d, ms, pos, exact)
  {
    var d, ms := Split(c, marks[k], m, marks[k + 1]), Inserted(marks, k, m);
    SplitChain(c, marks, k, m);
    InsertedMarks(c, marks, k, m);
    assert pos < marks[k];
    var i :| 0 <= i < |marks| && marks[i] == pos;
    assert d[pos] == c[pos];
    assert ms[i] == InsertedAt(marks, k, m, i);
    forall j | 0 <= j < |ms| && ms[j] < pos ensures !Free(d, ms, j) {
      assert ms[j] == InsertedAt(marks, k, m, j);
    }
  }

  // ---- Emptying a sub-block and joining it with free neighbours

  lemma EmptiedIndex(c: seq<Cell>, marks: seq<int>, k: int, pos: int, exact: bool, v: int)
    requires Chain(c, marks) && 0 <= k < |marks| - 1 && !Free(c, marks, k)
    requires FirstAt(c, marks, pos, exact) && Largest(c, marks, v)
    ensures var d := Filled(c, marks[k], marks[k + 1], false);
            && Chain(d, marks)
            && FirstAt(d, marks, if marks[k] < pos then marks[k] else pos, exact)
            && Largest(d, marks, Max(v, SizeOf(marks, k)))
  {
    var d := Filled(c, marks[k], marks[k + 1], false);
    FilledChain(c, marks, k, false);
    var i :| 0 <= i < |marks| && marks[i] == pos;
    assert !c[pos].next.fill <==> Free(c, marks, i);
    assert !d[pos].next.fill <==> Free(d, marks, i);
    assert Free(d, marks, k);
    if v != 0 {
      var j :| 0 <= j < |marks| - 1 && Free(c, marks, j) && SizeOf(marks, j) == v;
      assert Free(d, marks, j);
    }
  }

  lemma JoinedSizes(c: seq<Cell>, marks: seq<int>, k: int, j: int)
    requires Chain(c, marks) && 0 <= k < |marks| - 2 && 0 <= j < |marks| - 2
    ensures SizeOf(Removed(marks, k + 1), j) ==
            if j == k then 8 * (marks[k + 2] - marks[k] - 1) else SizeOf(marks, if j < k then j else j + 1)
    ensures SizeOf(marks, k) < 8 * (marks[k + 2] - marks[k] - 1)
    ensures SizeOf(marks, k + 1) < 8 * (marks[k + 2] - marks[k] - 1)
  {
    RemovedSizes(c, marks, k, j);
  }

  lemma JoinedFirst(c: seq<Cell>, marks: seq<int>, k: int, pos: int, exact: bool)
    requires Chain(c, marks) && 0 <= k < |marks| - 2 && Free(c, marks, k) && Free(c, marks, k + 1)
    requires FirstAt(c, marks, pos, exact)
    ensures var d, ms := Joined(c, marks[k], marks[k + 1], marks[k + 2]), Removed(marks, k + 1);
            Chain(d, ms) && FirstAt(d, ms, pos, exact)
  {
    var d, ms := Joined(c, marks[k], marks[k + 1], marks[k + 2]), Removed(marks, k + 1);
    JoinedChain(c, marks, k);
    RemovedMarks(c, marks, k + 1);
    assert pos <= marks[k];
    var i :| 0 <= i < |marks| && marks[i] == pos;
    assert ms[i] == RemovedAt(marks, k + 1, i);
    assert marks[k] < marks[k + 2];
    assert d[pos].next.fill == c[pos].next.fill;
    forall j | 0 <= j < |ms| && ms[j] < pos ensures !Free(d, ms, j) {
      assert ms[j] == RemovedAt(marks, k + 1, j);
    }
  }

  lemma JoinedKeeps(c: seq<Cell>, marks: seq<int>, k: int, j: int)
    requires Chain(c, marks) && 0 <= k < |marks| - 2 && Free(c, marks, k) && Free(c, marks, k + 1)
    requires 0 <= j < |marks| - 1 && Free(c, marks, j) && j != k && j != k + 1
    ensures var d, ms, i := Joined(c, marks[k], marks[k + 1], marks[k + 2]), Removed(marks, k + 1), if j < k then j
        else j - 1;
            Chain(d, ms) && |ms| == |marks| - 1 && Free(d, ms, i) && SizeOf(ms, i) == SizeOf(marks, j)
  {
    hide Joined, Removed, LinkOK, SizeOf;
    JoinedChain(c, marks, k);
    RemovedMarks(c, marks, k + 1);
    JoinedSizes(c, marks, k, if j < k then j else j - 1);
  }

  lemma JoinedBound(c: seq<Cell>, marks: seq<int>, k: int, v: int, j: int)
    requires Chain(c, marks) && 0 <= k < |marks| - 2 && Free(c, marks, k) && Free(c, marks, k + 1)
    requires Largest(c, marks, v) && 0 <= j < |marks| - 2
    requires var ms := Removed(marks, k + 1);
             && Chain(Joined(c, marks[k], marks[k + 1], marks[k + 2]), ms) && |ms| == |marks| - 1
             && Free(Joined(c, marks[k], marks[k + 1], marks[k + 2]), ms, j)
    ensures SizeOf(Removed(marks, k + 1), j) <= Max(v, 8 * (marks[k + 2] - marks[k] - 1))
  {
    hide Joined, Removed, LinkOK, Ordered, SizeOf, Free;
    JoinedChain(c, marks, k);
    JoinedSizes(c, marks, k, j);
  }

  lemma JoinedLargest(c: seq<Cell>, marks: seq<int>, k: int, v: int)
    requires Chain(c, marks) && 0 <= k < |marks| - 2 && Free(c, marks, k) && Free(c, marks, k + 1)
    requires Largest(c, marks, v)
    ensures var d, ms := Joined(c, marks[k], marks[k + 1], marks[k + 2]), Removed(marks, k + 1);
            Chain(d, ms) && Largest(d, ms, Max(v, 8 * (marks[k + 2] - marks[k] - 1)))
  {
    var d, ms := Joined(c, marks[k], marks[k + 1], marks[k + 2]), Removed(marks, k + 1);
    hide Joined, Removed, LinkOK, Ordered, SizeOf, Free;
    JoinedChain(c, marks, k);
    RemovedMarks(c, marks, k + 1);
    var all := 8 * (marks[k + 2] - marks[k] - 1);
    forall j | 0 <= j < |ms| - 1 && Free(d, ms, j) ensures SizeOf(ms, j) <= Max(v, all) {
      JoinedBound(c, marks, k, v, j);
    }
    JoinedSizes(c, marks, k, k);
    assert Free(d, ms, k) && SizeOf(ms, k) == all;
    if all < v {
      var j :| 0 <= j < |marks| - 1 && Free(c, marks, j) && SizeOf(marks, j) == v;
      JoinedKeeps(c, marks, k, j);
    }
  }

  /** No free neighbours but, possibly, sub-block k and the one behind it. */
  predicate MergedBut(c: seq<Cell>, marks: seq<int>, k: int, before: bool, after: bool)
    requires Ordered(c, marks)
  {
    forall j | 0 <= j < |marks| - 2 && !(before && j + 1 == k) && !(after && j == k) ::
      Free(c, marks, j) ==> !Free(c, marks, j + 1)
  }

  lemma JoinedMerged(c: seq<Cell>, marks: seq<int>, k: int, after: bool)
    requires Chain(c, marks) && 0 <= k < |marks| - 2 && Free(c, marks, k) && Free(c, marks, k + 1)
    requires if after then MergedBut(c, marks, k + 1, true, true) else MergedBut(c, marks, k, false, true)
    ensures var d, ms := Joined(c, marks[k], marks[k + 1], marks[k + 2]), Removed(marks, k + 1);
            Chain(d, ms) && MergedBut(d, ms, k, false, after)
  {
    var d, ms := Joined(c, marks[k], marks[k + 1], marks[k + 2]), Removed(marks, k + 1);
    hide Joined, Removed, LinkOK;
    JoinedChain(c, marks, k);
    RemovedMarks(c, marks, k + 1);
    forall j | 0 <= j < |ms| - 2 && !(after && j == k)
      ensures Free(d, ms, j) ==> !Free(d, ms, j + 1)
    {
      var i := if j < k then j else j + 1;
      assert Free(c, marks, i) ==> !Free(c, marks, i + 1);
    }
  }

  // ---- Allocation as one step

  /** Enough is left behind `size` bytes for a sub-block of its own. */
  predicate Cuts(marks: seq<int>, k: int, size: int)
    requires 0 <= k < |marks| - 1
  {
    SizeOf(marks, k) > size + 2 * MARK + THRESHOLD
  }

  function AllocCells(c: seq<Cell>, marks: seq<int>, k: int, size: int): seq<Cell>
    requires Chain(c, marks) && 0 <= k < |marks| - 1 && size % 8 == 0 && 8 <= size <= SizeOf(marks, k)
  {
    if Cuts(marks, k, size) then Split(c, marks[k], marks[k] + size / 8 + 1, marks[k + 1])
    else Filled(c, marks[k], marks[k + 1], true)
  }

  function AllocMarks(marks: seq<int>, k: int, size: int): seq<int>
    requires 0 <= k < |marks| - 1
  {
    if Cuts(marks, k, size) then Inserted(marks, k, marks[k] + size / 8 + 1) else marks
  }

  /** The payload that results: the requested size, or all of the sub-block. */
  function AllocPayload(marks: seq<int>, k: int, size: int): (int, int)
    requires 0 <= k < |marks| - 1
  {
    (marks[k] + 1, if Cuts(marks, k, size) then size / 8 else marks[k + 1] - marks[k] - 1)
  }

  /** Allocation adds one payload, big enough, to a coherent chain and touches no other. */
  lemma AllocKeepsChain(c: seq<Cell>, marks: seq<int>, k: int, size: int)
    requires Chain(c, marks) && Merged(c, marks) && 0 <= k < |marks| - 1 && Free(c, marks, k)
    requires size % 8 == 0 && 8 <= size <= SizeOf(marks, k)
    ensures var d, ms, p := AllocCells(c, marks, k, size), AllocMarks(marks, k, size), AllocPayload(marks, k, size);
            && Chain(d, ms) && Merged(d, ms) && Live(d, ms) == Live(c, marks) + {p}
            && size <= 8 * p.1 && SameCells(c, d, Live(c, marks))
  {
    hide Split, Filled, Inserted, LinkOK, SameCells, Merged, Live;
    if Cuts(marks, k, size) {
      var m := marks[k] + size / 8 + 1;
      SplitMerged(c, marks, k, m);
      SplitLive(c, marks, k, m);
    } else {
      FilledIndex(c, marks, k, 0, false, 0);
      FilledLive(c, marks, k);
    }
  }

  /** The payload of a free sub-block is not among the live ones, whatever its length. */
  lemma AllocIsNew(c: seq<Cell>, marks: seq<int>, k: int, q: (int, int))
    requires Ordered(c, marks) && 0 <= k < |marks| - 1 && Free(c, marks, k) && q in Live(c, marks)
    ensures q.0 != marks[k] + 1
  {
    var j :| 0 <= j < |marks| - 1 && !Free(c, marks, j) && Payload(marks, j) == q;
  }

  /** Unless it takes the largest or the first one, allocation leaves the index right. */
  lemma AllocKeepsIndex(c: seq<Cell>, marks: seq<int>, k: int, size: int, pos: int, exact: bool, v: int)
    requires Chain(c, marks) && Merged(c, marks) && 0 <= k < |marks| - 1 && Free(c, marks, k)
    requires size % 8 == 0 && 8 <= size <= SizeOf(marks, k)
    ensures var d, ms := AllocCells(c, marks, k, size), AllocMarks(marks, k, size);
            && Chain(d, ms)
            && (Largest(c, marks, v) && SizeOf(marks, k) != v ==> Largest(d, ms, v))
            && (FirstAt(c, marks, pos, exact) && pos != marks[k] ==> FirstAt(d, ms, pos, exact))
  {
    hide Split, Filled, Inserted, LinkOK, Merged, Largest, FirstAt;
    if Cuts(marks, k, size) {
      var m := marks[k] + size / 8 + 1;
      SplitChain(c, marks, k, m);
      if Largest(c, marks, v) && SizeOf(marks, k) != v { SplitLargest(c, marks, k, m, v); }
      if FirstAt(c, marks, pos, exact) && pos != marks[k] { SplitFirst(c, marks, k, m, pos, exact); }
    } else {
      FilledIndex(c, marks, k, pos, exact, v);
    }
  }

  /** What allocation leaves of the marks up to the one it fills. */
  lemma AllocPrefix(c: seq<Cell>, marks: seq<int>, k: int, size: int, j: int)
    requires Chain(c, marks) && Merged(c, marks) && 0 <= k < |marks| - 1 && Free(c, marks, k) && 0 <= j <= k
    requires size % 8 == 0 && 8 <= size <= SizeOf(marks, k)
    ensures var d, ms := AllocCells(c, marks, k, size), AllocMarks(marks, k, size);
            && Chain(d, ms) && k < |ms| - 1 && ms[j] == marks[j] && (Free(d, ms, j) <==> j != k && Free(c, marks, j))
  {
    if Cuts(marks, k, size) {
      CutPrefix(c, marks, k, size, j);
    } else {
      FilledChain(c, marks, k, true);
    }
  }

  lemma CutPrefix(c: seq<Cell>, marks: seq<int>, k: int, size: int, j: int)
    requires Chain(c, marks) && Merged(c, marks) && 0 <= k < |marks| - 1 && Free(c, marks, k) && 0 <= j <= k
    requires size % 8 == 0 && 8 <= size <= SizeOf(marks, k) && Cuts(marks, k, size)
    ensures var d, ms := AllocCells(c, marks, k, size), AllocMarks(marks, k, size);
            && Chain(d, ms) && k < |ms| - 1 && ms[j] == marks[j] && (Free(d, ms, j) <==> j != k && Free(c, marks, j))
  {
    var m := marks[k] + size / 8 + 1;
    CutFits(c, marks, k, size);
    hide LinkOK, Merged, Split, Inserted, Chain, Ordered, Free;
    CutBefore(c, marks, k, m, j);
  }

  lemma CutBefore(c: seq<Cell>, marks: seq<int>, k: int, m: int, j: int)
    requires Chain(c, marks) && 0 <= j <= k < |marks| - 1 && marks[k] + 2 <= m && m + 2 <= marks[k + 1]
    ensures var d, ms := Split(c, marks[k], m, marks[k + 1]), Inserted(marks, k, m);
            && Chain(d, ms) && |ms| == |marks| + 1 && ms[j] == marks[j]
            && (Free(d, ms, j) <==> j != k && Free(c, marks, j))
  {
    var d, ms := Split(c, marks[k], m, marks[k + 1]), Inserted(marks, k, m);
    InsertedMarks(c, marks, k, m);
    assert ms[j] == InsertedAt(marks, k, m, j);
    SplitChain(c, marks, k, m);
    hide LinkOK, Split, Inserted, Chain, Ordered, Free;
    assert Free(d, ms, j) <==> FreeAfterSplit(c, marks, k, j);
  }

  lemma CutFits(c: seq<Cell>, marks: seq<int>, k: int, size: int)
    requires Chain(c, marks) && 0 <= k < |marks| - 1 && size % 8 == 0 && 8 <= size <= SizeOf(marks, k)
    requires Cuts(marks, k, size)
    ensures var m := marks[k] + size / 8 + 1; 0 <= marks[k] && marks[k] + 2 <= m && m + 2 <= marks[k + 1] < |c|
    ensures 8 * |c| < 0x8000_0000
  {}

  /** Taking the first free sub-block and walking on from it finds the new first one. */
  lemma FirstMoves(c: seq<Cell>, marks: seq<int>, k: int, size: int, f: int)
    requires Chain(c, marks) && Merged(c, marks) && 0 <= k < |marks| - 1 && Free(c, marks, k)
    requires size % 8 == 0 && 8 <= size <= SizeOf(marks, k)
    requires forall j | 0 <= j < k :: !Free(c, marks, j)
    requires var d, ms := AllocCells(c, marks, k, size), AllocMarks(marks, k, size);
        Chain(d, ms) && k < |ms| && FirstFree(d, ms, k, f)
    ensures var d, ms := AllocCells(c, marks, k, size), AllocMarks(marks, k, size); FirstAt(d, ms, ms[f], true)
  {
    var d, ms := AllocCells(c, marks, k, size), AllocMarks(marks, k, size);
    forall j | 0 <= j < f ensures !Free(d, ms, j) {
      if j < k { AllocPrefix(c, marks, k, size, j); }
    }
    hide AllocCells, AllocMarks, LinkOK;
  }

  /** With an exact first free sub-block, the chosen one is preceded by filled ones only if
      it is that one. */
  lemma BeforeFirst(c: seq<Cell>, marks: seq<int>, pos: int, exact: bool, k: int)
    requires Ordered(c, marks) && FirstAt(c, marks, pos, exact) && 0 <= k < |marks| && marks[k] == pos
    ensures forall j | 0 <= j < k :: !Free(c, marks, j)
  {}

  /** The mark behind the filled sub-block. */
  lemma AllocBehind(c: seq<Cell>, marks: seq<int>, k: int, size: int)
    requires Chain(c, marks) && Merged(c, marks) && 0 <= k < |marks| - 1 && Free(c, marks, k)
    requires size % 8 == 0 && 8 <= size <= SizeOf(marks, k)
    ensures k + 1 < |AllocMarks(marks, k, size)|
    ensures AllocMarks(marks, k, size)[k + 1] == if Cuts(marks, k, size) then marks[k] + size / 8 + 1 else marks[k + 1]
    ensures var d, ms := AllocCells(c, marks, k, size), AllocMarks(marks, k, size); Chain(d, ms) && !Free(d, ms, k)
  {
    AllocPrefix(c, marks, k, size, k);
    if Cuts(marks, k, size) {
      var m := marks[k] + size / 8 + 1;
      InsertedMarks(c, marks, k, m);
      assert Inserted(marks, k, m)[k + 1] == InsertedAt(marks, k, m, k + 1);
    }
  }

  /** Emptying a sub-block breaks the merging rule only around it. */
  lemma EmptiedMerged(c: seq<Cell>, marks: seq<int>, k: int)
    requires Chain(c, marks) && Merged(c, marks) && 0 <= k < |marks| - 1 && !Free(c, marks, k)
    ensures var d := Filled(c, marks[k], marks[k + 1], false); Chain(d, marks) && MergedBut(d, marks, k, true, true)
  {
    FilledChain(c, marks, k, false);
    var d := Filled(c, marks[k], marks[k + 1], false);
    forall j | 0 <= j < |marks| - 2 && j + 1 != k && j != k ensures Free(d, marks, j) ==> !Free(d, marks, j + 1) {
      assert Free(c, marks, j) ==> !Free(c, marks, j + 1);
    }
  }

  /** The chain on the way from (c0, ms0), whose k0-th sub-block is being given back, to its
      coherent state: sub-block k is free and may still have free neighbours. */
  ghost predicate Freeing(c0: seq<Cell>, ms0: seq<int>, k0: int, pos: int, exact: bool, v: int,
                          c: seq<Cell>, ms: seq<int>, k: int, before: bool, after: bool) {
    && Chain(c0, ms0) && 0 <= k0 < |ms0| - 1
    && Chain(c, ms) && 0 <= k < |ms| - 1 && Free(c, ms, k)
    && MergedBut(c, ms, k, before, after)
    && Live(c, ms) == Live(c0, ms0) - {Payload(ms0, k0)} && SameCells(c0, c, Live(c, ms))
    && FirstAt(c, ms, pos, exact) && Largest(c, ms, Max(v, SizeOf(ms, k))) && SizeOf(ms, k) >= SizeOf(ms0, k0)
    && pos <= ms[k] <= ms0[k0]
  }

  lemma SameCellsTrans(c: seq<Cell>, d: seq<Cell>, e: seq<Cell>, live: set<(int, int)>)
    requires SameCells(c, d, live) && SameCells(d, e, live)
    ensures SameCells(c, e, live)
  {}

  lemma FreeingStarts(c: seq<Cell>, marks: seq<int>, k: int, first: int, exact: bool, v: int)
    requires Chain(c, marks) && Merged(c, marks) && 0 <= k < |marks| - 1 && !Free(c, marks, k)
    requires FirstAt(c, marks, first, exact) && Largest(c, marks, v)
    ensures Freeing(c, marks, k, if marks[k] < first then marks[k] else first, exact, v,
                    Filled(c, marks[k], marks[k + 1], false), marks, k, true, true)
  {
    EmptiedLive(c, marks, k);
    EmptiedIndex(c, marks, k, first, exact, v);
    EmptiedMerged(c, marks, k);
    FilledChain(c, marks, k, false);
  }

  lemma JoinedHead(c: seq<Cell>, marks: seq<int>, k: int)
    requires Chain(c, marks) && 0 <= k < |marks| - 2 && Free(c, marks, k) && Free(c, marks, k + 1)
    ensures var d, ms := Joined(c, marks[k], marks[k + 1], marks[k + 2]), Removed(marks, k + 1);
            Chain(d, ms) && |ms| == |marks| - 1 && Free(d, ms, k) && ms[k] == marks[k]
  {
    hide Joined, Removed, LinkOK;
    JoinedChain(c, marks, k);
    RemovedMarks(c, marks, k + 1);
    assert Removed(marks, k + 1)[k] == RemovedAt(marks, k + 1, k);
  }

  /** The joined sub-block is the largest if its part was. */
  lemma JoinedBigger(c: seq<Cell>, marks: seq<int>, j: int, k: int, v: int)
    requires Chain(c, marks) && 0 <= j < |marks| - 2 && Free(c, marks, j) && Free(c, marks, j + 1) && j <= k <= j + 1
    ensures var all := 8 * (marks[j + 2] - marks[j] - 1);
            SizeOf(Removed(marks, j + 1), j) == all && SizeOf(marks, k) <= all &&
              Max(Max(v, SizeOf(marks, k)), all) == Max(v, all)
  {
    JoinedSizes(c, marks, j, j);
  }

  /** Joining two free sub-blocks, with all it keeps. */
  lemma JoinStep(c: seq<Cell>, ms: seq<int>, j: int, k: int, pos: int, exact: bool, v: int, before: bool)
    requires Chain(c, ms) && 0 <= j < |ms| - 2 && j <= k <= j + 1 && Free(c, ms, j) && Free(c, ms, j + 1)
    requires MergedBut(c, ms, k, before, true) && (if before then j + 1 == k else j == k)
    requires FirstAt(c, ms, pos, exact) && Largest(c, ms, Max(v, SizeOf(ms, k)))
    ensures 0 <= ms[j] < ms[j + 1] < ms[j + 2] < |c| && 8 * |c| < 0x8000_0000 && pos <= ms[j] <= ms[k]
    ensures var d, rs := Joined(c, ms[j], ms[j + 1], ms[j + 2]), Removed(ms, j + 1);
            && Chain(d, rs) && |rs| == |ms| - 1 && rs[j] == ms[j] && Free(d, rs, j)
            && Live(d, rs) == Live(c, ms) && SameCells(c, d, Live(c, ms))
            && FirstAt(d, rs, pos, exact) && Largest(d, rs, Max(v, SizeOf(rs, j))) && SizeOf(rs, j) >= SizeOf(ms, k)
            && MergedBut(d, rs, j, false, before)
  {
    hide Joined, Removed, Live, SameCells, FirstAt, Largest, MergedBut, LinkOK;
    JoinedLive(c, ms, j);
    JoinedFirst(c, ms, j, pos, exact);
    JoinedLargest(c, ms, j, Max(v, SizeOf(ms, k)));
    JoinedMerged(c, ms, j, before);
    JoinedHead(c, ms, j);
    FirstBefore(c, ms, pos, exact, j);
    JoinedBigger(c, ms, j, k, v);
  }

  lemma FreeingJoins(c0: seq<Cell>, ms0: seq<int>, k0: int, pos: int, exact: bool, v: int,
                     c: seq<Cell>, ms: seq<int>, k: int, j: int, before: bool)
    requires Freeing(c0, ms0, k0, pos, exact, v, c, ms, k, before, true)
    requires if before then j + 1 == k else j == k
    requires 0 <= j < |ms| - 2 && Free(c, ms, j) && Free(c, ms, j + 1)
    ensures Freeing(c0, ms0, k0, pos, exact, v,
                    Joined(c, ms[j], ms[j + 1], ms[j + 2]), Removed(ms, j + 1), j, false, before)
    ensures |Removed(ms, j + 1)| == |ms| - 1 && Removed(ms, j + 1)[j] == ms[j]
  {
    hide Joined, Removed, Live, SameCells, FirstAt, Largest, MergedBut, LinkOK, Ordered, SizeOf;
    JoinStep(c, ms, j, k, pos, exact, v, before);
    SameCellsTrans(c0, c, Joined(c, ms[j], ms[j + 1], ms[j + 2]), Live(c, ms));
  }

  /** With nothing left to join, the chain is coherent again and the index follows. */
  lemma FreeingEnds(c0: seq<Cell>, ms0: seq<int>, k0: int, first: int, exact: bool, v: int, c: seq<Cell>,
                    ms: seq<int>, k: int)
    requires Ordered(c0, ms0) && 0 <= k0 < |ms0| - 1
    requires Freeing(c0, ms0, k0, if ms0[k0] < first then ms0[k0] else first, exact, v, c, ms, k, false, false)
    ensures Chain(c, ms) && Merged(c, ms) && 0 <= k < |ms| - 1
    ensures FirstAt(c, ms, if ms[k] < first then ms[k] else first, exact)
    ensures Largest(c, ms, Max(v, SizeOf(ms, k))) && SizeOf(ms, k) >= SizeOf(ms0, k0)
    ensures Live(c, ms) == Live(c0, ms0) - {Payload(ms0, k0)} && SameCells(c0, c, Live(c, ms))
  {
    hide Live, SameCells, LinkOK, FirstAt, Largest, Ordered;
  }

  /** Where no free neighbour is left on a side, that side is settled. */
  lemma FreeingSettled(c0: seq<Cell>, ms0: seq<int>, k0: int, pos: int, exact: bool, v: int,
                       c: seq<Cell>, ms: seq<int>, k: int, before: bool, after: bool, before': bool, after': bool)
    requires Freeing(c0, ms0, k0, pos, exact, v, c, ms, k, before, after)
    requires before' || !before || k == 0 || !Free(c, ms, k - 1)
    requires after' || !after || k + 1 == |ms| - 1 || !Free(c, ms, k + 1)
    ensures Freeing(c0, ms0, k0, pos, exact, v, c, ms, k, before', after')
  {
    hide Live, SameCells, LinkOK, FirstAt, Largest;
  }

  lemma FreeingFacts(c0: seq<Cell>, ms0: seq<int>, k0: int, pos: int, exact: bool, v: int,
                     c: seq<Cell>, ms: seq<int>, k: int, before: bool, after: bool)
    requires Freeing(c0, ms0, k0, pos, exact, v, c, ms, k, before, after)
    ensures Chain(c, ms) && 0 <= k < |ms| - 1 && Free(c, ms, k) && c[ms[k]].next.size == SizeOf(ms, k)
    ensures 0 < k ==> (c[ms[k]].prev.fill <==> !Free(c, ms, k - 1))
  {
    assert LinkOK(c, ms, k);
    if 0 < k { assert LinkOK(c, ms, k - 1); }
  }

  /** How many cells a request for `size` bytes gets from a free sub-block of r cells: just as many
      as it needs, or all of them when a sub-block of the rest would not be worth its mark. */
  function Served(size: int, r: int): int {
    if 8 * r > size + 2 * MARK + THRESHOLD then size / 8 else r
  }

  /** What stays free behind the first n of r cells at p. */
  function Behind(p: int, n: int, r: int): set<(int, int)> {
    if n < r then {(p + n + 1, r - n - 1)} else {}
  }

  /** The free sub-block at p, of r cells, is the first that `size` bytes fit in. */
  ghost predicate FirstFit(spare: set<(int, int)>, size: int, p: int, r: int) {
    (p, r) in spare && size <= 8 * r && forall q | q in spare && size <= 8 * q.1 :: p <= q.0
  }

  /** n cells at p were taken for `size` bytes out of the first free sub-block that they fit in; what
      is left of it stays free, and nothing else changes. */
  ghost predicate CutFrom(spare: set<(int, int)>, now: set<(int, int)>, size: int, p: int, n: int) {
    exists r :: FirstFit(spare, size, p, r) && n == Served(size, r) && now == spare - {(p, r)} + Behind(p, n, r)
  }

  /** No free sub-block is large enough. */
  ghost predicate NoFit(spare: set<(int, int)>, size: int) {
    forall q | q in spare :: 8 * q.1 < size
  }

  /** The allocation a was cut from the first block that has a free sub-block for it; those of the
      other blocks are as they were. */
  ghost predicate ServedFirst(spares: seq<set<(int, int)>>, now: seq<set<(int, int)>>, size: int, a: (int, int, int)) {
    && 0 <= a.0 < |spares| == |now| && now == spares[a.0 := now[a.0]] && CutFrom(spares[a.0], now[a.0], size, a.1, a.2)
    && forall j | 0 <= j < a.0 :: NoFit(spares[j], size)
  }

  /** No request gets more than 128 bytes over what it asks for: from a larger sub-block it gets
      exactly what it asks for, and the rest stays free. */
  lemma ServedEnough(size: int, p: int, r: int)
    requires size % 8 == 0 && 8 <= size <= 8 * r
    ensures var n := Served(size, r);
            && size <= 8 * n <= size + 128 && n <= r
            && (8 * r > size + 128 ==> 8 * n == size && Behind(p, n, r) == {(p + n + 1, r - n - 1)} && r - n - 1 >= 14)
            && (8 * r <= size + 128 ==> n == r && Behind(p, n, r) == {})
  {}

  /** The payload gained, and what is left of the sub-block, as the caller sees them. */
  lemma AllocGained(c: seq<Cell>, marks: seq<int>, k: int, size: int, asked: int)
    requires Chain(c, marks) && Merged(c, marks) && 0 <= k < |marks| - 1 && Free(c, marks, k)
    requires size % 8 == 0 && 8 <= asked <= size <= SizeOf(marks, k)
    requires size == asked || (size == SizeOf(marks, k) && size - asked < THRESHOLD)
    ensures var d, ms := AllocCells(c, marks, k, size), AllocMarks(marks, k, size);
            var p, r := marks[k] + 1, marks[k + 1] - marks[k] - 1;
            var n := Served(asked, r);
            && Chain(d, ms) && SameCells(c, d, Live(c, marks))
            && Live(d, ms) == Live(c, marks) + {(p, n)} && Spare(d, ms) == Spare(c, marks) - {(p, r)} + Behind(p, n, r)
            && (forall q | q in Live(c, marks) :: q.0 != p)
  {
    AllocKeepsChain(c, marks, k, size);
    AllocSpares(c, marks, k, size);
    hide LinkOK, AllocCells, AllocMarks, SameCells;
    assert AllocPayload(marks, k, size) == (marks[k] + 1, Served(asked, marks[k + 1] - marks[k] - 1));
    forall q | q in Live(c, marks) ensures q.0 != marks[k] + 1 { AllocIsNew(c, marks, k, q); }
  }

  lemma AllocSpares(c: seq<Cell>, marks: seq<int>, k: int, size: int)
    requires Chain(c, marks) && Merged(c, marks) && 0 <= k < |marks| - 1 && Free(c, marks, k)
    requires size % 8 == 0 && 8 <= size <= SizeOf(marks, k)
    ensures var d, ms := AllocCells(c, marks, k, size), AllocMarks(marks, k, size);
            var p, r := marks[k] + 1, marks[k + 1] - marks[k] - 1;
            var n := AllocPayload(marks, k, size).1;
            Chain(d, ms) && Spare(d, ms) == Spare(c, marks) - {(p, r)} + Behind(p, n, r)
  {
    if Cuts(marks, k, size) {
      CutSpares(c, marks, k, size);
    } else {
      hide LinkOK, Filled, Spare;
      FilledSpare(c, marks, k);
    }
  }

  lemma CutSpares(c: seq<Cell>, marks: seq<int>, k: int, size: int)
    requires Chain(c, marks) && 0 <= k < |marks| - 1 && Free(c, marks, k) && Cuts(marks, k, size)
    requires size % 8 == 0 && 8 <= size <= SizeOf(marks, k)
    ensures var d, ms := AllocCells(c, marks, k, size), AllocMarks(marks, k, size);
            var p, r, n := marks[k] + 1, marks[k + 1] - marks[k] - 1, size / 8;
            Chain(d, ms) && Spare(d, ms) == Spare(c, marks) - {(p, r)} + Behind(p, n, r)
  {
    hide LinkOK, Split, Inserted, Spare, Free, Behind, Chain, Ordered;
    CutAt(c, marks, k, size / 8);
  }

  lemma CutAt(c: seq<Cell>, marks: seq<int>, k: int, n: int)
    requires Chain(c, marks) && 0 <= k < |marks| - 1 && Free(c, marks, k) && 1 <= n
    requires n + 2 < marks[k + 1] - marks[k] - 1
    ensures var s, t := marks[k], marks[k + 1];
            var d, ms := Split(c, s, s + n + 1, t), Inserted(marks, k, s + n + 1);
            Chain(d, ms) && Spare(d, ms) == Spare(c, marks) - {(s + 1, t - s - 1)} + Behind(s + 1, n, t - s - 1)
  {
    hide LinkOK, Split, Inserted, Spare;
    SplitSpare(c, marks, k, marks[k] + n + 1);
  }

  /** The first free sub-block found from the stored `first` on is the first one of all. */
  lemma FoundFirstFit(c: seq<Cell>, marks: seq<int>, first: int, exact: bool, f: int, k: int, size: int)
    requires Ordered(c, marks) && FirstAt(c, marks, first, exact) && 0 <= f <= k < |marks| - 1 && marks[f] == first
    requires Free(c, marks, k) && SizeOf(marks, k) >= size
    requires forall j | f <= j < k :: Free(c, marks, j) ==> SizeOf(marks, j) < size
    ensures FirstFit(Spare(c, marks), size, marks[k] + 1, marks[k + 1] - marks[k] - 1)
  {
    SpareAt(c, marks, k);
    forall q | q in Spare(c, marks) && size <= 8 * q.1 ensures marks[k] + 1 <= q.0 {
      var j :| 0 <= j < |marks| - 1 && Free(c, marks, j) && Payload(marks, j) == q;
      if j < f { BeforeFirst(c, marks, first, exact, f); }
    }
  }

  lemma FirstOfOne(c: seq<Cell>, marks: seq<int>)
    requires Ordered(c, marks) && marks == [0, |c| - 1] && Free(c, marks, 0)
    ensures FirstAt(c, marks, 0, true)
  {
    assert marks[0] == 0;
  }

  /** Writing a cell that is no mark changes nothing but that cell. */
  lemma StoreKeepsChain(c: seq<Cell>, marks: seq<int>, i: int, v: Cell)
    requires Chain(c, marks) && 0 <= i < |c| && i !in marks
    ensures var d := c[i := v];
            Chain(d, marks) && forall k | 0 <= k < |marks| :: d[marks[k]] == c[marks[k]]
  {
    var d := c[i := v];
    assert forall k | 0 <= k < |marks| :: marks[k] in marks && d[marks[k]] == c[marks[k]];
    assert marks[0] == 0 && marks[|marks| - 1] == |c| - 1;
    forall k | 0 <= k < |marks| - 1 ensures LinkOK(d, marks, k) { assert LinkOK(c, marks, k); }
  }

  lemma StoreKeeps(c: seq<Cell>, marks: seq<int>, i: int, v: Cell, pos: int, exact: bool, w: int)
    requires Chain(c, marks) && 0 <= i < |c| && i !in marks
    requires Merged(c, marks) && FirstAt(c, marks, pos, exact) && Largest(c, marks, w)
    ensures var d := c[i := v];
            Chain(d, marks) && Merged(d, marks) && Live(d, marks) == Live(c, marks)
            && FirstAt(d, marks, pos, exact) && Largest(d, marks, w)
  {
    var d := c[i := v];
    StoreKeepsChain(c, marks, i, v);
    assert forall k | 0 <= k < |marks| :: Free(d, marks, k) <==> Free(c, marks, k);
    hide LinkOK;
    var f :| 0 <= f < |marks| && marks[f] == pos;
    assert d[marks[f]] == c[marks[f]];
    forall j | 0 <= j < |marks| - 2 ensures Free(d, marks, j) ==> !Free(d, marks, j + 1) {
      assert Free(c, marks, j) ==> !Free(c, marks, j + 1);
    }
    if w != 0 {
      var k :| 0 <= k < |marks| - 1 && Free(c, marks, k) && SizeOf(marks, k) == w;
      assert Free(d, marks, k);
    }
  }

  /** A cell of a live payload is no mark. */
  lemma PayloadIsNoMark(c: seq<Cell>, marks: seq<int>, p: (int, int), i: int)
    requires Ordered(c, marks) && p in Live(c, marks) && p.0 <= i < p.0 + p.1
    ensures 0 < i < |c| - 1 && i !in marks
  {
    var k :| 0 <= k < |marks| - 1 && !Free(c, marks, k) && Payload(marks, k) == p;
    forall j | 0 <= j < |marks| ensures marks[j] != i {}
  }

  /** Looking for a free sub-block from anywhere before the first one finds the first one. */
  lemma FirstFound(c: seq<Cell>, marks: seq<int>, first: int, k: int, f: int)
    requires Ordered(c, marks) && FirstAt(c, marks, first, true) && 0 <= k < |marks| && marks[k] <= first
    requires FirstFree(c, marks, k, f)
    ensures marks[f] == first
  {
    var g :| 0 <= g < |marks| && marks[g] == first;
    assert Free(c, marks, g);
    assert k <= g;
    assert f <= g;
    assert !(marks[f] < first);
  }
}
