/** The chain of boundary marks of one block of the allocator (src/custommem.c). Memory is
    seen in cells of 8 bytes, the size of a mark; every 32-bit word is a 31-bit size, in
    bytes, and a fill bit, so a cell may equally well hold payload. */
module BlockChain {

  const MARK := 8           // sizeof(blockmark_t)
  const THRESHOLD := 112    // 128 - 2 * sizeof(blockmark_t)

  type Size31 = n: int | 0 <= n < 0x8000_0000

  datatype Word = Word(size: Size31, fill: bool)
  datatype Cell = Cell(prev: Word, next: Word)

  const NONE := Word(0, false)   // x32 == 0

  /** The mark behind the sub-block at b, as NEXT_BLOCK computes it. */
  function Next(c: seq<Cell>, b: int): int
    requires 0 <= b < |c|
  {
    b + c[b].next.size / 8 + 1
  }

  /** The mark before the mark at b, as PREV_BLOCK computes it. */
  function Prev(c: seq<Cell>, b: int): int
    requires 0 <= b < |c|
  {
    b - c[b].prev.size / 8 - 1
  }

  predicate Ordered(c: seq<Cell>, marks: seq<int>) {
    && |marks| >= 2 && marks[0] == 0 && marks[|marks| - 1] == |c| - 1 && 8 * |c| < 0x8000_0000
    && forall i, j | 0 <= i < j < |marks| :: 0 <= marks[i] && marks[i] + 2 <= marks[j] < |c|
  }

  /** The size, in bytes, of the k-th sub-block. */
  function SizeOf(marks: seq<int>, k: int): int
    requires 0 <= k < |marks| - 1
  {
    8 * (marks[k + 1] - marks[k] - 1)
  }

  /** The marks of c are exactly `marks`: each forward size leads to the next one, each
      backward word repeats the forward word before it, and the ends are zero. */
  predicate Chain(c: seq<Cell>, marks: seq<int>): (ok: bool)
    ensures ok ==> Ordered(c, marks)
  {
    && Ordered(c, marks)
    && c[0].prev == NONE && c[|c| - 1].next == NONE
    && forall k | 0 <= k < |marks| - 1 :: LinkOK(c, marks, k)
  }

  predicate LinkOK(c: seq<Cell>, marks: seq<int>, k: int)
    requires Ordered(c, marks) && 0 <= k < |marks| - 1
  {
    c[marks[k]].next.size == SizeOf(marks, k) && c[marks[k + 1]].prev == c[marks[k]].next
  }

  predicate Free(c: seq<Cell>, marks: seq<int>, k: int)
    requires Ordered(c, marks) && 0 <= k < |marks|
  {
    !c[marks[k]].next.fill
  }

  /** No two neighbouring sub-blocks are both free. */
  predicate Merged(c: seq<Cell>, marks: seq<int>)
    requires Ordered(c, marks)
  {
    forall k | 0 <= k < |marks| - 2 :: Free(c, marks, k) ==> !Free(c, marks, k + 1)
  }

  /** f is the index of the first free sub-block at or after index lo, or of the end mark. */
  predicate FirstFree(c: seq<Cell>, marks: seq<int>, lo: int, f: int)
    requires Ordered(c, marks) && 0 <= lo < |marks|
  {
    lo <= f < |marks| && Free(c, marks, f) && forall k | lo <= k < f :: !Free(c, marks, k)
  }

  /** v is the size of the largest free sub-block from index lo up to index hi, or 0. */
  predicate MaxFree(c: seq<Cell>, marks: seq<int>, lo: int, hi: int, v: int)
    requires Ordered(c, marks) && 0 <= lo <= hi < |marks|
  {
    && (forall k | lo <= k < hi :: Free(c, marks, k) ==> SizeOf(marks, k) <= v)
    && (v == 0 || exists k :: lo <= k < hi && Free(c, marks, k) && SizeOf(marks, k) == v)
  }

  /** The payloads of the filled sub-blocks: first cell and number of cells. */
  ghost function Live(c: seq<Cell>, marks: seq<int>): set<(int, int)>
    requires Ordered(c, marks)
  {
    set k | 0 <= k < |marks| - 1 && !Free(c, marks, k) :: Payload(marks, k)
  }

  function Payload(marks: seq<int>, k: int): (int, int)
    requires 0 <= k < |marks| - 1
  {
    (marks[k] + 1, marks[k + 1] - marks[k] - 1)
  }

  /** The free sub-blocks, in the same way. */
  ghost function Spare(c: seq<Cell>, marks: seq<int>): set<(int, int)>
    requires Ordered(c, marks)
  {
    set k | 0 <= k < |marks| - 1 && Free(c, marks, k) :: Payload(marks, k)
  }

  /** Live payloads lie inside the block and are pairwise disjoint. */
  lemma LiveDisjoint(c: seq<Cell>, marks: seq<int>, p: (int, int), q: (int, int))
    requires Ordered(c, marks) && p in Live(c, marks) && q in Live(c, marks)
    ensures 1 <= p.0 && 1 <= p.1 && p.0 + p.1 <= |c| - 1
    ensures p != q ==> p.0 + p.1 <= q.0 || q.0 + q.1 <= p.0
  {
    var i :| 0 <= i < |marks| - 1 && Payload(marks, i) == p;
    var j :| 0 <= j < |marks| - 1 && Payload(marks, j) == q;
    if i + 1 < j { assert marks[i + 1] + 2 <= marks[j]; }
    if j + 1 < i { assert marks[j + 1] + 2 <= marks[i]; }
  }

  lemma ChainSteps(c: seq<Cell>, marks: seq<int>, k: int)
    requires Chain(c, marks) && 0 <= k < |marks|
    ensures k < |marks| - 1 ==> Next(c, marks[k]) == marks[k + 1] && c[marks[k]].next != NONE
    ensures k == |marks| - 1 ==> c[marks[k]].next == NONE
    ensures 0 < k ==> Prev(c, marks[k]) == marks[k - 1] && c[marks[k]].prev != NONE
    ensures k == 0 ==> c[marks[k]].prev == NONE
  {
    if k < |marks| - 1 { assert LinkOK(c, marks, k); }
    if 0 < k { assert LinkOK(c, marks, k - 1); }
  }

  // ---- What the two operations do to the marks, on values

  /** Sub-block k filled without a new mark. */
  function Filled(c: seq<Cell>, s: int, n: int, fill: bool): seq<Cell>
    requires 0 <= s < n < |c|
  {
    c[s := c[s].(next := c[s].next.(fill := fill))][n := c[n].(prev := c[n].prev.(fill := fill))]
  }

  lemma FilledChain(c: seq<Cell>, marks: seq<int>, k: int, fill: bool)
    requires Chain(c, marks) && 0 <= k < |marks| - 1
    ensures Chain(Filled(c, marks[k], marks[k + 1], fill), marks)
    ensures forall j | 0 <= j < |marks| ::
        Free(Filled(c, marks[k], marks[k + 1], fill), marks, j) <==> if j == k then !fill else Free(c, marks, j)
  {
    var d := Filled(c, marks[k], marks[k + 1], fill);
    forall j | 0 <= j < |marks| - 1 ensures LinkOK(d, marks, j) {
      assert LinkOK(c, marks, j);
      if j + 1 < k { assert marks[j + 1] + 2 <= marks[k]; }
    }
    forall j | 0 <= j < |marks| ensures Free(d, marks, j) <==> if j == k then !fill else Free(c, marks, j) {
      if j < k { assert marks[j] < marks[k]; }
      if k < j { assert marks[k] < marks[j]; }
    }
  }

  /** The sub-block between the marks s and n filled and cut at a new mark m. */
  function Split(c: seq<Cell>, s: int, m: int, n: int): seq<Cell>
    requires 0 <= s < m < n < |c| && 8 * |c| < 0x8000_0000
  {
    var mine := Word(8 * (m - s - 1), true);
    var rest := Word(8 * (n - m - 1), false);
    c[s := c[s].(next := mine)][m := Cell(mine, rest)][n := c[n].(prev := rest)]
  }

  function Inserted(marks: seq<int>, k: int, m: int): seq<int>
    requires 0 <= k < |marks|
  {
    marks[..k + 1] + [m] + marks[k + 1..]
  }

  /** The j-th mark once m has been inserted behind the k-th. */
  function InsertedAt(marks: seq<int>, k: int, m: int, j: int): int
    requires 0 <= k < |marks| && 0 <= j <= |marks|
  {
    if j <= k then marks[j] else if j == k + 1 then m else marks[j - 1]
  }

  /** The j-th mark once the k-th has been removed. */
  function RemovedAt(marks: seq<int>, k: int, j: int): int
    requires 0 <= k < |marks| && 0 <= j < |marks| - 1
  {
    marks[if j < k then j else j + 1]
  }

  lemma InsertedMarks(c: seq<Cell>, marks: seq<int>, k: int, m: int)
    requires Ordered(c, marks) && 0 <= k < |marks| - 1 && marks[k] + 2 <= m && m + 2 <= marks[k + 1]
    ensures var ms := Inserted(marks, k, m);
            |ms| == |marks| + 1 && Ordered(c, ms)
            && forall j | 0 <= j < |ms| :: ms[j] == InsertedAt(marks, k, m, j)
  {
    var ms := Inserted(marks, k, m);
    assert forall j | 0 <= j < |ms| :: ms[j] == InsertedAt(marks, k, m, j);
    forall i, j | 0 <= i < j < |ms| ensures 0 <= ms[i] && ms[i] + 2 <= ms[j] < |c| {
      if i < k { assert marks[i] + 2 <= marks[k]; }
      if k + 2 < j { assert marks[k + 1] + 2 <= marks[j - 1]; }
      if i <= k && k + 1 < j && i < j - 1 { assert marks[i] + 2 <= marks[j - 1]; }
      if k + 1 < i { assert marks[i - 1] + 2 <= marks[j - 1]; }
    }
  }

  /** Whether the j-th sub-block is free after the split of the k-th. */
  predicate FreeAfterSplit(c: seq<Cell>, marks: seq<int>, k: int, j: int)
    requires Ordered(c, marks) && 0 <= k < |marks| - 1 && 0 <= j <= |marks|
  {
    if j <= k then j != k && Free(c, marks, j) else j == k + 1 || Free(c, marks, j - 1)
  }

  lemma SplitLinks(c: seq<Cell>, marks: seq<int>, k: int, m: int, ms: seq<int>, j: int)
    requires Chain(c, marks) && 0 <= k < |marks| - 1 && marks[k] + 2 <= m && m + 2 <= marks[k + 1]
    requires |ms| == |marks| + 1 && Ordered(c, ms) && 0 <= j < |ms| - 1
    requires forall j | 0 <= j < |ms| :: ms[j] == InsertedAt(marks, k, m, j)
    ensures var d := Split(c, marks[k], m, marks[k + 1]);
            && Ordered(d, ms) && LinkOK(d, ms, j)
            && (Free(d, ms, j) <==> FreeAfterSplit(c, marks, k, j))
  {
    assert LinkOK(c, marks, k);
    if j < k {
      assert LinkOK(c, marks, j);
      assert marks[j] + 2 <= marks[k];
      assert j + 1 < k ==> marks[j + 1] + 2 <= marks[k];
    } else if j > k + 1 {
      assert LinkOK(c, marks, j - 1);
      assert j > k + 2 ==> marks[k + 1] + 2 <= marks[j - 1];
    } else {
      assert ms[k] == marks[k] && ms[k + 1] == m && ms[k + 2] == marks[k + 1];
    }
  }

  lemma SplitChain(c: seq<Cell>, marks: seq<int>, k: int, m: int)
    requires Chain(c, marks) && 0 <= k < |marks| - 1 && marks[k] + 2 <= m && m + 2 <= marks[k + 1]
    ensures var d, ms := Split(c, marks[k], m, marks[k + 1]), Inserted(marks, k, m);
            && Chain(d, ms)
            && forall j | 0 <= j < |ms| - 1 ::
                 Free(d, ms, j) <==> FreeAfterSplit(c, marks, k, j)
  {
    var d, ms := Split(c, marks[k], m, marks[k + 1]), Inserted(marks, k, m);
    InsertedMarks(c, marks, k, m);
    assert Ordered(d, ms) && d[0].prev == NONE && d[|d| - 1].next == NONE;
    hide LinkOK, Free, Split, Inserted, Ordered;
    forall j | 0 <= j < |ms| - 1
      ensures LinkOK(d, ms, j)
      ensures Free(d, ms, j) <==> FreeAfterSplit(c, marks, k, j)
    {
      SplitLinks(c, marks, k, m, ms, j);
    }
  }

  /** The free sub-blocks at s and n joined, t being the mark behind them. */
  function Joined(c: seq<Cell>, s: int, n: int, t: int): seq<Cell>
    requires 0 <= s < n < t < |c| && 8 * |c| < 0x8000_0000
  {
    var all := 8 * (t - s - 1);
    c[s := c[s].(next := c[s].next.(size := all))][t := c[t].(prev := c[t].prev.(size := all))]
  }

  function Removed(marks: seq<int>, k: int): seq<int>
    requires 0 <= k < |marks|
  {
    marks[..k] + marks[k + 1..]
  }

  lemma RemovedMarks(c: seq<Cell>, marks: seq<int>, k: int)
    requires Ordered(c, marks) && 0 < k < |marks| - 1
    ensures var ms := Removed(marks, k);
            |ms| == |marks| - 1 && Ordered(c, ms)
            && forall j | 0 <= j < |ms| :: ms[j] == RemovedAt(marks, k, j)
  {
    var ms := Removed(marks, k);
    forall i, j | 0 <= i < j < |ms| ensures 0 <= ms[i] && ms[i] + 2 <= ms[j] < |c| {
      assert 0 <= marks[if i < k then i else i + 1];
    }
  }

  /** Whether the j-th sub-block is free after the k-th and the one behind it are joined. */
  predicate FreeAfterJoin(c: seq<Cell>, marks: seq<int>, k: int, j: int)
    requires Ordered(c, marks) && 0 <= k < |marks| - 2 && 0 <= j < |marks| - 1
  {
    Free(c, marks, if j <= k then j else j + 1)
  }

  lemma MarksApart(c: seq<Cell>, marks: seq<int>, i: int, j: int)
    requires Ordered(c, marks) && 0 <= i < j < |marks|
    ensures 0 <= marks[i] && marks[i] + 2 <= marks[j] < |c|
  {}

  lemma JoinedHere(c: seq<Cell>, marks: seq<int>, k: int)
    requires Chain(c, marks) && 0 <= k < |marks| - 2 && Free(c, marks, k) && Free(c, marks, k + 1)
    ensures var (s, t) := (marks[k], marks[k + 2]);
            var d := Joined(c, s, marks[k + 1], t);
            d[s].next == Word(8 * (t - s - 1), false) && d[t].prev == d[s].next
  {
    assert LinkOK(c, marks, k) && LinkOK(c, marks, k + 1);
  }

  lemma JoinedElsewhere(c: seq<Cell>, marks: seq<int>, k: int, i: int)
    requires Chain(c, marks) && 0 <= k < |marks| - 2 && 0 <= i < |marks| - 1 && i != k && i != k + 1
    ensures var d := Joined(c, marks[k], marks[k + 1], marks[k + 2]);
            d[marks[i]].next == c[marks[i]].next && d[marks[i + 1]].prev == c[marks[i + 1]].prev
  {
    if i < k {
      MarksApart(c, marks, i, k);
      MarksApart(c, marks, i + 1, k + 2);
    } else {
      MarksApart(c, marks, k, i);
      MarksApart(c, marks, k + 2, i + 1);
    }
  }

  lemma JoinedLinks(c: seq<Cell>, marks: seq<int>, k: int, ms: seq<int>, j: int)
    requires Chain(c, marks) && 0 <= k < |marks| - 2 && Free(c, marks, k) && Free(c, marks, k + 1)
    requires |ms| == |marks| - 1 && Ordered(c, ms) && 0 <= j < |ms| - 1
    requires forall j | 0 <= j < |ms| :: ms[j] == RemovedAt(marks, k + 1, j)
    ensures var d := Joined(c, marks[k], marks[k + 1], marks[k + 2]);
            && Ordered(d, ms) && LinkOK(d, ms, j)
            && (Free(d, ms, j) <==> FreeAfterJoin(c, marks, k, j))
  {
    assert Ordered(Joined(c, marks[k], marks[k + 1], marks[k + 2]), ms);
    hide Ordered, Joined;
    assert ms[j] == RemovedAt(marks, k + 1, j) && ms[j + 1] == RemovedAt(marks, k + 1, j + 1);
    if j == k {
      JoinedHere(c, marks, k);
    } else {
      var i := if j < k then j else j + 1;
      JoinedElsewhere(c, marks, k, i);
      assert LinkOK(c, marks, i);
    }
  }

  lemma JoinedChain(c: seq<Cell>, marks: seq<int>, k: int)
    requires Chain(c, marks) && 0 <= k < |marks| - 2 && Free(c, marks, k) && Free(c, marks, k + 1)
    ensures var d, ms := Joined(c, marks[k], marks[k + 1], marks[k + 2]), Removed(marks, k + 1);
            && Chain(d, ms)
            && forall j | 0 <= j < |ms| - 1 ::
                 Free(d, ms, j) <==> FreeAfterJoin(c, marks, k, j)
  {
    var d, ms := Joined(c, marks[k], marks[k + 1], marks[k + 2]), Removed(marks, k + 1);
    RemovedMarks(c, marks, k + 1);
    assert Ordered(d, ms) && d[0].prev == NONE && d[|d| - 1].next == NONE;
    hide LinkOK, Free, Joined, Removed, Ordered, SizeOf;
    forall j | 0 <= j < |ms| - 1
      ensures LinkOK(d, ms, j)
      ensures Free(d, ms, j) <==> FreeAfterJoin(c, marks, k, j)
    {
      JoinedLinks(c, marks, k, ms, j);
    }
  }

  lemma InsertedSizes(c: seq<Cell>, marks: seq<int>, k: int, m: int, j: int)
    requires Ordered(c, marks) && 0 <= k < |marks| - 1 && marks[k] + 2 <= m && m + 2 <= marks[k + 1] && 0 <= j < |marks|
    ensures Payload(Inserted(marks, k, m), j) ==
            if j == k then (marks[k] + 1, m - marks[k] - 1)
            else if j == k + 1 then (m + 1, marks[k + 1] - m - 1)
            else Payload(marks, if j < k then j else j - 1)
  {
    InsertedMarks(c, marks, k, m);
    var ms := Inserted(marks, k, m);
    assert ms[j] == InsertedAt(marks, k, m, j) && ms[j + 1] == InsertedAt(marks, k, m, j + 1);
  }

  lemma RemovedSizes(c: seq<Cell>, marks: seq<int>, k: int, j: int)
    requires Ordered(c, marks) && 0 <= k < |marks| - 2 && 0 <= j < |marks| - 2
    ensures Payload(Removed(marks, k + 1), j) ==
            if j == k then (marks[k] + 1, marks[k + 2] - marks[k] - 1) else Payload(marks, if j < k then j else j + 1)
  {
    RemovedMarks(c, marks, k + 1);
    var ms := Removed(marks, k + 1);
    assert ms[j] == RemovedAt(marks, k + 1, j) && ms[j + 1] == RemovedAt(marks, k + 1, j + 1);
  }

  // ---- What the operations do to the live payloads

  /** The cells of every payload in `live` are the same in c and d. */
  ghost predicate SameCells(c: seq<Cell>, d: seq<Cell>, live: set<(int, int)>) {
    |c| == |d| && forall p, i | p in live && p.0 <= i < p.0 + p.1 && 0 <= i < |c| :: d[i] == c[i]
  }

  lemma LiveAt(c: seq<Cell>, marks: seq<int>, k: int)
    requires Ordered(c, marks) && 0 <= k < |marks| - 1
    ensures Payload(marks, k) in Live(c, marks) <==> !Free(c, marks, k)
  {
    if Payload(marks, k) in Live(c, marks) {
      var j :| 0 <= j < |marks| - 1 && !Free(c, marks, j) && Payload(marks, j) == Payload(marks, k);
      assert j == k;
    }
  }

  /** A mark, or a cell of sub-block k, lies in no payload of another sub-block. */
  lemma NotInPayload(c: seq<Cell>, marks: seq<int>, k: int, j: int, i: int)
    requires Ordered(c, marks) && 0 <= k < |marks| - 1 && 0 <= j < |marks| - 1 && marks[k] <= i <= marks[k + 1]
    requires j != k || i == marks[k] || i == marks[k + 1]
    ensures !(Payload(marks, j).0 <= i < Payload(marks, j).0 + Payload(marks, j).1)
  {
    if j < k { assert marks[j + 1] <= marks[k] by { if j + 1 < k { assert marks[j + 1] < marks[k]; } } }
    if k < j { assert marks[k + 1] <= marks[j] by { if k + 1 < j { assert marks[k + 1] < marks[j]; } } }
  }

  /** Changing only sub-block k, its mark and the mark behind it leaves the other payloads. */
  lemma OthersSame(c: seq<Cell>, d: seq<Cell>, marks: seq<int>, k: int)
    requires Ordered(c, marks) && 0 <= k < |marks| - 1 && |d| == |c|
    requires forall i | 0 <= i < |c| && !(marks[k] <= i <= marks[k + 1]) :: d[i] == c[i]
    ensures SameCells(c, d, Live(c, marks) - {Payload(marks, k)})
  {
    forall p, i | p in Live(c, marks) - {Payload(marks, k)} && p.0 <= i < p.0 + p.1 && 0 <= i < |c|
      ensures d[i] == c[i]
    {
      var j :| 0 <= j < |marks| - 1 && !Free(c, marks, j) && Payload(marks, j) == p;
      if marks[k] <= i <= marks[k + 1] { NotInPayload(c, marks, k, j, i); }
    }
  }

  /** Writing inside one live payload leaves the others. */
  lemma OnlyPayload(c: seq<Cell>, d: seq<Cell>, marks: seq<int>, p: (int, int))
    requires Ordered(c, marks) && p in Live(c, marks) && |d| == |c|
    requires forall i | 0 <= i < |c| && !(p.0 <= i < p.0 + p.1) :: d[i] == c[i]
    ensures SameCells(c, d, Live(c, marks) - {p})
  {
    forall q, i | q in Live(c, marks) - {p} && q.0 <= i < q.0 + q.1 && 0 <= i < |c| ensures d[i] == c[i] {
      LiveDisjoint(c, marks, p, q);
    }
  }

  /** Filling a free sub-block without a new mark adds its payload. */
  lemma FilledLive(c: seq<Cell>, marks: seq<int>, k: int)
    requires Chain(c, marks) && 0 <= k < |marks| - 1 && Free(c, marks, k)
    ensures var d := Filled(c, marks[k], marks[k + 1], true);
            && Chain(d, marks) && Live(d, marks) == Live(c, marks) + {Payload(marks, k)}
            && SameCells(c, d, Live(c, marks))
  {
    var d := Filled(c, marks[k], marks[k + 1], true);
    FilledChain(c, marks, k, true);
    OthersSame(c, d, marks, k);
    LiveAt(c, marks, k);
    forall p ensures p in Live(d, marks) <==> p in Live(c, marks) || p == Payload(marks, k) {
      LiveAt(d, marks, k);
    }
  }

  lemma SplitPayloads(c: seq<Cell>, marks: seq<int>, k: int, m: int, j: int)
    requires Chain(c, marks) && 0 <= k < |marks| - 1 && Free(c, marks, k) && marks[k] + 2 <= m && m + 2 <= marks[k + 1]
    requires var ms := Inserted(marks, k, m); 0 <= j < |ms| - 1 && Chain(Split(c, marks[k], m, marks[k + 1]), ms)
    requires Free(Split(c, marks[k], m, marks[k + 1]), Inserted(marks, k, m), j) <==> FreeAfterSplit(c, marks, k, j)
    ensures var d, ms := Split(c, marks[k], m, marks[k + 1]), Inserted(marks, k, m);
            if j == k then Payload(ms, j) == (marks[k] + 1, m - marks[k] - 1) && !Free(d, ms, j)
            else if j == k + 1 then Free(d, ms, j)
            else
              && Payload(ms, j) == Payload(marks, if j < k then j else j - 1)
              && (Free(d, ms, j) <==> Free(c, marks, if j < k then j else j - 1))
  {
    InsertedSizes(c, marks, k, m, j);
  }

  lemma SplitLiveIn(c: seq<Cell>, marks: seq<int>, k: int, m: int, p: (int, int))
    requires Chain(c, marks) && 0 <= k < |marks| - 1 && Free(c, marks, k) && marks[k] + 2 <= m && m + 2 <= marks[k + 1]
    requires Chain(Split(c, marks[k], m, marks[k + 1]), Inserted(marks, k, m))
    requires p in Live(Split(c, marks[k], m, marks[k + 1]), Inserted(marks, k, m))
    ensures p in Live(c, marks) || p == (marks[k] + 1, m - marks[k] - 1)
  {
    var d, ms := Split(c, marks[k], m, marks[k + 1]), Inserted(marks, k, m);
    SplitChain(c, marks, k, m);
    var j :| 0 <= j < |ms| - 1 && !Free(d, ms, j) && Payload(ms, j) == p;
    SplitPayloads(c, marks, k, m, j);
  }

  lemma SplitLiveOut(c: seq<Cell>, marks: seq<int>, k: int, m: int, p: (int, int))
    requires Chain(c, marks) && 0 <= k < |marks| - 1 && Free(c, marks, k) && marks[k] + 2 <= m && m + 2 <= marks[k + 1]
    requires Chain(Split(c, marks[k], m, marks[k + 1]), Inserted(marks, k, m))
    requires p in Live(c, marks) || p == (marks[k] + 1, m - marks[k] - 1)
    ensures p in Live(Split(c, marks[k], m, marks[k + 1]), Inserted(marks, k, m))
  {
    hide Split, Inserted, LinkOK;
    SplitChain(c, marks, k, m);
    InsertedMarks(c, marks, k, m);
    if p in Live(c, marks) {
      var j :| 0 <= j < |marks| - 1 && !Free(c, marks, j) && Payload(marks, j) == p;
      SplitPayloads(c, marks, k, m, if j < k then j else j + 1);
    } else {
      SplitPayloads(c, marks, k, m, k);
    }
  }

  /** Filling a free sub-block up to a new mark m adds the payload before m. */
  lemma SplitLive(c: seq<Cell>, marks: seq<int>, k: int, m: int)
    requires Chain(c, marks) && 0 <= k < |marks| - 1 && Free(c, marks, k) && marks[k] + 2 <= m && m + 2 <= marks[k + 1]
    ensures var d, ms := Split(c, marks[k], m, marks[k + 1]), Inserted(marks, k, m);
            && Chain(d, ms) && Live(d, ms) == Live(c, marks) + {(marks[k] + 1, m - marks[k] - 1)}
            && SameCells(c, d, Live(c, marks))
  {
    var d, ms := Split(c, marks[k], m, marks[k + 1]), Inserted(marks, k, m);
    SplitChain(c, marks, k, m);
    OthersSame(c, d, marks, k);
    LiveAt(c, marks, k);
    assert Ordered(d, ms);
    hide *;
    forall p ensures p in Live(d, ms) <==> p in Live(c, marks) || p == (marks[k] + 1, m - marks[k] - 1) {
      if p in Live(d, ms) { SplitLiveIn(c, marks, k, m, p); }
      if p in Live(c, marks) || p == (marks[k] + 1, m - marks[k] - 1) { SplitLiveOut(c, marks, k, m, p); }
    }
  }

  /** Emptying a filled sub-block takes its payload away. */
  lemma EmptiedLive(c: seq<Cell>, marks: seq<int>, k: int)
    requires Chain(c, marks) && 0 <= k < |marks| - 1 && !Free(c, marks, k)
    ensures var d := Filled(c, marks[k], marks[k + 1], false);
            && Chain(d, marks) && Live(d, marks) == Live(c, marks) - {Payload(marks, k)}
            && SameCells(c, d, Live(d, marks))
  {
    var d := Filled(c, marks[k], marks[k + 1], false);
    FilledChain(c, marks, k, false);
    OthersSame(c, d, marks, k);
    LiveAt(d, marks, k);
  }

  lemma JoinedPayloads(c: seq<Cell>, marks: seq<int>, k: int, j: int)
    requires Chain(c, marks) && 0 <= k < |marks| - 2 && 0 <= j < |marks| - 2 && j != k
    ensures Payload(Removed(marks, k + 1), j) == Payload(marks, if j < k then j else j + 1)
  {
    RemovedSizes(c, marks, k, j);
  }

  lemma JoinedCells(c: seq<Cell>, marks: seq<int>, k: int)
    requires Chain(c, marks) && 0 <= k < |marks| - 2 && Free(c, marks, k) && Free(c, marks, k + 1)
    ensures SameCells(c, Joined(c, marks[k], marks[k + 1], marks[k + 2]), Live(c, marks))
  {
    var d := Joined(c, marks[k], marks[k + 1], marks[k + 2]);
    forall p, i | p in Live(c, marks) && p.0 <= i < p.0 + p.1 && 0 <= i < |c| ensures d[i] == c[i] {
      var j :| 0 <= j < |marks| - 1 && !Free(c, marks, j) && Payload(marks, j) == p;
      if i == marks[k] { NotInPayload(c, marks, k, j, i); }
      if i == marks[k + 2] { NotInPayload(c, marks, k + 1, j, i); }
    }
  }

  lemma JoinedLiveIn(c: seq<Cell>, marks: seq<int>, k: int, p: (int, int))
    requires Chain(c, marks) && 0 <= k < |marks| - 2 && Free(c, marks, k) && Free(c, marks, k + 1)
    requires Chain(Joined(c, marks[k], marks[k + 1], marks[k + 2]), Removed(marks, k + 1))
    requires p in Live(Joined(c, marks[k], marks[k + 1], marks[k + 2]), Removed(marks, k + 1))
    ensures p in Live(c, marks)
  {
    var d, ms := Joined(c, marks[k], marks[k + 1], marks[k + 2]), Removed(marks, k + 1);
    hide Removed, Joined, LinkOK;
    JoinedChain(c, marks, k);
    RemovedMarks(c, marks, k + 1);
    var j :| 0 <= j < |ms| - 1 && !Free(d, ms, j) && Payload(ms, j) == p;
    JoinedPayloads(c, marks, k, j);
  }

  lemma JoinedLiveOut(c: seq<Cell>, marks: seq<int>, k: int, p: (int, int))
    requires Chain(c, marks) && 0 <= k < |marks| - 2 && Free(c, marks, k) && Free(c, marks, k + 1)
    requires Chain(Joined(c, marks[k], marks[k + 1], marks[k + 2]), Removed(marks, k + 1))
    requires p in Live(c, marks)
    ensures p in Live(Joined(c, marks[k], marks[k + 1], marks[k + 2]), Removed(marks, k + 1))
  {
    hide Removed, Joined, LinkOK;
    JoinedChain(c, marks, k);
    RemovedMarks(c, marks, k + 1);
    var j :| 0 <= j < |marks| - 1 && !Free(c, marks, j) && Payload(marks, j) == p;
    JoinedPayloads(c, marks, k, if j < k then j else j - 1);
  }

  /** Joining two free sub-blocks changes no live payload. */
  lemma JoinedLive(c: seq<Cell>, marks: seq<int>, k: int)
    requires Chain(c, marks) && 0 <= k < |marks| - 2 && Free(c, marks, k) && Free(c, marks, k + 1)
    ensures var d, ms := Joined(c, marks[k], marks[k + 1], marks[k + 2]), Removed(marks, k + 1);
            Chain(d, ms) && Live(d, ms) == Live(c, marks) && SameCells(c, d, Live(c, marks))
  {
    var d, ms := Joined(c, marks[k], marks[k + 1], marks[k + 2]), Removed(marks, k + 1);
    JoinedChain(c, marks, k);
    JoinedCells(c, marks, k);
    assert Ordered(d, ms);
    hide *;
    forall p ensures p in Live(d, ms) <==> p in Live(c, marks) {
      if p in Live(d, ms) { JoinedLiveIn(c, marks, k, p); }
      if p in Live(c, marks) { JoinedLiveOut(c, marks, k, p); }
    }
  }

  // ---- What they do to the free sub-blocks

  lemma SpareAt(c: seq<Cell>, marks: seq<int>, k: int)
    requires Ordered(c, marks) && 0 <= k < |marks| - 1
    ensures Payload(marks, k) in Spare(c, marks) <==> Free(c, marks, k)
  {
    if Payload(marks, k) in Spare(c, marks) {
      var j :| 0 <= j < |marks| - 1 && Free(c, marks, j) && Payload(marks, j) == Payload(marks, k);
      assert j == k;
    }
  }

  /** Filling a free sub-block without a new mark takes it away. */
  lemma FilledSpare(c: seq<Cell>, marks: seq<int>, k: int)
    requires Chain(c, marks) && 0 <= k < |marks| - 1 && Free(c, marks, k)
    ensures var d := Filled(c, marks[k], marks[k + 1], true);
            Chain(d, marks) && Spare(d, marks) == Spare(c, marks) - {Payload(marks, k)}
  {
    var d := Filled(c, marks[k], marks[k + 1], true);
    FilledChain(c, marks, k, true);
    forall p ensures p in Spare(d, marks) <==> p in Spare(c, marks) && p != Payload(marks, k) {
      SpareAt(d, marks, k);
    }
  }

  /** Filling it up to a new mark at m leaves what is behind m. */
  lemma SplitSpare(c: seq<Cell>, marks: seq<int>, k: int, m: int)
    requires Chain(c, marks) && 0 <= k < |marks| - 1 && Free(c, marks, k) && marks[k] + 2 <= m && m + 2 <= marks[k + 1]
    ensures var d, ms := Split(c, marks[k], m, marks[k + 1]), Inserted(marks, k, m);
            Chain(d, ms) && Spare(d, ms) == Spare(c, marks) - {Payload(marks, k)} + {(m + 1, marks[k + 1] - m - 1)}
  {
    var d, ms := Split(c, marks[k], m, marks[k + 1]), Inserted(marks, k, m);
    SplitChain(c, marks, k, m);
    InsertedMarks(c, marks, k, m);
    hide Split, Inserted, Chain, Ordered, Free, LinkOK;
    forall p ensures p in Spare(d, ms) <==>
      (p in Spare(c, marks) && p != Payload(marks, k)) || p == (m + 1, marks[k + 1] - m - 1)
    {
      if p in Spare(d, ms) { SplitSpareIn(c, marks, k, m, p); }
      if (p in Spare(c, marks) && p != Payload(marks, k)) || p == (m + 1, marks[k + 1] - m - 1) {
        SplitSpareOut(c, marks, k, m, p);
      }
    }
  }

  lemma SplitSpareIn(c: seq<Cell>, marks: seq<int>, k: int, m: int, p: (int, int))
    requires Chain(c, marks) && 0 <= k < |marks| - 1 && Free(c, marks, k) && marks[k] + 2 <= m && m + 2 <= marks[k + 1]
    requires Chain(Split(c, marks[k], m, marks[k + 1]), Inserted(marks, k, m))
    requires p in Spare(Split(c, marks[k], m, marks[k + 1]), Inserted(marks, k, m))
    ensures (p in Spare(c, marks) && p != Payload(marks, k)) || p == (m + 1, marks[k + 1] - m - 1)
  {
    var d, ms := Split(c, marks[k], m, marks[k + 1]), Inserted(marks, k, m);
    SplitChain(c, marks, k, m);
    InsertedMarks(c, marks, k, m);
    hide Split, Inserted, LinkOK;
    var j :| 0 <= j < |ms| - 1 && Free(d, ms, j) && Payload(ms, j) == p;
    InsertedSizes(c, marks, k, m, j);
    var i := if j < k then j else j - 1;
    if j != k + 1 {
      assert j != k && Free(c, marks, i) && Payload(marks, i) == p;
      assert Payload(marks, i) != Payload(marks, k);
    }
  }

  lemma SplitSpareOut(c: seq<Cell>, marks: seq<int>, k: int, m: int, p: (int, int))
    requires Chain(c, marks) && 0 <= k < |marks| - 1 && Free(c, marks, k) && marks[k] + 2 <= m && m + 2 <= marks[k + 1]
    requires Chain(Split(c, marks[k], m, marks[k + 1]), Inserted(marks, k, m))
    requires (p in Spare(c, marks) && p != Payload(marks, k)) || p == (m + 1, marks[k + 1] - m - 1)
    ensures p in Spare(Split(c, marks[k], m, marks[k + 1]), Inserted(marks, k, m))
  {
    var d, ms := Split(c, marks[k], m, marks[k + 1]), Inserted(marks, k, m);
    SplitChain(c, marks, k, m);
    InsertedMarks(c, marks, k, m);
    hide Split, Inserted, LinkOK;
    var j := k + 1;
    if p in Spare(c, marks) && p != Payload(marks, k) {
      var i :| 0 <= i < |marks| - 1 && Free(c, marks, i) && Payload(marks, i) == p;
      j := if i < k then i else i + 1;
    }
    InsertedSizes(c, marks, k, m, j);
    assert Free(d, ms, j) && Payload(ms, j) == p;
  }

  /** The live payloads of a block decide where its marks are: what lies between two of them is
      one free sub-block, or nothing but a mark. */
  lemma {:induction false} LiveDecides(c: seq<Cell>, ms: seq<int>, d: seq<Cell>, ns: seq<int>, k: nat)
    requires Ordered(c, ms) && Merged(c, ms) && Ordered(d, ns) && Merged(d, ns) && |c| == |d|
    requires Live(c, ms) == Live(d, ns) && k < |ms|
    ensures k < |ns| && ns[k] == ms[k] && (k < |ms| - 1 <==> k < |ns| - 1)
    ensures k < |ms| - 1 ==> (Free(c, ms, k) <==> Free(d, ns, k))
  {
    if k == 0 {
    } else {
      LiveDecides(c, ms, d, ns, k - 1);
      NextMark(c, ms, d, ns, k - 1);
      NextMark(d, ns, c, ms, k - 1);
    }
    if k < |ms| - 1 && k < |ns| - 1 && ns[k] == ms[k] {
      SameStart(c, ms, d, ns, k);
      SameStart(d, ns, c, ms, k);
    }
  }

  /** Where a live payload begins in c, one does in d. */
  lemma SameStart(c: seq<Cell>, ms: seq<int>, d: seq<Cell>, ns: seq<int>, k: nat)
    requires Ordered(c, ms) && Ordered(d, ns) && Live(c, ms) == Live(d, ns)
    requires k < |ms| - 1 && k < |ns| - 1 && ns[k] == ms[k]
    ensures !Free(c, ms, k) ==> !Free(d, ns, k)
  {
    if !Free(c, ms, k) { var j := LiveStart(c, ms, d, ns, k); }
  }

  lemma NextMark(c: seq<Cell>, ms: seq<int>, d: seq<Cell>, ns: seq<int>, k: nat)
    requires Ordered(c, ms) && Merged(c, ms) && Ordered(d, ns) && |c| == |d| && Live(c, ms) == Live(d, ns)
    requires k < |ms| - 1 && k < |ns| - 1 && ns[k] == ms[k] && (Free(c, ms, k) <==> Free(d, ns, k))
    ensures ms[k + 1] >= ns[k + 1]
  {
    if !Free(c, ms, k) {
      var j := LiveStart(c, ms, d, ns, k);
      assert j == k;
    } else if k + 1 < |ms| - 1 {
      var j := LiveStart(c, ms, d, ns, k + 1);
      assert j > k;
    }
  }

  lemma LiveStart(c: seq<Cell>, ms: seq<int>, d: seq<Cell>, ns: seq<int>, i: nat) returns (j: nat)
    requires Ordered(c, ms) && Ordered(d, ns) && Live(c, ms) == Live(d, ns) && i < |ms| - 1 && !Free(c, ms, i)
    ensures j < |ns| - 1 && ns[j] == ms[i] && ns[j + 1] == ms[i + 1] && !Free(d, ns, j)
  {
    assert Payload(ms, i) in Live(d, ns);
    j :| 0 <= j < |ns| - 1 && !Free(d, ns, j) && Payload(ns, j) == Payload(ms, i);
  }

  /** And so which sub-blocks are free. */
  lemma SpareDecided(c: seq<Cell>, ms: seq<int>, d: seq<Cell>, ns: seq<int>)
    requires Ordered(c, ms) && Merged(c, ms) && Ordered(d, ns) && Merged(d, ns) && |c| == |d|
    requires Live(c, ms) == Live(d, ns)
    ensures ms == ns && Spare(c, ms) == Spare(d, ns)
  {
    forall k | 0 <= k < |ms| - 1 ensures k < |ns| - 1 && ns[k] == ms[k] && (Free(c, ms, k) <==> Free(d, ns, k)) {
      LiveDecides(c, ms, d, ns, k);
    }
    LiveDecides(c, ms, d, ns, |ms| - 1);
    assert |ms| == |ns|;
  }
}
