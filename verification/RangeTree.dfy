/** The interval maps of the memory manager (src/tools/rbtree.c), seen in order of address:
    a list of runs, each with one value. How the red-black tree balances is not modelled. */
module RangeTree {

  datatype Option<T> = None | Some(value: T)

  /** The addresses from start up to end (excluded) hold data. */
  datatype Run<T> = Run(start: int, end: int, data: T)

  const TOP := 0xFFFF_FFFF   // (uintptr_t)-1

  predicate Sorted<T>(runs: seq<Run<T>>) {
    && (forall i | 0 <= i < |runs| :: 0 <= runs[i].start < runs[i].end <= TOP)
    && (forall i, j | 0 <= i < j < |runs| :: runs[i].end <= runs[j].start)
  }

  function Rem(a: int, page: int): int
    requires page > 0
  {
    a % page
  }

  predicate OnPage(a: int, page: int)
    requires page > 0
  {
    Rem(a, page) == 0
  }

  /** All run boundaries are multiples of the page size. */
  predicate Aligned<T>(runs: seq<Run<T>>, page: int)
    requires page > 0
  {
    forall i | 0 <= i < |runs| :: OnPage(runs[i].start, page) && OnPage(runs[i].end, page)
  }

  /** The value recorded for address x, if any. */
  function At<T>(runs: seq<Run<T>>, x: int): Option<T> {
    if runs == [] then None
    else if runs[0].start <= x < runs[0].end then Some(runs[0].data)
    else At(runs[1..], x)
  }

  lemma {:induction false} AtIndex<T>(runs: seq<Run<T>>, i: int, x: int)
    requires Sorted(runs) && 0 <= i < |runs| && runs[i].start <= x < runs[i].end
    ensures At(runs, x) == Some(runs[i].data)
  {
    if i == 0 {
    } else {
      assert runs[0].end <= runs[i].start;
      AtIndex(runs[1..], i - 1, x);
    }
  }

  lemma {:induction false} AtNone<T>(runs: seq<Run<T>>, x: int)
    requires forall i | 0 <= i < |runs| :: !(runs[i].start <= x < runs[i].end)
    ensures At(runs, x) == None
  {
    if runs == [] {
    } else {
      AtNone(runs[1..], x);
    }
  }

  /** Every address from lo up to hi (excluded) has the value v. */
  ghost predicate Uniform<T>(runs: seq<Run<T>>, lo: int, hi: int, v: Option<T>) {
    forall x | lo <= x < hi :: At(runs, x) == v
  }

  /** rb_get_end: the value at addr and the end of its run, or the start of the next run. */
  method GetEnd<T>(runs: seq<Run<T>>, addr: int) returns (v: Option<T>, end: int)
    requires Sorted(runs) && 0 <= addr <= TOP
    ensures (addr < end || addr == end == TOP) && end <= TOP && v == At(runs, addr) && Uniform(runs, addr, end, v)
    ensures v == None && end < TOP ==> At(runs, end) != None
    ensures end == TOP || exists i :: 0 <= i < |runs| && (end == runs[i].end || end == runs[i].start)
  {
    var k := 0;
    while k < |runs| && runs[k].end <= addr
      invariant 0 <= k <= |runs| && forall i | 0 <= i < k :: runs[i].end <= addr
    {
      k := k + 1;
    }
    if k < |runs| && runs[k].start <= addr {
      forall x | addr <= x < runs[k].end ensures At(runs, x) == Some(runs[k].data) { AtIndex(runs, k, x); }
      return Some(runs[k].data), runs[k].end;
    }
    end := if k < |runs| then runs[k].start else TOP;
    AtNone(runs, addr);
    forall x | addr <= x < end ensures At(runs, x) == None { AtNone(runs, x); }
    if k < |runs| { AtIndex(runs, k, end); }
    return None, end;
  }

  /** How many runs begin before start. */
  function Lower<T>(runs: seq<Run<T>>, start: int): (k: nat)
    requires Sorted(runs)
    ensures k <= |runs| && (forall i | 0 <= i < k :: runs[i].start < start)
    ensures forall i | k <= i < |runs| :: runs[i].start >= start
  {
    if runs == [] || runs[0].start >= start then 0 else 1 + Lower(runs[1..], start)
  }

  /** The first run from j on that does not lie below end as a whole. */
  function Beyond<T>(runs: seq<Run<T>>, j: nat, end: int): (l: nat)
    requires Sorted(runs) && j <= |runs|
    ensures j <= l <= |runs| && (forall i | j <= i < l :: runs[i].end <= end)
    ensures l < |runs| ==> runs[l].end > end || runs[l].start >= end
    decreases |runs| - j
  {
    if j < |runs| && runs[j].start < end && runs[j].end <= end then Beyond(runs, j + 1, end) else j
  }

  lemma {:induction false} AtConcat<T>(a: seq<Run<T>>, b: seq<Run<T>>, x: int)
    ensures At(a + b, x) == if At(a, x) != None then At(a, x) else At(b, x)
  {
    if a == [] {
      assert a + b == b;
    } else {
      assert (a + b)[1..] == a[1..] + b;
      AtConcat(a[1..], b, x);
    }
  }

  /** The runs from a up to b replaced by mid. */
  function Replaced<T>(runs: seq<Run<T>>, a: nat, b: nat, mid: seq<Run<T>>): seq<Run<T>>
    requires a <= b <= |runs|
  {
    runs[..a] + mid + runs[b..]
  }

  /** The runs from .0 up to .1 are replaced by .2. */
  type Change<T> = (nat, nat, seq<Run<T>>)

  /** Drops the runs from j on that the new range covers; joins what is then next when it meets
      the range and holds the same, or else cuts it. `head` is what goes before, `run` the new
      range, which ends with the range or with what it is joined to. */
  function Onward<T(==)>(runs: seq<Run<T>>, a: nat, j: nat, head: seq<Run<T>>, run: Run<T>, end: int): (c: Change<T>)
    requires Sorted(runs) && a <= j <= |runs|
    ensures a <= c.0 <= c.1 <= |runs|
  {
    var l := Beyond(runs, j, end);
    if l < |runs| && runs[l].start <= end && runs[l].data == run.data then (a, l + 1, head + [run.(end := runs[l].end)])
    else if l < |runs| && runs[l].start < end then (a, l + 1, head + [run.(end := end), runs[l].(start := end)])
    else (a, l, head + [run.(end := end)])
  }

  /** rb_set, case by case: the run before that holds the same is made longer; a run before
      that reaches further is split in three, or cut; the run that begins at start is changed. */
  function SetChange<T(==)>(runs: seq<Run<T>>, start: int, end: int, data: T): (c: Change<T>)
    requires Sorted(runs) && 0 <= start < end <= TOP
    ensures c.0 <= c.1 <= |runs|
  {
    var k := Lower(runs, start);
    var node := k < |runs| && runs[k].start == start;
    var run := Run(start, end, data);
    if k > 0 && runs[k - 1].end >= start && runs[k - 1].data == data then
      var prev := runs[k - 1];
      if end <= prev.end then (k - 1, k, [prev])
      else if node && runs[k].end > end then (k - 1, k + 1, [prev.(end := end), runs[k].(start := end)])
      else if node && runs[k].end == end then (k - 1, k + 1, [prev.(end := end)])
      else Onward(runs, k - 1, if node then k + 1 else k, [], prev, end)
    else if k > 0 && runs[k - 1].end > end then
      var prev := runs[k - 1];
      (k - 1, k, [prev.(end := start), run, prev.(start := end)])
    else
      var cut := k > 0 && runs[k - 1].end > start;
      var (a, head) := if cut then (k - 1, [runs[k - 1].(end := start)]) else (k, []);
      if node && runs[k].end >= end && runs[k].data == data then (a, k + 1, head + [runs[k]])
      else if node && runs[k].end > end then (a, k + 1, head + [run, runs[k].(start := end)])
      else Onward(runs, a, if node then k + 1 else k, head, run, end)
  }

  /** rb_set: the addresses from start up to end (excluded) hold data from now on. */
  function Set<T(==)>(runs: seq<Run<T>>, start: int, end: int, data: T): seq<Run<T>>
    requires Sorted(runs) && 0 <= start < end <= TOP
  {
    var c := SetChange(runs, start, end, data);
    Replaced(runs, c.0, c.1, c.2)
  }

  /** mid lies in order between its neighbours, and so does the new range. */
  ghost predicate Between<T>(runs: seq<Run<T>>, a: nat, b: nat, mid: seq<Run<T>>, start: int, end: int)
    requires a <= b <= |runs|
  {
    && Sorted(mid)
    && (a > 0 ==> runs[a - 1].end <= start && forall i | 0 <= i < |mid| :: runs[a - 1].end <= mid[i].start)
    && (b < |runs| ==> end <= runs[b].start && forall i | 0 <= i < |mid| :: mid[i].end <= runs[b].start)
  }

  /** A replacement that fits between its neighbours and is right by itself is right. */
  ghost predicate Fits<T>(runs: seq<Run<T>>, a: nat, b: nat, mid: seq<Run<T>>, start: int, end: int, data: T)
    requires a <= b <= |runs|
  {
    Between(runs, a, b, mid, start, end) && forall x ::
      At(mid, x) == if start <= x < end then Some(data) else At(runs[a..b], x)
  }

  lemma ReplacedSorted<T>(runs: seq<Run<T>>, a: nat, b: nat, mid: seq<Run<T>>, start: int, end: int, data: T)
    requires Sorted(runs) && a <= b <= |runs| && Fits(runs, a, b, mid, start, end, data)
    ensures Sorted(Replaced(runs, a, b, mid))
  {
    var r := Replaced(runs, a, b, mid);
    hide At;
    forall i | 0 <= i < |r|
      ensures r[i] == if i < a then runs[i] else if i < a + |mid| then mid[i - a] else runs[i - a - |mid| + b] {}
    forall i, j | 0 <= i < j < |r| ensures r[i].end <= r[j].start {
      if i < a <= j { assert a > 0 && (i < a - 1 ==> runs[i].end <= runs[a - 1].start); }
      if a <= i < a + |mid| <= j { assert runs[b].start <= runs[j - a - |mid| + b].start; }
    }
  }

  lemma ReplacedAt<T>(runs: seq<Run<T>>, a: nat, b: nat, mid: seq<Run<T>>, start: int, end: int, data: T, x: int)
    requires Sorted(runs) && a <= b <= |runs| && Fits(runs, a, b, mid, start, end, data)
    ensures At(Replaced(runs, a, b, mid), x) == if start <= x < end then Some(data) else At(runs, x)
  {
    var (p, q, s) := (runs[..a], runs[a..b], runs[b..]);
    assert runs == p + q + s;
    AtConcat(p + q, s, x);
    AtConcat(p, q, x);
    AtConcat(p + mid, s, x);
    AtConcat(p, mid, x);
    if start <= x {
      forall i | 0 <= i < |p| ensures !(p[i].start <= x < p[i].end) {
        if i < a - 1 { assert runs[i].end <= runs[a - 1].start; }
      }
      AtNone(p, x);
    }
  }

  /** Runs that all end by x, or all begin behind it, have nothing at x. */
  lemma AtOutside<T>(runs: seq<Run<T>>, x: int)
    requires (forall i | 0 <= i < |runs| :: runs[i].end <= x) || (forall i | 0 <= i < |runs| :: x < runs[i].start)
    ensures At(runs, x) == None
  {
    AtNone(runs, x);
  }

  /** What the replaced runs hold outside the new range: only those before j below it, and only
      the last one, when it is replaced, above it. */
  lemma AtReplaced<T>(runs: seq<Run<T>>, a: nat, j: nat, l: nat, b: nat, start: int, end: int, x: int)
    requires Sorted(runs) && a <= j <= l <= b <= |runs| && b <= l + 1 && start < end
    requires (forall i | a <= i < l :: runs[i].end <= end) && (forall i | j <= i < |runs| :: runs[i].start > start)
    ensures x < start ==> At(runs[a..b], x) == At(runs[a..j], x)
    ensures x >= end ==> At(runs[a..b], x) == At(runs[l..b], x)
  {
    var (p, q, s) := (runs[a..j], runs[j..l], runs[l..b]);
    assert runs[a..b] == p + q + s;
    AtConcat(p + q, s, x);
    AtConcat(p, q, x);
    if x < start {
      AtOutside(q, x);
      AtOutside(s, x);
    } else if x >= end {
      AtOutside(p, x);
      AtOutside(q, x);
    }
  }

  /** The two halves of what Onward puts in. */
  lemma AtHeadRun<T>(head: seq<Run<T>>, run: Run<T>, rest: seq<Run<T>>, x: int)
    requires forall i | 0 <= i < |head| :: head[i].end <= run.start
    ensures At(head + [run] + rest, x) ==
            if run.start <= x < run.end then Some(run.data)
              else if At(head, x) != None then At(head, x) else At(rest, x)
  {
    AtConcat(head + [run], rest, x);
    AtConcat(head, [run], x);
    assert At([run], x) == if run.start <= x < run.end then Some(run.data) else None;
    if x >= run.start { AtOutside(head, x); }
  }

  lemma OnwardAt<T>(runs: seq<Run<T>>, a: nat, j: nat, head: seq<Run<T>>, run: Run<T>, start: int, end: int, x: int)
    requires Sorted(runs) && a <= j <= |runs| && 0 <= run.start <= start < end <= TOP
    requires (forall i | a <= i < j :: runs[i].end <= end) && (forall i | j <= i < |runs| :: runs[i].start > start)
    requires forall i | 0 <= i < |head| :: head[i].end <= run.start
    requires x < start ==> At(head + [run.(end := end)], x) == At(runs[a..j], x)
    ensures var c := Onward(runs, a, j, head, run, end);
            At(c.2, x) == if start <= x < end then Some(run.data) else At(runs[c.0..c.1], x)
  {
    var (l, c) := (Beyond(runs, j, end), Onward(runs, a, j, head, run, end));
    AtReplaced(runs, a, j, l, c.1, start, end, x);
    var first := run.(end := end);
    assert head + [first] + [] == head + [first];
    AtHeadRun(head, first, [], x);
    if c.1 == l {
      if x >= end { AtOutside(head, x); }
    } else {
      var last := runs[l];
      assert runs[l..c.1] == [last];
      if last.start <= end && last.data == run.data {
        var long := run.(end := last.end);
        assert c.2 == head + [long] + [];
        AtHeadRun(head, long, [], x);
      } else {
        assert c.2 == head + [first] + [last.(start := end)];
        AtHeadRun(head, first, [last.(start := end)], x);
      }
      if x >= end { AtOutside(head, x); }
    }
  }

  lemma OnwardFits<T>(runs: seq<Run<T>>, a: nat, j: nat, head: seq<Run<T>>, run: Run<T>, start: int, end: int)
    requires Sorted(runs) && a <= j <= |runs| && 0 <= run.start <= start < end <= TOP && Sorted(head)
    requires (forall i | a <= i < j :: runs[i].end <= end) && (forall i | j <= i < |runs| :: runs[i].start > start)
    requires a > 0 ==>
        runs[a - 1].end <= start && runs[a - 1].end <= run.start && forall i | 0 <= i < |head| ::
          runs[a - 1].end <= head[i].start
    requires forall i | 0 <= i < |head| :: head[i].end <= run.start
    requires forall x | x < start :: At(head + [run.(end := end)], x) == At(runs[a..j], x)
    ensures var c := Onward(runs, a, j, head, run, end); Fits(runs, c.0, c.1, c.2, start, end, run.data)
  {
    var c := Onward(runs, a, j, head, run, end);
    forall x ensures At(c.2, x) == if start <= x < end then Some(run.data) else At(runs[c.0..c.1], x) {
      OnwardAt(runs, a, j, head, run, start, end, x);
    }
    hide At, Beyond, Onward;
    OnwardBetween(runs, a, j, head, run, start, end);
  }

  lemma SortedMore<T>(head: seq<Run<T>>, run: Run<T>)
    requires Sorted(head) && 0 <= run.start < run.end <= TOP && forall i | 0 <= i < |head| :: head[i].end <= run.start
    ensures Sorted(head + [run])
  {}

  lemma OnwardBetween<T>(runs: seq<Run<T>>, a: nat, j: nat, head: seq<Run<T>>, run: Run<T>, start: int, end: int)
    requires Sorted(runs) && a <= j <= |runs| && 0 <= run.start <= start < end <= TOP && Sorted(head)
    requires forall i | j <= i < |runs| :: runs[i].start > start
    requires a > 0 ==>
        runs[a - 1].end <= start && runs[a - 1].end <= run.start && forall i | 0 <= i < |head| ::
          runs[a - 1].end <= head[i].start
    requires forall i | 0 <= i < |head| :: head[i].end <= run.start
    ensures var c := Onward(runs, a, j, head, run, end); Between(runs, c.0, c.1, c.2, start, end)
  {
    var (l, c) := (Beyond(runs, j, end), Onward(runs, a, j, head, run, end));
    var first := run.(end := end);
    SortedMore(head, first);
    if l < |runs| {
      var last := runs[l];
      assert l + 1 < |runs| ==> last.end <= runs[l + 1].start;
      if last.start <= end && last.data == run.data {
        SortedMore(head, run.(end := last.end));
      } else if last.start < end {
        assert head + [first, last.(start := end)] == head + [first] + [last.(start := end)];
        SortedMore(head + [first], last.(start := end));
      }
    }
  }

  /** At on one, two and three runs. */
  lemma AtFew<T>(p: Run<T>, q: Run<T>, r: Run<T>, x: int)
    ensures At([p], x) == if p.start <= x < p.end then Some(p.data) else None
    ensures At([p, q], x) == if p.start <= x < p.end then Some(p.data) else At([q], x)
    ensures At([p, q, r], x) == if p.start <= x < p.end then Some(p.data) else At([q, r], x)
  {
    assert [p, q][1..] == [q] && [p, q, r][1..] == [q, r];
  }

  lemma AtOne<T>(p: Run<T>, x: int)
    ensures At([p], x) == if p.start <= x < p.end then Some(p.data) else None
  {}

  lemma AtTwo<T>(p: Run<T>, q: Run<T>, x: int)
    ensures At([p, q], x) == if p.start <= x < p.end then Some(p.data) else if q.start <= x < q.end then Some(q.data)
        else None
  {
    AtFew(p, q, q, x);
    AtOne(q, x);
  }

  lemma AtThree<T>(p: Run<T>, q: Run<T>, r: Run<T>, x: int)
    ensures At([p, q, r], x) ==
            if p.start <= x < p.end then Some(p.data) else if q.start <= x < q.end then Some(q.data)
            else if r.start <= x < r.end then Some(r.data) else None
  {
    AtFew(p, q, r, x);
    AtTwo(q, r, x);
  }

  /** The run before holds the same: it covers the range, or meets a run that begins there. */
  lemma MergeFits<T>(runs: seq<Run<T>>, k: nat, start: int, end: int, data: T)
    requires Sorted(runs) && 0 < k <= |runs| && 0 <= start < end <= TOP
    requires var prev := runs[k - 1]; prev.start < start <= prev.end && prev.data == data
    ensures end <= runs[k - 1].end ==> Fits(runs, k - 1, k, [runs[k - 1]], start, end, data)
    ensures k < |runs| && runs[k].start == start && runs[k].end > end ==>
              Fits(runs, k - 1, k + 1, [runs[k - 1].(end := end), runs[k].(start := end)], start, end, data)
    ensures k < |runs| && runs[k].start == start && runs[k].end == end ==>
              Fits(runs, k - 1, k + 1, [runs[k - 1].(end := end)], start, end, data)
  {
    hide At;
    var prev := runs[k - 1];
    assert runs[k - 1..k] == [prev];
    forall x ensures At([prev], x) == if prev.start <= x < prev.end then Some(data) else None { AtOne(prev, x); }
    if k < |runs| && runs[k].start == start {
      var node := runs[k];
      var (p, n) := (prev.(end := end), node.(start := end));
      assert runs[k - 1..k + 1] == [prev, node];
      forall x
        ensures At([prev, node], x) == if prev.start <= x < prev.end then Some(data)
            else if node.start <= x < node.end then Some(node.data) else None
        ensures At([p, n], x) == if p.start <= x < p.end then Some(data) else if n.start <= x < n.end
            then Some(node.data) else None
        ensures At([p], x) == if p.start <= x < p.end then Some(data) else None
      {
        AtTwo(prev, node, x);
        AtTwo(p, n, x);
        AtOne(p, x);
      }
    }
  }

  /** The run before holds the same and is made longer over what follows. */
  lemma MergeOnward<T>(runs: seq<Run<T>>, k: nat, j: nat, start: int, end: int)
    requires Sorted(runs) && 0 < k <= j <= |runs| && j <= k + 1 && 0 <= start < end <= TOP
    requires var prev := runs[k - 1]; prev.start < start <= prev.end < end
    requires (forall i | k <= i < j :: runs[i].start == start && runs[i].end < end)
    requires forall i | j <= i < |runs| :: runs[i].start > start
    ensures var c := Onward(runs, k - 1, j, [], runs[k - 1], end);
        Fits(runs, c.0, c.1, c.2, start, end, runs[k - 1].data)
  {
    hide At, Onward, Fits;
    var prev := runs[k - 1];
    forall x | x < start ensures At([] + [prev.(end := end)], x) == At(runs[k - 1..j], x) {
      AtOne(prev.(end := end), x);
      assert [] + [prev.(end := end)] == [prev.(end := end)];
      if j == k {
        assert runs[k - 1..j] == [prev];
        AtOne(prev, x);
      } else {
        assert runs[k - 1..j] == [prev, runs[k]];
        AtTwo(prev, runs[k], x);
      }
    }
    OnwardFits(runs, k - 1, j, [], prev, start, end);
  }

  /** The run before reaches further than the range: it is split in three. */
  lemma SplitFits<T>(runs: seq<Run<T>>, k: nat, start: int, end: int, data: T)
    requires Sorted(runs) && 0 < k <= |runs| && 0 <= start < end <= TOP && runs[k - 1].start < start
    requires end < runs[k - 1].end
    ensures var prev := runs[k - 1];
            Fits(runs, k - 1, k, [prev.(end := start), Run(start, end, data), prev.(start := end)], start, end, data)
  {
    hide At;
    var prev := runs[k - 1];
    var (p, q, r) := (prev.(end := start), Run(start, end, data), prev.(start := end));
    assert runs[k - 1..k] == [prev];
    forall x ensures At([p, q, r], x) == if start <= x < end then Some(data) else At([prev], x) {
      AtThree(p, q, r, x);
      AtOne(prev, x);
    }
  }

  /** What stands before the new range when the run before is cut, or need not be. */
  ghost predicate Headed<T>(runs: seq<Run<T>>, k: nat, a: nat, head: seq<Run<T>>, start: int)
    requires k <= |runs|
  {
    if k > 0 && runs[k - 1].end > start then a == k - 1 && head == [runs[k - 1].(end := start)]
      else a == k && head == []
  }

  lemma HeadedAt<T>(runs: seq<Run<T>>, k: nat, a: nat, head: seq<Run<T>>, start: int, x: int)
    requires Sorted(runs) && k <= |runs| && Headed(runs, k, a, head, start)
    requires forall i | 0 <= i < k :: runs[i].start < start
    ensures a <= k && Sorted(head) && (forall i | 0 <= i < |head| :: head[i].end <= start)
    ensures a > 0 ==> runs[a - 1].end <= start && forall i | 0 <= i < |head| :: runs[a - 1].end <= head[i].start
    ensures At(head, x) == if x < start then At(runs[a..k], x) else None
    ensures x >= start && (k > 0 ==> runs[k - 1].end <= x) ==> At(runs[a..k], x) == None
  {
    if a < k {
      assert runs[a..k] == [runs[k - 1]];
      assert head == [runs[k - 1].(end := start)];
      AtOne(runs[k - 1], x);
      AtOne(runs[k - 1].(end := start), x);
    } else {
      assert runs[a..k] == [];
    }
    hide At;
  }

  /** A run begins where the range does and reaches as far: it is kept, or changed and cut. */
  lemma NodeFits<T>(runs: seq<Run<T>>, k: nat, a: nat, head: seq<Run<T>>, start: int, end: int, data: T)
    requires Sorted(runs) && k < |runs| && 0 <= start < end <= TOP && Headed(runs, k, a, head, start)
    requires (forall i | 0 <= i < k :: runs[i].start < start) && runs[k].start == start && end <= runs[k].end
    ensures a <= k
    ensures runs[k].data == data ==> Fits(runs, a, k + 1, head + [runs[k]], start, end, data)
    ensures runs[k].end > end ==>
        Fits(runs, a, k + 1, head + [Run(start, end, data), runs[k].(start := end)], start, end, data)
  {
    hide At;
    var node := runs[k];
    var (q, n) := (Run(start, end, data), node.(start := end));
    forall x
      ensures a <= k && Sorted(head) && (forall i | 0 <= i < |head| :: head[i].end <= start)
      ensures a > 0 ==> runs[a - 1].end <= start && forall i | 0 <= i < |head| :: runs[a - 1].end <= head[i].start
      ensures At(runs[a..k + 1], x) == if x < start then At(head, x) else if x < node.end then Some(node.data) else None
      ensures At(head + [node], x) == if x < start then At(head, x) else if x < node.end then Some(node.data) else None
      ensures At(head + [q, n], x) == if x < start then At(head, x) else if x < end then Some(data)
          else if x < node.end then Some(node.data) else None
    {
      HeadedAt(runs, k, a, head, start, x);
      assert runs[a..k + 1] == runs[a..k] + [node];
      AtConcat(runs[a..k], [node], x);
      AtConcat(head, [node], x);
      AtConcat(head, [q, n], x);
      AtOne(node, x);
      AtTwo(q, n, x);
      if x >= start { AtOutside(runs[a..k], x); }
    }
    HeadedAt(runs, k, a, head, start, 0);
    SortedMore(head, node);
    if node.end > end {
      SortedMore(head, q);
      SortedMore(head + [q], n);
      assert head + [q, n] == head + [q] + [n];
    }
  }

  lemma HeadedOnward<T>(runs: seq<Run<T>>, k: nat, j: nat, a: nat, head: seq<Run<T>>, start: int, end: int, data: T)
    requires Sorted(runs) && k <= j <= |runs| && j <= k + 1 && 0 <= start < end <= TOP
    requires Headed(runs, k, a, head, start)
    requires (forall i | 0 <= i < k :: runs[i].start < start && runs[i].end <= end)
    requires (forall i | k <= i < j :: runs[i].start == start && runs[i].end <= end)
    requires forall i | j <= i < |runs| :: runs[i].start > start
    ensures a <= j
    ensures var c := Onward(runs, a, j, head, Run(start, end, data), end); Fits(runs, c.0, c.1, c.2, start, end, data)
  {
    hide At, Onward, Fits;
    var run := Run(start, end, data);
    forall x | x < start ensures At(head + [run.(end := end)], x) == At(runs[a..j], x) {
      HeadedAt(runs, k, a, head, start, x);
      AtConcat(head, [run], x);
      AtOne(run, x);
      assert runs[a..j] == runs[a..k] + runs[k..j];
      AtConcat(runs[a..k], runs[k..j], x);
      AtOutside(runs[k..j], x);
    }
    HeadedAt(runs, k, a, head, start, 0);
    OnwardFits(runs, a, j, head, run, start, end);
  }

  /** Every case of rb_set is a replacement that fits. */
  lemma SetFits<T>(runs: seq<Run<T>>, start: int, end: int, data: T)
    requires Sorted(runs) && 0 <= start < end <= TOP
    ensures var c := SetChange(runs, start, end, data); Fits(runs, c.0, c.1, c.2, start, end, data)
  {
    hide Fits, Onward, At;
    var k := Lower(runs, start);
    var node := k < |runs| && runs[k].start == start;
    if k > 0 && runs[k - 1].end >= start && runs[k - 1].data == data {
      MergeFits(runs, k, start, end, data);
      if end > runs[k - 1].end && !(node && runs[k].end >= end) {
        BehindNode(runs, k, start);
        MergeOnward(runs, k, if node then k + 1 else k, start, end);
      }
    } else if k > 0 && runs[k - 1].end > end {
      SplitFits(runs, k, start, end, data);
    } else {
      FreshFits(runs, k, start, end, data);
    }
  }

  lemma BehindNode<T>(runs: seq<Run<T>>, k: nat, start: int)
    requires Sorted(runs) && k <= |runs| && forall i | k <= i < |runs| :: runs[i].start >= start
    ensures var j := if k < |runs| && runs[k].start == start then k + 1 else k;
        forall i | j <= i < |runs| :: runs[i].start > start
  {}

  /** The cases without a run before that reaches over the end or holds the same. */
  lemma FreshFits<T>(runs: seq<Run<T>>, k: nat, start: int, end: int, data: T)
    requires Sorted(runs) && 0 <= start < end <= TOP && k == Lower(runs, start)
    requires k > 0 ==> runs[k - 1].end <= end && !(runs[k - 1].end >= start && runs[k - 1].data == data)
    ensures var c := SetChange(runs, start, end, data); Fits(runs, c.0, c.1, c.2, start, end, data)
  {
    hide Fits, Onward, At, Lower;
    var node := k < |runs| && runs[k].start == start;
    var cut := k > 0 && runs[k - 1].end > start;
    var (a, head) := if cut then (k - 1, [runs[k - 1].(end := start)]) else (k, []);
    if node && runs[k].end >= end { NodeFits(runs, k, a, head, start, end, data); }
    if !(node && runs[k].end > end) && !(node && runs[k].end >= end && runs[k].data == data) {
      BehindNode(runs, k, start);
      forall i | 0 <= i < k ensures runs[i].end <= end { if i < k - 1 { assert runs[i].end <= runs[k - 1].start; } }
      HeadedOnward(runs, k, if node then k + 1 else k, a, head, start, end, data);
    }
  }

  /** rb_set does to every address what it should, and nothing to the others. */
  lemma AtSet<T>(runs: seq<Run<T>>, start: int, end: int, data: T, x: int)
    requires Sorted(runs) && 0 <= start < end <= TOP
    ensures Sorted(Set(runs, start, end, data))
    ensures At(Set(runs, start, end, data), x) == if start <= x < end then Some(data) else At(runs, x)
  {
    hide Fits, SetChange;
    var c := SetChange(runs, start, end, data);
    SetFits(runs, start, end, data);
    ReplacedSorted(runs, c.0, c.1, c.2, start, end, data);
    ReplacedAt(runs, c.0, c.1, c.2, start, end, data, x);
  }

  /** All boundaries stay on pages. */
  lemma AlignedSet<T>(runs: seq<Run<T>>, start: int, end: int, data: T, page: int)
    requires Sorted(runs) && 0 <= start < end <= TOP && page > 0 && Aligned(runs, page) && OnPage(start, page)
    requires OnPage(end, page)
    ensures Aligned(Set(runs, start, end, data), page)
  {
    hide OnPage, Onward, Lower;
    var c := SetChange(runs, start, end, data);
    var k := Lower(runs, start);
    var j := if k < |runs| && runs[k].start == start then k + 1 else k;
    var run := Run(start, end, data);
    OnwardAligned(runs, k, j, [], run, end, page);
    if k > 0 {
      OnwardAligned(runs, k - 1, j, [], runs[k - 1], end, page);
      OnwardAligned(runs, k - 1, j, [runs[k - 1].(end := start)], run, end, page);
    }
    AlignedReplaced(runs, c.0, c.1, c.2, page);
  }

  lemma OnwardAligned<T>(runs: seq<Run<T>>, a: nat, j: nat, head: seq<Run<T>>, run: Run<T>, end: int, page: int)
    requires Sorted(runs) && a <= j <= |runs| && page > 0 && Aligned(runs, page) && Aligned(head, page)
    requires OnPage(run.start, page) && OnPage(end, page)
    ensures Aligned(Onward(runs, a, j, head, run, end).2, page)
  {
    hide OnPage, Beyond;
  }

  lemma AlignedReplaced<T>(runs: seq<Run<T>>, a: nat, b: nat, mid: seq<Run<T>>, page: int)
    requires a <= b <= |runs| && page > 0 && Aligned(runs, page) && Aligned(mid, page)
    ensures Aligned(Replaced(runs, a, b, mid), page)
  {
    hide Rem;
    var r := Replaced(runs, a, b, mid);
    forall i | 0 <= i < |r| ensures OnPage(r[i].start, page) && OnPage(r[i].end, page) {
      assert r[i] == if i < a then runs[i] else if i < a + |mid| then mid[i - a] else runs[i - a - |mid| + b];
    }
  }
}
