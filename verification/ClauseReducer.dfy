/** Clauses.reduce (rebuild_wrappers.py): the Quine-McCluskey algorithm over defined() tests. */
module ClauseReducer {
  import opened Conditions
  import opened Implicants
  import opened PrimeSearch
  import opened ClauseMeaning
  import opened Sorting

  // ---- The assignments that the clauses ask for

  function AddBit(low: seq<Bits>, b: nat): (r: seq<Bits>)
    ensures |r| == |low| && forall k | 0 <= k < |low| :: r[k] == low[k] + {b}
  {
    seq(|low|, k requires 0 <= k < |low| => low[k] + {b})
  }

  /** range(1 << n), every number as the set of its bits. */
  function Assignments(n: nat): (r: seq<Bits>) {
    if n == 0 then [{}] else Assignments(n - 1) + AddBit(Assignments(n - 1), n - 1)
  }

  predicate DistinctBits(all: seq<Bits>) {
    forall x, y | 0 <= x < y < |all| :: all[x] != all[y]
  }

  lemma AddBitIn(low: seq<Bits>, b: nat, i: Bits)
    requires forall l | l in low :: b !in l
    ensures i in AddBit(low, b) <==> b in i && i - {b} in low
  {
    var r := AddBit(low, b);
    if i in r {
      var k :| 0 <= k < |r| && r[k] == i;
      assert low[k] in low && i - {b} == low[k];
    }
    if b in i && i - {b} in low {
      var k :| 0 <= k < |low| && low[k] == i - {b};
      assert r[k] == i;
    }
  }

  lemma AddBitDistinct(low: seq<Bits>, b: nat)
    requires DistinctBits(low) && forall l | l in low :: b !in l
    ensures DistinctBits(low + AddBit(low, b))
  {
    var (r, all) := (AddBit(low, b), low + AddBit(low, b));
    forall x, y | 0 <= x < y < |all| ensures all[x] != all[y] {
      var (l, m) := (low[if x < |low| then x else x - |low|], low[if y < |low| then y else y - |low|]);
      assert l in low && m in low;
      assert all[x] - {b} == l && all[y] - {b} == m;
      assert (b in all[x] <==> x >= |low|) && (b in all[y] <==> y >= |low|);
    }
  }

  /** Every assignment once. */
  lemma {:induction false} AssignmentsAre(n: nat)
    ensures DistinctBits(Assignments(n)) && forall i: Bits :: i in Assignments(n) <==> i <= Names(n)
  {
    hide Names;
    if n == 0 {
      forall i: Bits ensures i in Assignments(0) <==> i <= Names(0) { NoNames(i); }
    } else {
      AssignmentsAre(n - 1);
      var (low, below) := (Assignments(n - 1), Names(n - 1));
      AddBitDistinct(low, n - 1);
      NamesSplit(n);
      forall i: Bits ensures i in Assignments(n) <==> i <= Names(n) { AssignmentStep(low, n - 1, below, i); }
    }
  }

  lemma NoNames(i: Bits)
    ensures i <= Names(0) <==> i == {}
  {}

  lemma NamesSplit(n: nat)
    requires n > 0
    ensures Names(n) == Names(n - 1) + {n - 1} && n - 1 !in Names(n - 1)
  {}

  lemma AssignmentStep(low: seq<Bits>, b: nat, below: Bits, i: Bits)
    requires b !in below && forall j: Bits :: j in low <==> j <= below
    ensures i in low + AddBit(low, b) <==> i <= below + {b}
  {
    AddBitIn(low, b, i);
    var j: Bits := i - {b};
    assert j in low <==> j <= below;
    if b in i { assert i == j + {b}; } else { assert i == j; }
  }

  function Select(all: seq<Bits>, cs: Clauses, defines: seq<string>): (r: seq<Imp>)
    ensures forall p | p in r :: p.m == {} && p.v in all
    ensures forall i | i in all :: Imp(i, {}) in r <==> AnyHolds(cs, i, defines)
  {
    if all == [] then []
    else
      var rest := Select(all[1..], cs, defines);
      if AnyHolds(cs, all[0], defines) then [Imp(all[0], {})] + rest else rest
  }

  lemma {:induction false} SelectDistinct(all: seq<Bits>, cs: Clauses, defines: seq<string>)
    requires DistinctBits(all)
    ensures Distinct(Select(all, cs, defines))
  {
    if all == [] {
    } else {
      SelectDistinct(all[1..], cs, defines);
      assert forall p | p in Select(all[1..], cs, defines) :: p.v in all[1..];
      assert all[0] !in all[1..];
    }
  }

  /** The assignments under which one of the clauses holds. */
  ghost function OnSet(cs: Clauses, defines: seq<string>): set<Bits> {
    set i | i in Assignments(|defines|) && AnyHolds(cs, i, defines)
  }

  lemma OnSetIs(cs: Clauses, defines: seq<string>, i: Bits)
    ensures i in OnSet(cs, defines) <==> i <= Names(|defines|) && AnyHolds(cs, i, defines)
  {
    AssignmentsAre(|defines|);
  }

  function Needed(cs: Clauses, defines: seq<string>): seq<Imp> {
    Select(Assignments(|defines|), cs, defines)
  }

  /** They are the implicants without free variables. */
  lemma NeededIsLevel0(cs: Clauses, defines: seq<string>)
    ensures LevelOK(OnSet(cs, defines), |defines|, 0, Needed(cs, defines))
  {
    var (f, n, l) := (OnSet(cs, defines), |defines|, Needed(cs, defines));
    AssignmentsAre(n);
    SelectDistinct(Assignments(n), cs, defines);
    forall p ensures p in l <==> Implicant(f, n, p) && |p.m| == 0 {
      if |p.m| == 0 {
        assert p == Imp(p.v, {});
        SingleImplicant(f, n, p.v);
      }
    }
  }

  lemma SingleImplicant(f: set<Bits>, n: nat, i: Bits)
    requires forall j | j in f :: j <= Names(n)
    ensures Implicant(f, n, Imp(i, {})) <==> i in f
  {
    var p := Imp(i, {});
    assert forall j: Bits :: j + {} == j;
    if Implicant(f, n, p) { assert Covers(p, i); }
    if i in f { forall j | j <= Names(n) && Covers(p, j) ensures j in f { assert j == i; } }
  }

  // ---- Clauses out of implicants

  /** The tests of p among the names from j on: those that are not free. */
  function Tests(p: Imp, defines: seq<string>, j: nat): (c: Clause)
    requires j <= |defines|
    ensures forall d | d in c :: exists k :: j <= k < |defines| && k !in p.m && d == Define(defines[k], k !in p.v)
    ensures forall k | j <= k < |defines| && k !in p.m :: Define(defines[k], k !in p.v) in c
    decreases |defines| - j
  {
    if j == |defines| then []
    else if j in p.m then Tests(p, defines, j + 1)
    else [Define(defines[j], j !in p.v)] + Tests(p, defines, j + 1)
  }

  lemma TestsHold(p: Imp, i: Bits, defines: seq<string>)
    requires NamesDistinct(defines) && p.m <= p.v <= Names(|defines|) && i <= Names(|defines|)
    ensures Holds(Tests(p, defines, 0), i, defines) <==> Covers(p, i)
  {
    hide Tests;
    var c := Tests(p, defines, 0);
    if Holds(c, i, defines) {
      forall k: nat ensures k in i + p.m <==> k in p.v {
        if k < |defines| && k !in p.m {
          assert Define(defines[k], k !in p.v) in c;
          TestLit(p, i, defines, k);
        }
      }
    }
    if Covers(p, i) {
      forall d | d in c ensures Lit(d, i, defines) {
        var k :| 0 <= k < |defines| && k !in p.m && d == Define(defines[k], k !in p.v);
        TestLit(p, i, defines, k);
        assert k in i + p.m <==> k in p.v;
      }
    }
  }

  lemma TestLit(p: Imp, i: Bits, defines: seq<string>, k: nat)
    requires NamesDistinct(defines) && k < |defines|
    ensures Lit(Define(defines[k], k !in p.v), i, defines) <==> (k in i <==> k in p.v)
  {
    IndexOf(defines, k);
  }

  /** Dropping the test of name b leaves what the implicant widened in b covers. */
  lemma TestsBut(p: Imp, b: nat, i: Bits, defines: seq<string>)
    requires NamesDistinct(defines) && p.m <= p.v <= Names(|defines|) && i <= Names(|defines|)
    requires b < |defines| && b !in p.m && Covers(Widened(p, b), i)
    ensures HoldsBut(Tests(p, defines, 0), Define(defines[b], b !in p.v), i, defines)
  {
    var c := Tests(p, defines, 0);
    forall d | d in c && d != Define(defines[b], b !in p.v) ensures Lit(d, i, defines) {
      var k :| 0 <= k < |defines| && k !in p.m && d == Define(defines[k], k !in p.v);
      IndexOf(defines, k);
      assert k != b;
      assert k in i + (p.m + {b}) <==> k in p.v + {b};
    }
  }

  /** A literal of a prime implicant's clause is needed. */
  lemma LiteralNeeded(p: Imp, cs: Clauses, defines: seq<string>, b: nat) returns (i: Bits)
    requires NamesDistinct(defines) && Prime(OnSet(cs, defines), |defines|, p) && b < |defines| && b !in p.m
    ensures i <= Names(|defines|) && !AnyHolds(cs, i, defines)
    ensures HoldsBut(Tests(p, defines, 0), Define(defines[b], b !in p.v), i, defines)
  {
    hide HoldsBut, AnyHolds, Covers, Tests;
    var (f, n) := (OnSet(cs, defines), |defines|);
    var w := Widened(p, b);
    assert !Implicant(f, n, w);
    i :| i <= Names(n) && Covers(w, i) && i !in f;
    TestsBut(p, b, i, defines);
    OnSetIs(cs, defines, i);
  }

  /** The clause of a prime implicant is prime. */
  lemma TestsPrime(p: Imp, cs: Clauses, defines: seq<string>)
    requires NamesDistinct(defines) && Prime(OnSet(cs, defines), |defines|, p)
    ensures PrimeClause(Tests(p, defines, 0), cs, defines)
  {
    hide Holds, HoldsBut, AnyHolds, Covers, Tests, Prime, OnSet;
    var (f, n, c) := (OnSet(cs, defines), |defines|, Tests(p, defines, 0));
    forall i | i <= Names(n) && Holds(c, i, defines) ensures AnyHolds(cs, i, defines) { TestsImply(p, cs, defines, i); }
    forall d | d in c ensures exists i :: i <= Names(n) && HoldsBut(c, d, i, defines) && !AnyHolds(cs, i, defines) {
      var b: nat :| b < n && b !in p.m && d == Define(defines[b], b !in p.v);
      var i := LiteralNeeded(p, cs, defines, b);
    }
  }

  lemma TestsImply(p: Imp, cs: Clauses, defines: seq<string>, i: Bits)
    requires NamesDistinct(defines) && Prime(OnSet(cs, defines), |defines|, p)
    requires i <= Names(|defines|) && Holds(Tests(p, defines, 0), i, defines)
    ensures AnyHolds(cs, i, defines)
  {
    hide Holds, AnyHolds, Tests;
    TestsHold(p, i, defines);
    OnSetIs(cs, defines, i);
  }

  // ---- Choosing among the prime implicants

  /** Every assignment of the on-set is covered by a prime implicant. */
  lemma {:induction false} Grow(f: set<Bits>, n: nat, p: Imp, i: Bits) returns (r: Imp)
    requires Implicant(f, n, p) && Covers(p, i)
    ensures Prime(f, n, r) && Covers(r, i)
    decreases n - |p.m|
  {
    hide Implicant;
    MaskSize(f, n, p);
    if Prime(f, n, p) {
      r := p;
    } else {
      var b :| b in Names(n) && b !in p.m && Implicant(f, n, Widened(p, b));
      assert i + (p.m + {b}) == (i + p.m) + {b};
      MaskSize(f, n, Widened(p, b));
      r := Grow(f, n, Widened(p, b), i);
    }
  }

  /** An assignment and the prime implicants that cover it: an item of `matches`. */
  datatype Match = Match(key: Bits, list: seq<Imp>)

  function Covering(primes: seq<Imp>, i: Bits): (r: seq<Imp>)
    ensures |r| <= |primes| && forall p :: p in r <==> p in primes && Covers(p, i)
  {
    if primes == [] then []
    else (if Covers(primes[0], i) then [primes[0]] else []) + Covering(primes[1..], i)
  }

  function Matches(needed: seq<Imp>, primes: seq<Imp>): (r: seq<Match>)
    ensures |r| == |needed| && forall k | 0 <= k < |needed| :: r[k] == Match(needed[k].v, Covering(primes, needed[k].v))
  {
    seq(|needed|, k requires 0 <= k < |needed| => Match(needed[k].v, Covering(primes, needed[k].v)))
  }

  /** The items that p does not settle. */
  function Erase(ms: seq<Match>, p: Imp): (r: seq<Match>)
    ensures |r| <= |ms| && ((exists m | m in ms :: p in m.list) ==> |r| < |ms|)
    ensures forall m :: m in r <==> m in ms && p !in m.list
  {
    if ms == [] then [] else (if p in ms[0].list then [] else [ms[0]]) + Erase(ms[1..], p)
  }

  /** The first of the items with the least to choose from. */
  function FirstLeast(ms: seq<Match>): (k: nat)
    requires ms != []
    ensures k < |ms|
    ensures forall j | 0 <= j < |ms| :: |ms[k].list| <= |ms[j].list| && (j < k ==> |ms[k].list| < |ms[j].list|)
  {
    if |ms| == 1 then 0
    else
      var k := FirstLeast(ms[..|ms| - 1]);
      if |ms[|ms| - 1].list| < |ms[k].list| then |ms| - 1 else k
  }

  /** The prime implicants that are chosen: each time the first for such an item. */
  function Picks(ms: seq<Match>): (r: seq<Imp>)
    decreases |ms|
  {
    if ms == [] || ms[FirstLeast(ms)].list == [] then []
    else
      var m := ms[FirstLeast(ms)];
      assert m in ms && m.list[0] in m.list;
      [m.list[0]] + Picks(Erase(ms, m.list[0]))
  }

  /** What is left has at least `size` prime implicants to choose from. */
  ghost predicate Waiting(f: set<Bits>, primes: seq<Imp>, ms: seq<Match>, size: nat) {
    forall m | m in ms :: m.key in f && m.list == Covering(primes, m.key) && |m.list| >= size
  }

  /** Every assignment of the on-set is left, or covered by a chosen one. */
  ghost predicate Settled(f: set<Bits>, ms: seq<Match>, chosen: seq<Imp>) {
    forall i | i in f :: (exists m | m in ms :: m.key == i) || (exists p | p in chosen :: Covers(p, i))
  }

  /** The first item with exactly `size` to choose from. An item with less would be an error of
      the algorithm: there is none. */
  method FirstOfSize(ms: seq<Match>, size: nat, ghost f: set<Bits>, ghost primes: seq<Imp>)
    returns (found: bool, at: nat)
    requires Waiting(f, primes, ms, size)
    ensures if found then at < |ms| && |ms[at].list| == size else Waiting(f, primes, ms, size + 1)
    ensures found ==> at == FirstLeast(ms)
  {
    at := 0;
    while at < |ms|
      invariant 0 <= at <= |ms| && forall k | 0 <= k < at :: |ms[k].list| > size
    {
      assert ms[at] in ms;
      if |ms[at].list| < size {
        // NotImplementedError("There seems to be an error in the algorithm")
        assert false;
      } else if |ms[at].list| == size {
        return true, at;
      }
      at := at + 1;
    }
    return false, 0;
  }

  lemma EraseSettles(f: set<Bits>, primes: seq<Imp>, ms: seq<Match>, chosen: seq<Imp>, p: Imp)
    requires Settled(f, ms, chosen) && Waiting(f, primes, ms, 0)
    ensures Settled(f, Erase(ms, p), chosen + [p])
  {
    var (rest, more) := (Erase(ms, p), chosen + [p]);
    forall i | i in f ensures (exists m | m in rest :: m.key == i) || (exists q | q in more :: Covers(q, i)) {
      if m :| m in ms && m.key == i {
        if p in m.list { assert p in more && Covers(p, i); } else { assert m in rest; }
      } else {
        var q :| q in chosen && Covers(q, i);
        assert q in more;
      }
    }
  }

  lemma PickStep(chosen: seq<Imp>, ms: seq<Match>, at: nat)
    requires at < |ms| && at == FirstLeast(ms) && ms[at].list != []
    ensures var p := ms[at].list[0]; chosen + Picks(ms) == chosen + [p] + Picks(Erase(ms, p))
  {
    hide FirstLeast, Erase;
    assert ms[at] in ms;
    var rest := Picks(Erase(ms, ms[at].list[0]));
    assert Picks(ms) == [ms[at].list[0]] + rest;
    assert chosen + ([ms[at].list[0]] + rest) == chosen + [ms[at].list[0]] + rest;
  }

  lemma PicksNone()
    ensures Picks([]) == []
  {}

  /** The choosing loops: first where there is no choice, then among more and more. */
  method Choose(needed: seq<Imp>, primes: seq<Imp>, defines: seq<string>, ghost f: set<Bits>)
    returns (clauses: Clauses, ghost chosen: seq<Imp>)
    requires Waiting(f, primes, Matches(needed, primes), 1) && Settled(f, Matches(needed, primes), [])
    ensures |clauses| == |chosen|
    ensures forall k | 0 <= k < |chosen| :: chosen[k] in primes && clauses[k] == SortedTests(chosen[k], defines)
    ensures Settled(f, [], chosen) && chosen == Picks(Matches(needed, primes))
    ensures forall c | c in clauses :: exists p | p in primes :: c == SortedTests(p, defines)
  {
    hide Settled, Covering, Matches, Picks, FirstLeast, SortedTests;
    var matches := Matches(needed, primes);
    clauses, chosen := [], [];
    var matchesSize := 1;
    while |matches| != 0
      invariant Waiting(f, primes, matches, matchesSize) && Settled(f, matches, chosen)
      invariant |clauses| == |chosen| && chosen + Picks(matches) == Picks(Matches(needed, primes))
      invariant forall k | 0 <= k < |chosen| :: chosen[k] in primes && clauses[k] == SortedTests(chosen[k], defines)
      decreases |primes| + 1 - matchesSize
    {
      ghost var some := matches[0];
      assert some in matches && |some.list| <= |primes|;
      var matchFound := true;
      while matchFound
        invariant Waiting(f, primes, matches, if matchFound then matchesSize else matchesSize + 1)
        invariant Settled(f, matches, chosen)
        invariant |clauses| == |chosen| && chosen + Picks(matches) == Picks(Matches(needed, primes))
        invariant forall k | 0 <= k < |chosen| :: chosen[k] in primes && clauses[k] == SortedTests(chosen[k], defines)
        decreases |matches|, if matchFound then 1 else 0
      {
        var at;
        matchFound, at := FirstOfSize(matches, matchesSize, f, primes);
        if matchFound {
          assert matches[at] in matches;
          var p := matches[at].list[0];
          assert p in matches[at].list;
          PickStep(chosen, matches, at);
          clauses, chosen := clauses + [SortedTests(p, defines)], chosen + [p];
          EraseSettles(f, primes, matches, chosen[..|chosen| - 1], p);
          assert chosen[..|chosen| - 1] + [p] == chosen;
          matches := Erase(matches, p);
        }
      }
      matchesSize := matchesSize + 1;
    }
    assert matches == [] && Picks(matches) == [] by { PicksNone(); }
    forall c | c in clauses ensures exists p | p in primes :: c == SortedTests(p, defines) {
      var k :| 0 <= k < |clauses| && clauses[k] == c;
      assert chosen[k] in primes;
    }
  }

  function ByName(defines: seq<string>): Define -> seq<int> {
    (d: Define) => [Index(defines, d.name)]
  }

  /** The tests come in the order of the names, and no name comes twice. */
  predicate InNameOrder(c: Clause, defines: seq<string>) {
    forall i, j | 0 <= i < j < |c| :: Index(defines, c[i].name) < Index(defines, c[j].name)
  }

  predicate NamesOnce(c: Clause) {
    forall i, j | 0 <= i < j < |c| :: c[i].name != c[j].name
  }

  /** Sorting puts tests of different names in the order of the names. */
  lemma SortedInOrder(c: Clause, defines: seq<string>)
    requires NamesKnown(c, defines) && NamesOnce(c)
    ensures InNameOrder(Sort(c, ByName(defines)), defines)
  {
    hide NamesOnce, Sort;
    var s := Sort(c, ByName(defines));
    SortSorts(c, ByName(defines));
    forall i, j | 0 <= i < j < |s| ensures Index(defines, s[i].name) < Index(defines, s[j].name) {
      SortedAll(s, ByName(defines), i, j);
      SortElements(c, ByName(defines), s[i]);
      SortElements(c, ByName(defines), s[j]);
      if s[i].name == s[j].name { NamedOnce(c, s, i, j); }
    }
  }

  lemma NamedOnce(c: Clause, s: Clause, i: nat, j: nat)
    requires NamesOnce(c) && multiset(s) == multiset(c) && i < j < |s|
    ensures s[i].name != s[j].name
  {
    assert s[i] in multiset(s) && s[j] in multiset(s);
    assert s[i] in c && s[j] in c;
    if s[i] == s[j] {
      Twice(s, i, j);
      Once(c, s[i]);
    }
  }

  lemma Twice(s: Clause, i: nat, j: nat)
    requires i < j < |s| && s[i] == s[j]
    ensures multiset(s)[s[i]] >= 2
  {
    assert s == s[..j] + ([s[j]] + s[j + 1..]);
    assert s[..j][i] in s[..j] && s[i] in multiset(s[..j]);
  }

  lemma {:induction false} Once(s: Clause, x: Define)
    requires NamesOnce(s)
    ensures multiset(s)[x] <= 1
  {
    if s == [] {
    } else {
      var front := s[..|s| - 1];
      assert s == front + [s[|s| - 1]];
      Once(front, x);
      assert x in front <==> x in multiset(front);
    }
  }

  lemma {:induction false} TestsOnce(p: Imp, defines: seq<string>, j: nat)
    requires NamesDistinct(defines) && j <= |defines|
    ensures NamesOnce(Tests(p, defines, j))
    decreases |defines| - j
  {
    if j == |defines| {
    } else {
      TestsOnce(p, defines, j + 1);
      var r := Tests(p, defines, j + 1);
      forall k | 0 <= k < |r| ensures r[k].name != defines[j] { assert r[k] in r; }
    }
  }

  function SortedTests(p: Imp, defines: seq<string>): Clause {
    Sort(Tests(p, defines, 0), ByName(defines))
  }

  /** The prime implicants that reduce chooses, one after another. */
  ghost function Chosen(cs: Clauses, defines: seq<string>): seq<Imp> {
    var needed := Needed(cs, defines);
    Picks(Matches(needed, Uncombined(needed, |defines| + 1, [])))
  }

  /** The choice is among the prime implicants, and covers all of the on-set. */
  ghost predicate ChosenWell(cs: Clauses, defines: seq<string>) {
    && (forall p ::
      p in Uncombined(Needed(cs, defines), |defines| + 1, []) <==> Prime(OnSet(cs, defines), |defines|, p))
    && (forall p | p in Chosen(cs, defines) :: Prime(OnSet(cs, defines), |defines|, p))
    && Settled(OnSet(cs, defines), [], Chosen(cs, defines))
  }

  function AsClauses(chosen: seq<Imp>, defines: seq<string>): (r: Clauses)
    ensures |r| == |chosen| && forall k | 0 <= k < |r| :: r[k] == SortedTests(chosen[k], defines)
  {
    seq(|chosen|, k requires 0 <= k < |chosen| => SortedTests(chosen[k], defines))
  }

  // ---- The whole of reduce

  function Indices(c: Clause, defines: seq<string>): seq<int> {
    if c == [] then [] else [Index(defines, c[0].name)] + Indices(c[1..], defines)
  }

  function BySize(defines: seq<string>): Clause -> seq<int> {
    (c: Clause) => [|c|] + Indices(c, defines)
  }

  lemma {:induction false} IndicesAt(c: Clause, defines: seq<string>, k: nat)
    requires k < |c|
    ensures |Indices(c, defines)| == |c| && Indices(c, defines)[k] == Index(defines, c[k].name)
  {
    if k == 0 {
      IndicesLength(c, defines);
    } else {
      IndicesAt(c[1..], defines, k - 1);
    }
  }

  lemma {:induction false} IndicesLength(c: Clause, defines: seq<string>)
    ensures |Indices(c, defines)| == |c|
  {
    if c == [] {
    } else {
      IndicesLength(c[1..], defines);
    }
  }

  /** The order of a reduced list: a clause with fewer tests comes first; of two with the same
      number, the one whose names are listed first; and so do the tests within a clause. */
  lemma InOrder(cs: Clauses, defines: seq<string>, i: nat, j: nat)
    requires Sorted(cs, BySize(defines)) && i < j < |cs|
    ensures |cs[i]| <= |cs[j]|
    ensures |cs[i]| == |cs[j]| ==> forall m | 0 <= m < |cs[i]| &&
              (forall l | 0 <= l < m :: Index(defines, cs[i][l].name) == Index(defines, cs[j][l].name)) ::
                Index(defines, cs[i][m].name) <= Index(defines, cs[j][m].name)
  {
    var c, d := cs[i], cs[j];
    var a, b := BySize(defines)(c), BySize(defines)(d);
    SortedAll(cs, BySize(defines), i, j);
    LexMeans(a, b);
    forall k | 0 <= k < |c| ensures k + 1 < |a| && a[k + 1] == Index(defines, c[k].name) { IndicesAt(c, defines, k); }
    forall k | 0 <= k < |d| ensures k + 1 < |b| && b[k + 1] == Index(defines, d[k].name) { IndicesAt(d, defines, k); }
    IndicesLength(c, defines);
    IndicesLength(d, defines);
    if |c| == |d| {
      forall m | 0 <= m < |c| && (forall l | 0 <= l < m :: Index(defines, c[l].name) == Index(defines, d[l].name))
        ensures Index(defines, c[m].name) <= Index(defines, d[m].name)
      {
        forall l | 0 <= l < m + 1 ensures a[l] == b[l] {
          if l > 0 { assert a[(l - 1) + 1] == Index(defines, c[l - 1].name); }
        }
        assert a[m + 1] == Index(defines, c[m].name) && b[m + 1] == Index(defines, d[m].name);
        InOrderAt(a, b, m + 1);
      }
    }
  }

  lemma InOrderAt(a: seq<int>, b: seq<int>, k: nat)
    requires |a| == |b| && k < |a| && LexLeq(a, b) && forall l | 0 <= l < k :: a[l] == b[l]
    ensures a[k] <= b[k]
  {
    LexMeans(a, b);
    if m :| FirstBelow(a, b, m) {
      forall l | 0 <= l < m ensures a[l] == b[l] { assert a[..m][l] == b[..m][l]; }
    }
  }

  /** Something can be true: the list is empty, or a clause does not contradict itself. */
  predicate Fine(cs: Clauses) {
    cs == [] || exists c | c in cs :: Satisfiable(c)
  }

  lemma OnSetInhabited(cs: Clauses, defines: seq<string>)
    requires forall c | c in cs :: NamesKnown(c, defines)
    ensures (exists c | c in cs :: Satisfiable(c)) <==> OnSet(cs, defines) != {}
  {
    hide OnSet, Satisfiable, Holds;
    if c :| c in cs && Satisfiable(c) {
      WitnessHolds(c, defines);
      OnSetIs(cs, defines, Witness(c, defines));
    } else if OnSet(cs, defines) != {} {
      var i :| i in OnSet(cs, defines);
      OnSetIs(cs, defines, i);
      var c :| c in cs && Holds(c, i, defines);
      if !Satisfiable(c) { ContradictionFails(c, i, defines); }
    }
  }

  /** What a list of clauses must be to stand for cs: prime, and together the same. */
  ghost predicate Minimised(r: Clauses, cs: Clauses, defines: seq<string>) {
    && (forall c | c in r :: PrimeClause(c, cs, defines) && NamesKnown(c, defines) && InNameOrder(c, defines))
    && (forall i | i <= Names(|defines|) :: AnyHolds(r, i, defines) <==> AnyHolds(cs, i, defines))
  }

  lemma SortedTestsFacts(p: Imp, cs: Clauses, defines: seq<string>)
    requires NamesDistinct(defines) && Prime(OnSet(cs, defines), |defines|, p)
    ensures var c := SortedTests(p, defines);
            && PrimeClause(c, cs, defines) && NamesKnown(c, defines) && InNameOrder(c, defines)
            && forall i | i <= Names(|defines|) :: Holds(c, i, defines) <==> Covers(p, i)
  {
    hide PrimeClause, Holds, Covers, OnSet;
    var (t, c) := (Tests(p, defines, 0), SortedTests(p, defines));
    forall d ensures d in c <==> d in t { SortElements(t, ByName(defines), d); }
    TestsPrime(p, cs, defines);
    PrimeSame(t, c, cs, defines);
    TestsOnce(p, defines, 0);
    SortedInOrder(t, defines);
    forall i | i <= Names(|defines|) ensures Holds(c, i, defines) <==> Covers(p, i) {
      TestsHold(p, i, defines);
      HoldsSame(t, c, i, defines);
    }
  }

  /** The chosen prime implicants together are the on-set. */
  lemma ChosenMean(r: Clauses, chosen: seq<Imp>, cs: Clauses, defines: seq<string>)
    requires NamesDistinct(defines) && |r| == |chosen| && Settled(OnSet(cs, defines), [], chosen)
    requires forall k | 0 <= k < |chosen| ::
        Prime(OnSet(cs, defines), |defines|, chosen[k]) && r[k] == SortedTests(chosen[k], defines)
    ensures Minimised(r, cs, defines) && (r == [] <==> OnSet(cs, defines) == {})
  {
    hide PrimeClause, Holds, Covers, OnSet, SortedTests, NamesKnown, Sorted;
    var f := OnSet(cs, defines);
    forall c | c in r ensures PrimeClause(c, cs, defines) && NamesKnown(c, defines) && InNameOrder(c, defines) {
      var k :| 0 <= k < |r| && r[k] == c;
      SortedTestsFacts(chosen[k], cs, defines);
    }
    forall i | i <= Names(|defines|) ensures AnyHolds(r, i, defines) <==> AnyHolds(cs, i, defines) {
      OnSetIs(cs, defines, i);
      if AnyHolds(r, i, defines) {
        var c :| c in r && Holds(c, i, defines);
        var k :| 0 <= k < |r| && r[k] == c;
        SortedTestsFacts(chosen[k], cs, defines);
      }
      if i in f {
        var p :| p in chosen && Covers(p, i);
        var k :| 0 <= k < |chosen| && chosen[k] == p;
        SortedTestsFacts(p, cs, defines);
        assert r[k] in r;
      }
    }
    if f != {} {
      var i :| i in f;
      var p :| p in chosen && Covers(p, i);
    }
    if r != [] {
      ChosenInhabited(chosen[0], f, |defines|);
    }
  }

  lemma ChosenInhabited(p: Imp, f: set<Bits>, n: nat)
    requires Prime(f, n, p)
    ensures f != {}
  {
    assert p.v + p.m == p.v;
    assert Covers(p, p.v);
  }

  /** The items of `matches` at the start: all of the on-set, each with a choice. */
  lemma MatchesStart(cs: Clauses, defines: seq<string>, primes: seq<Imp>)
    requires forall p :: p in primes <==> Prime(OnSet(cs, defines), |defines|, p)
    ensures var ms := Matches(Needed(cs, defines), primes);
            Waiting(OnSet(cs, defines), primes, ms, 1) && Settled(OnSet(cs, defines), ms, [])
  {
    hide Prime, Implicant, OnSet, Needed, LevelOK;
    var (f, n, needed) := (OnSet(cs, defines), |defines|, Needed(cs, defines));
    var ms := Matches(needed, primes);
    forall m | m in ms ensures m.key in f && m.list == Covering(primes, m.key) && |m.list| >= 1 {
      var k :| 0 <= k < |ms| && ms[k] == m;
      NeededIn(cs, defines, needed[k]);
      var p := Grow(f, n, Imp(m.key, {}), m.key);
      assert p in m.list;
    }
    forall i | i in f ensures exists m | m in ms :: m.key == i {
      NeededHas(cs, defines, i);
      var k :| 0 <= k < |needed| && needed[k] == Imp(i, {});
      assert ms[k] in ms && ms[k].key == i;
    }
  }

  lemma NeededIn(cs: Clauses, defines: seq<string>, p: Imp)
    requires p in Needed(cs, defines)
    ensures p == Imp(p.v, {}) && p.v in OnSet(cs, defines) && Implicant(OnSet(cs, defines), |defines|, p)
    ensures Covers(p, p.v)
  {
    NeededIsLevel0(cs, defines);
    AssignmentsAre(|defines|);
    SingleImplicant(OnSet(cs, defines), |defines|, p.v);
  }

  lemma NeededHas(cs: Clauses, defines: seq<string>, i: Bits)
    requires i in OnSet(cs, defines)
    ensures Imp(i, {}) in Needed(cs, defines)
  {}

  lemma ChosenIs(cs: Clauses, defines: seq<string>, needed: seq<Imp>, primes: seq<Imp>)
    requires needed == Needed(cs, defines) && primes == Uncombined(needed, |defines| + 1, [])
    ensures Picks(Matches(needed, primes)) == Chosen(cs, defines)
  {
    hide Picks, Matches, Uncombined, Needed;
  }

  lemma WellChosen(cs: Clauses, defines: seq<string>, chosen: seq<Imp>, primes: seq<Imp>)
    requires chosen == Chosen(cs, defines) && primes == Uncombined(Needed(cs, defines), |defines| + 1, [])
    requires forall p :: p in primes <==> Prime(OnSet(cs, defines), |defines|, p)
    requires Settled(OnSet(cs, defines), [], chosen) && forall k | 0 <= k < |chosen| :: chosen[k] in primes
    ensures ChosenWell(cs, defines)
  {
    hide Chosen, Uncombined, Needed, OnSet, Prime, Settled;
  }

  lemma AsClausesAre(chosen: seq<Imp>, defines: seq<string>, clauses: Clauses)
    requires |clauses| == |chosen| && forall k | 0 <= k < |chosen| :: clauses[k] == SortedTests(chosen[k], defines)
    ensures clauses == AsClauses(chosen, defines)
  {
    hide SortedTests;
  }

  /** The Quine-McCluskey algorithm. */
  method Minimise(cs: Clauses, defines: seq<string>) returns (r: Clauses)
    requires NamesDistinct(defines)
    ensures Minimised(r, cs, defines) && (r == [] <==> OnSet(cs, defines) == {})
    ensures Sorted(r, BySize(defines)) && r == Sort(AsClauses(Chosen(cs, defines), defines), BySize(defines))
    ensures ChosenWell(cs, defines)
  {
    hide *;
    ghost var f := OnSet(cs, defines);
    NeededIsLevel0(cs, defines);
    var needed := Needed(cs, defines);
    var primes := FindPrimes(f, |defines|, needed);
    MatchesStart(cs, defines, primes);
    var chosenClauses, chosen := Choose(needed, primes, defines, f);
    ChosenMean(chosenClauses, chosen, cs, defines);
    ChosenIs(cs, defines, needed, primes);
    AsClausesAre(chosen, defines, chosenClauses);
    WellChosen(cs, defines, chosen, primes);
    r := Sort(chosenClauses, BySize(defines));
    SortSorts(chosenClauses, BySize(defines));
    forall c ensures c in r <==> c in chosenClauses { SortElements(chosenClauses, BySize(defines), c); }
    MinimisedSame(chosenClauses, r, cs, defines);
  }

  lemma MinimisedSame(a: Clauses, b: Clauses, cs: Clauses, defines: seq<string>)
    requires Minimised(a, cs, defines) && forall c :: c in b <==> c in a
    ensures Minimised(b, cs, defines) && (a == [] <==> b == [])
  {
    hide PrimeClause, Holds, Sorted, NamesKnown;
    forall i | i <= Names(|defines|) ensures AnyHolds(b, i, defines) <==> AnyHolds(cs, i, defines) {
      assert AnyHolds(b, i, defines) <==> AnyHolds(a, i, defines);
    }
    if a != [] { assert a[0] in b; }
    if b != [] { assert b[0] in a; }
  }

  /** What the source does with a clause that contradicts itself: it parses a comma. */
  lemma CommaClause(defines: seq<string>)
    ensures ParseClause(",", defines) == if "" in defines then Ok([Define("", false)]) else KeyError("")
  {
    assert Split(",", AND) == [","];
    assert Slice(",", 8) == "" && [","][1..] == [] && ParseDefines([], defines) == Ok([]);
    assert ParseDefine(",", defines) == MakeDefine("", false, defines);
    assert [Define("", false)] + [] == [Define("", false)];
  }

  /** Drops the repetitions of a clause that stands alone. One that contradicts itself raises
      (`ok` is false), unless the empty name can be tested: then it comes to hold that test. */
  method Dedupe(c: Clause, defines: seq<string>) returns (r: Clause, ok: bool)
    requires NamesKnown(c, defines)
    ensures Satisfiable(r) && NamesKnown(r, defines) && NamesOnce(r)
    ensures ok <==> Satisfiable(c) || "" in defines
    ensures Satisfiable(c) ==> SameElements(r, c)
    ensures ok && !Satisfiable(c) ==> Define("", false) in r
  {
    r, ok := [], true;
    var k := 0;
    while k < |c|
      invariant 0 <= k <= |c| && ok && Satisfiable(r) && NamesKnown(r, defines) && NamesOnce(r)
      invariant if Satisfiable(c[..k]) then SameElements(r, c[..k]) else "" in defines && Define("", false) in r
    {
      var d := c[k];
      OneMore(c, k);
      if d in r {
      } else if Inverted(d) in r {
        CommaClause(defines);
        match ParseClause(",", defines) {
          case Ok(comma) => r := comma;
          case _ => return r, false;
        }
      } else {
        r := r + [d];
      }
      k := k + 1;
    }
    assert c[..k] == c;
  }

  /** A clause contradicts itself from the first test on that does. */
  lemma OneMore(c: Clause, k: nat)
    requires k < |c|
    ensures c[k] in c && c[..k + 1] == c[..k] + [c[k]]
    ensures Satisfiable(c[..k + 1]) <==> Satisfiable(c[..k]) && Inverted(c[k]) !in c[..k]
    ensures Satisfiable(c) ==> Satisfiable(c[..k + 1])
  {
    forall e | e in c[..k + 1] ensures e in c {}
    assert c[..k + 1] == c[..k] + [c[k]];
    assert c[k] in c[..k + 1];
    forall e | e in c[..k] ensures e in c[..k + 1] {}
  }

  /** A clause that stands alone is its own prime clause. */
  lemma AloneIsPrimeClause(r: Clause, c: Clause, defines: seq<string>)
    requires SameElements(r, c) && Satisfiable(r) && NamesKnown(r, defines)
    ensures PrimeClause(r, [c], defines)
  {
    hide Satisfiable, Lit;
    forall i | i <= Names(|defines|) && Holds(r, i, defines) ensures AnyHolds([c], i, defines) {
      HoldsSame(r, c, i, defines);
      assert c in [c];
    }
    forall d | d in r
      ensures exists i :: i <= Names(|defines|) && HoldsBut(r, d, i, defines) && !AnyHolds([c], i, defines)
    {
      var i := Flipped(r, d, defines);
      HoldsSame(r, c, i, defines);
    }
  }

  /** The witness of r with the name of d turned round. */
  lemma Flipped(r: Clause, d: Define, defines: seq<string>) returns (i: Bits)
    requires Satisfiable(r) && NamesKnown(r, defines) && d in r
    ensures i <= Names(|defines|) && HoldsBut(r, d, i, defines) && !Holds(r, i, defines)
  {
    var w, b := Witness(r, defines), Index(defines, d.name);
    WitnessHolds(r, defines);
    i := Xor(w, {b});
    assert b < |defines|;
    forall e | e in r && e != d ensures Lit(e, i, defines) {
      assert Lit(e, w, defines) && Inverted(d) !in r;
      assert e.name != d.name && Index(defines, e.name) != b;
    }
    assert Lit(d, w, defines) && !Lit(d, i, defines);
  }

  /** A list of clauses that reduce changes in place. */
  class ClauseList {
    var clauses: Clauses

    constructor (clauses: Clauses)
      ensures this.clauses == clauses
    {
      this.clauses := clauses;
    }

    /** Reduces the clauses. It means the same as before exactly when there was a clause that
        can be true (or no clause at all); then it does not raise, and every clause is prime. */
    method Reduce(defines: seq<string>) returns (ok: bool)
      requires NamesDistinct(defines) && forall c | c in clauses :: NamesKnown(c, defines)
      modifies this
      ensures !ok ==> clauses == old(clauses)
      ensures Reduced(old(clauses), clauses, ok, defines)
      ensures !ByChoice(old(clauses)) ==> AtOnce(old(clauses), clauses, ok, defines)
      ensures ByChoice(old(clauses)) ==>
          ok && ChosenWell(old(clauses), defines) && (clauses == [] <==> OnSet(old(clauses), defines) == {})
      ensures ByChoice(old(clauses)) ==>
          clauses == Sort(AsClauses(Chosen(old(clauses), defines), defines), BySize(defines))
    {
      hide *;
      ChoiceWhen(clauses);
      if [] in clauses {
        EmptyClause(clauses, defines);
        NothingLeft(clauses, defines);
        clauses := [];
        return true;
      }
      if |clauses| == 0 {
        NoClause(defines);
        NothingLeft(clauses, defines);
        return true;
      } else if |clauses| == 1 {
        ok := ReduceOne(defines);
        OneLeft(old(clauses), clauses, ok, defines);
        return;
      } else if |clauses| == 2 {
        if |clauses[0]| == |clauses[1]| == 1 && Inverted(clauses[0][0]) == clauses[1][0] {
          Complementary(clauses, defines);
          NothingLeft(clauses, defines);
          clauses := [];
          return true;
        }
      }
      ghost var cs := clauses;
      clauses := Minimise(clauses, defines);
      ok := true;
      MinimisedReduces(cs, clauses, defines);
    }

    method ReduceOne(defines: seq<string>) returns (ok: bool)
      requires |clauses| == 1 && NamesKnown(clauses[0], defines)
      modifies this
      ensures !ok ==> clauses == old(clauses)
      ensures Reduced(old(clauses), clauses, ok, defines)
      ensures OneReduced(old(clauses)[0], clauses, ok, defines)
    {
      hide *;
      var c := clauses[0];
      assert clauses == [c];
      var r;
      r, ok := Dedupe(c, defines);
      OneClause(c, r, ok, defines);
      if ok {
        clauses := [Sort(r, ByName(defines))];
      }
    }
  }

  /** The list is none of those that reduce treats without choosing. */
  predicate ByChoice(cs: Clauses) {
    && [] !in cs && |cs| > 1
    && !(|cs| == 2 && |cs[0]| == |cs[1]| == 1 && Inverted(cs[0][0]) == cs[1][0])
  }

  lemma ChoiceWhen(cs: Clauses)
    ensures ByChoice(cs) <==>
            [] !in cs && |cs| > 1 && !(|cs| == 2 && |cs[0]| == |cs[1]| == 1 && Inverted(cs[0][0]) == cs[1][0])
  {}

  /** What comes of a single clause: its tests, each once; or the test of the empty name. */
  predicate OneReduced(c: Clause, now: Clauses, ok: bool, defines: seq<string>) {
    && (ok <==> Satisfiable(c) || "" in defines)
    && (ok ==> |now| == 1 && if Satisfiable(c) then SameElements(now[0], c) else Define("", false) in now[0])
  }

  /** What comes of a list that is reduced without choosing: nothing is left unless it is one clause
      with a test. */
  predicate AtOnce(was: Clauses, now: Clauses, ok: bool, defines: seq<string>) {
    if |was| != 1 || was[0] == [] then ok && now == [] else OneReduced(was[0], now, ok, defines)
  }

  /** What reduce promises of its outcome. */
  ghost predicate Reduced(was: Clauses, now: Clauses, ok: bool, defines: seq<string>) {
    && (ok && SameMeaning(now, was, defines) <==> Fine(was))
    && (Fine(was) ==> forall c | c in now :: PrimeClause(c, was, defines))
    && (ok ==> Sorted(now, BySize(defines)))
    && (ok ==> forall c | c in now :: NamesKnown(c, defines) && InNameOrder(c, defines))
  }

  lemma NothingLeft(was: Clauses, defines: seq<string>)
    requires |was| != 1 || [] in was
    ensures AtOnce(was, [], true, defines)
  {}

  lemma OneLeft(was: Clauses, now: Clauses, ok: bool, defines: seq<string>)
    requires |was| == 1 && [] !in was && OneReduced(was[0], now, ok, defines)
    ensures AtOnce(was, now, ok, defines)
  {
    assert was[0] in was;
  }

  lemma EmptyClause(cs: Clauses, defines: seq<string>)
    requires [] in cs
    ensures Reduced(cs, [], true, defines)
  {
    assert Satisfiable([]);
    forall i: Bits ensures AnyHolds(cs, i, defines) { assert Holds([], i, defines); }
  }

  lemma NoClause(defines: seq<string>)
    ensures Reduced([], [], true, defines)
  {}

  lemma Complementary(cs: Clauses, defines: seq<string>)
    requires |cs| == 2 && |cs[0]| == |cs[1]| == 1 && Inverted(cs[0][0]) == cs[1][0]
    ensures Reduced(cs, [], true, defines)
  {
    assert cs[0] in cs && cs[1] in cs && Satisfiable(cs[0]);
    forall i: Bits ensures AnyHolds(cs, i, defines) { assert Holds(cs[0], i, defines) || Holds(cs[1], i, defines); }
  }

  lemma OneClause(c: Clause, r: Clause, ok: bool, defines: seq<string>)
    requires NamesKnown(c, defines) && NamesKnown(r, defines) && Satisfiable(r) && NamesOnce(r)
    requires (ok <==> Satisfiable(c) || "" in defines) && (Satisfiable(c) ==> SameElements(r, c))
    requires ok && !Satisfiable(c) ==> Define("", false) in r
    ensures OneReduced(c, if ok then [Sort(r, ByName(defines))] else [c], ok, defines)
    ensures Reduced([c], if ok then [Sort(r, ByName(defines))] else [c], ok, defines)
  {
    hide Satisfiable, Holds, PrimeClause, Sorted, NamesKnown, Sort, NamesOnce, InNameOrder;
    var s := Sort(r, ByName(defines));
    SortedInOrder(r, defines);
    forall d ensures d in s <==> d in r { SortElements(r, ByName(defines), d); }
    SingletonSorted(s, defines);
    StillFine(r, s, defines);
    assert Fine([c]) <==> Satisfiable(c) by { assert c in [c]; }
    if Satisfiable(c) {
      AloneIsPrimeClause(s, c, defines);
      forall i ensures Means([s], i, defines) <==> Means([c], i, defines) {
        HoldsSame(s, c, i, defines);
        OneMeans(s, i, defines);
        OneMeans(c, i, defines);
      }
    } else {
      var w := Witness(s, defines);
      WitnessHolds(s, defines);
      ContradictionFails(c, w, defines);
      OneMeans(s, w, defines);
      OneMeans(c, w, defines);
    }
  }

  lemma SingletonSorted(s: Clause, defines: seq<string>)
    ensures Sorted([s], BySize(defines))
  {}

  lemma StillFine(r: Clause, s: Clause, defines: seq<string>)
    requires SameElements(r, s) && Satisfiable(r) && NamesKnown(r, defines)
    ensures Satisfiable(s) && NamesKnown(s, defines)
  {}

  lemma OneMeans(c: Clause, i: Bits, defines: seq<string>)
    ensures Means([c], i, defines) <==> Holds(c, i, defines)
  {
    assert c in [c];
  }

  lemma MinimisedReduces(cs: Clauses, r: Clauses, defines: seq<string>)
    requires cs != [] && Minimised(r, cs, defines) && (r == [] <==> OnSet(cs, defines) == {})
    requires Sorted(r, BySize(defines))
    requires forall c | c in cs :: NamesKnown(c, defines)
    ensures Reduced(cs, r, true, defines)
  {
    hide AnyHolds, PrimeClause, Sorted, OnSet, NamesKnown, Satisfiable;
    OnSetInhabited(cs, defines);
    if r == [] {
      OnSetIs(cs, defines, {});
      assert {} <= Names(|defines|);
      assert Means(r, {}, defines) && !Means(cs, {}, defines);
    }
  }

  /** In terms of the names: two lists that mean the same allow the same sets of names. */
  lemma SameByName(a: Clauses, b: Clauses, env: string -> bool, defines: seq<string>)
    requires SameMeaning(a, b, defines)
    requires (forall c | c in a :: NamesKnown(c, defines)) && (forall c | c in b :: NamesKnown(c, defines))
    ensures HoldsFor(a, env) <==> HoldsFor(b, env)
  {
    MeansByName(a, env, defines);
    MeansByName(b, env, defines);
    assert Defined(env, defines) <= Names(|defines|);
  }
}
