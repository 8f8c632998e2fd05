/** A list of three clauses that Clauses.reduce turns into five (rebuild_wrappers.py): six
    assignments in a ring, any two neighbours of which have a prime implicant in common. */
module GrownList {
  import opened Conditions
  import opened Implicants
  import opened PrimeSearch
  import opened ClauseMeaning
  import opened Sorting
  import opened ClauseReducer
  import opened GreedyChoice

  const NAMES := ["a", "b", "c"]

  /** !a && !c, or a && b, or !b && c. */
  const THREE: Clauses := [[Define("a", true), Define("c", true)],
                           [Define("a", false), Define("b", false)],
                           [Define("b", true), Define("c", false)]]

  /** The assignments that it asks for: all but two. */
  predicate IsL(l: seq<Imp>) {
    && |l| == 6 && l[0] == Imp({}, {}) && l[1] == Imp({1}, {}) && l[2] == Imp({0, 1}, {})
    && l[3] == Imp({2}, {}) && l[4] == Imp({0, 2}, {}) && l[5] == Imp({0, 1, 2}, {})
  }

  function SixOf<T>(a: T, b: T, c: T, d: T, e: T, f: T): seq<T> { [a] + ([b] + ([c] + ([d] + ([e] + ([f] + []))))) }

  lemma IndexThree()
    ensures Index(NAMES, "a") == 0 && Index(NAMES, "b") == 1 && Index(NAMES, "c") == 2 && NamesDistinct(NAMES)
  {
    assert NAMES[0] == "a" && NAMES[1] == "b" && NAMES[2] == "c" && "a"[0] != "b"[0] && "b"[0] != "c"[0];
    assert "a"[0] != "c"[0];
    IndexOf(NAMES, 0);
    IndexOf(NAMES, 1);
    IndexOf(NAMES, 2);
  }

  lemma ThreeHolds(i: Bits)
    ensures AnyHolds(THREE, i, NAMES) <==> (0 !in i && 2 !in i) || (0 in i && 1 in i) || (1 !in i && 2 in i)
  {
    IndexThree();
    forall c | c in THREE ensures c == THREE[0] || c == THREE[1] || c == THREE[2] {}
    assert THREE[0] in THREE && THREE[1] in THREE && THREE[2] in THREE;
    TwoHold(THREE[0][0], THREE[0][1], i);
    TwoHold(THREE[1][0], THREE[1][1], i);
    TwoHold(THREE[2][0], THREE[2][1], i);
  }

  lemma TwoHold(d: Define, e: Define, i: Bits)
    ensures Holds([d, e], i, NAMES) <==> Lit(d, i, NAMES) && Lit(e, i, NAMES)
  {
    hide Lit;
    assert [d, e][0] == d && [d, e][1] == e;
  }

  predicate IsAll(all: seq<Bits>) {
    && |all| == 8 && all[0] == {} && all[1] == {0} && all[2] == {1} && all[3] == {0, 1}
    && all[4] == {2} && all[5] == {0, 2} && all[6] == {1, 2} && all[7] == {0, 1, 2}
  }

  lemma AssignmentsThree()
    ensures IsAll(Assignments(3))
  {
    var none: Bits := {};
    assert Assignments(0) == [none];
    assert Assignments(1) == [none, {0}] by { AddBitTo([none], 0, [{0}]); }
    assert Assignments(2) == [none, {0}, {1}, {0, 1}] by { AddBitTo([none, {0}], 1, [{1}, {0, 1}]); }
    AddBitTo([none, {0}, {1}, {0, 1}], 2, [{2}, {0, 2}, {1, 2}, {0, 1, 2}]);
  }

  lemma AddBitTo(low: seq<Bits>, b: nat, r: seq<Bits>)
    requires |r| == |low| && forall k | 0 <= k < |low| :: r[k] == low[k] + {b}
    ensures AddBit(low, b) == r
  {}

  predicate Asked(i: Bits) { (0 !in i && 2 !in i) || (0 in i && 1 in i) || (1 !in i && 2 in i) }

  /** From the assignments behind the first k on to those behind one less. */
  lemma SelectOne(all: seq<Bits>, k: nat, r: seq<Imp>)
    requires k < |all| && Select(all[k + 1..], THREE, NAMES) == r
    ensures Select(all[k..], THREE, NAMES) == if Asked(all[k]) then [Imp(all[k], {})] + r else r
  {
    hide AnyHolds;
    ThreeHolds(all[k]);
    assert all[k..][1..] == all[k + 1..];
  }

  lemma NeededUpper(all: seq<Bits>)
    requires |all| == 8 && all[4] == {2} && all[5] == {0, 2} && all[6] == {1, 2} && all[7] == {0, 1, 2}
    ensures Select(all[4..], THREE, NAMES) == [Imp(all[4], {})] + ([Imp(all[5], {})] + ([Imp(all[7], {})] + []))
  {
    hide Select, Asked;
    AskedThree();
    SelectNone(all);
    SelectOne(all, 7, []);
    SelectOne(all, 6, [Imp(all[7], {})] + []);
    SelectOne(all, 5, [Imp(all[7], {})] + []);
    SelectOne(all, 4, [Imp(all[5], {})] + ([Imp(all[7], {})] + []));
  }

  lemma NeededLower(all: seq<Bits>, r: seq<Imp>)
    requires |all| == 8 && all[0] == {} && all[1] == {0} && all[2] == {1} && all[3] == {0, 1}
    requires Select(all[4..], THREE, NAMES) == r
    ensures Select(all[0..], THREE, NAMES) == [Imp(all[0], {})] + ([Imp(all[2], {})] + ([Imp(all[3], {})] + r))
  {
    hide Select, Asked;
    AskedThree();
    SelectOne(all, 3, r);
    SelectOne(all, 2, [Imp(all[3], {})] + r);
    SelectOne(all, 1, [Imp(all[2], {})] + ([Imp(all[3], {})] + r));
    SelectOne(all, 0, [Imp(all[2], {})] + ([Imp(all[3], {})] + r));
  }

  lemma NeededSix(all: seq<Bits>)
    requires IsAll(all)
    ensures Select(all, THREE, NAMES) ==
            SixOf(Imp(all[0], {}), Imp(all[2], {}), Imp(all[3], {}), Imp(all[4], {}), Imp(all[5], {}), Imp(all[7], {}))
  {
    hide Select;
    NeededUpper(all);
    NeededLower(all, Select(all[4..], THREE, NAMES));
    assert all[0..] == all;
  }

  lemma SixIsL(all: seq<Bits>)
    requires IsAll(all)
    ensures IsL(SixOf(Imp(all[0], {}), Imp(all[2], {}), Imp(all[3], {}), Imp(all[4], {}), Imp(all[5], {}),
        Imp(all[7], {})))
  {}

  lemma NeededThree()
    ensures IsL(Needed(THREE, NAMES))
  {
    hide Select, Assignments, IsL, SixOf;
    AssignmentsThree();
    NeededSix(Assignments(3));
    SixIsL(Assignments(3));
  }

  lemma AskedThree()
    ensures Asked({}) && !Asked({0}) && Asked({1}) && Asked({0, 1}) && Asked({2}) && Asked({0, 2}) && !Asked({1, 2})
    ensures Asked({0, 1, 2})
  {}

  lemma SelectNone(all: seq<Bits>)
    requires |all| == 8
    ensures Select(all[8..], THREE, NAMES) == []
  {}

  // ---- Its prime implicants, in the order in which they are found

  /** The attempt l[t - 1] finds a partner at x. */
  predicate Paired(l: seq<Imp>, x: nat, t: nat)
    requires x < t <= |l|
  {
    Pair(l[x], l[t - 1])
  }

  /** Six elements in a ring: which of them combine with a later attempt. */
  predicate Ring(l: seq<Imp>) {
    && |l| == 6 && Paired(l, 0, 2) && Paired(l, 0, 4) && Paired(l, 1, 3) && Paired(l, 3, 5) && Paired(l, 2, 6)
    && Paired(l, 4, 6) && !Paired(l, 0, 3) && !Paired(l, 0, 5) && !Paired(l, 0, 6) && !Paired(l, 1, 4)
    && !Paired(l, 1, 5) && !Paired(l, 1, 6) && !Paired(l, 2, 4) && !Paired(l, 2, 5) && !Paired(l, 3, 6)
  }

  function RingMerges(l: seq<Imp>): seq<Imp>
    requires |l| == 6
  {
    [Merge(l[2], l[5]), Merge(l[4], l[5]), Merge(l[3], l[4]), Merge(l[0], l[3]), Merge(l[1], l[2]), Merge(l[0], l[1])]
  }

  lemma {:induction false} Skips(l: seq<Imp>, t: nat, idx: nat, to: nat, acc: seq<Imp>)
    requires idx <= to < t <= |l| && forall x | idx <= x < to :: !Paired(l, x, t)
    ensures AttemptMerges(l, t, idx, acc) == AttemptMerges(l, t, to, acc)
    decreases t - idx
  {
    hide Pair;
    if idx == to {
    } else {
      assert !Paired(l, idx, t);
      Skips(l, t, idx + 1, to, acc);
    }
  }

  lemma AttemptNone(l: seq<Imp>, t: nat, acc: seq<Imp>)
    requires 0 < t <= |l| && forall x | 0 <= x < t - 1 :: !Paired(l, x, t)
    ensures AttemptMerges(l, t, 0, acc) == acc
  {
    hide Paired, AttemptMerges;
    Skips(l, t, 0, t - 1, acc);
    AttemptDone(l, t, acc);
  }

  lemma Combine(l: seq<Imp>, t: nat, x: nat, acc: seq<Imp>)
    requires x < t - 1 && t <= |l| && Paired(l, x, t) && Merge(l[x], l[t - 1]) !in acc
    ensures AttemptMerges(l, t, x, acc) == AttemptMerges(l, t, x + 1, acc + [Merge(l[x], l[t - 1])])
  {
    hide Pair, Merge;
  }

  lemma AttemptDone(l: seq<Imp>, t: nat, acc: seq<Imp>)
    requires 0 < t <= |l|
    ensures AttemptMerges(l, t, t - 1, acc) == acc
  {}

  /** The attempt has one partner, at x. */
  lemma AttemptOne(l: seq<Imp>, t: nat, x: nat, acc: seq<Imp>)
    requires x < t - 1 && t <= |l| && forall y | 0 <= y < t - 1 :: Paired(l, y, t) <==> y == x
    requires Merge(l[x], l[t - 1]) !in acc
    ensures AttemptMerges(l, t, 0, acc) == acc + [Merge(l[x], l[t - 1])]
  {
    hide Paired, Merge, AttemptMerges;
    Skips(l, t, 0, x, acc);
    Combine(l, t, x, acc);
    Skips(l, t, x + 1, t - 1, acc + [Merge(l[x], l[t - 1])]);
    AttemptDone(l, t, acc + [Merge(l[x], l[t - 1])]);
  }

  /** It has two. */
  lemma AttemptTwo(l: seq<Imp>, t: nat, x: nat, y: nat, acc: seq<Imp>)
    requires x < y < t - 1 && t <= |l| && forall z | 0 <= z < t - 1 :: Paired(l, z, t) <==> z == x || z == y
    requires Merge(l[x], l[t - 1]) !in acc && Merge(l[y], l[t - 1]) !in acc + [Merge(l[x], l[t - 1])]
    ensures AttemptMerges(l, t, 0, acc) == acc + [Merge(l[x], l[t - 1])] + [Merge(l[y], l[t - 1])]
  {
    hide Paired, Merge, AttemptMerges;
    var more := acc + [Merge(l[x], l[t - 1])];
    Skips(l, t, 0, x, acc);
    Combine(l, t, x, acc);
    Skips(l, t, x + 1, y, more);
    Combine(l, t, y, more);
    Skips(l, t, y + 1, t - 1, more + [Merge(l[y], l[t - 1])]);
    AttemptDone(l, t, more + [Merge(l[y], l[t - 1])]);
  }

  lemma Prefix(m: seq<Imp>, k: nat)
    requires Distinct(m) && k < |m|
    ensures m[k] !in m[..k] && m[..k + 1] == m[..k] + [m[k]]
  {}

  lemma LevelStep(l: seq<Imp>, t: nat, acc: seq<Imp>, next: seq<Imp>)
    requires 0 < t <= |l| && AttemptMerges(l, t, 0, acc) == next
    ensures LevelMerges(l, t, acc) == LevelMerges(l, t - 1, next)
  {
    hide AttemptMerges;
  }

  lemma LevelEnd(l: seq<Imp>, acc: seq<Imp>)
    ensures LevelMerges(l, 0, acc) == acc
  {}

  lemma RingMerged(l: seq<Imp>)
    requires Ring(l) && Distinct(RingMerges(l))
    ensures LevelMerges(l, 6, []) == RingMerges(l)
  {
    hide Paired, Merge, AttemptMerges, LevelMerges, Distinct;
    var m := RingMerges(l);
    forall k | 0 <= k < 6 ensures m[k] !in m[..k] && m[..k + 1] == m[..k] + [m[k]] { Prefix(m, k); }
    assert m[..1] == m[..0] + [m[0]] && m[1] !in m[..1];
    AttemptTwo(l, 6, 2, 4, m[..0]);
    LevelStep(l, 6, [], m[..2]);
    AttemptOne(l, 5, 3, m[..2]);
    LevelStep(l, 5, m[..2], m[..3]);
    AttemptOne(l, 4, 0, m[..3]);
    LevelStep(l, 4, m[..3], m[..4]);
    AttemptOne(l, 3, 1, m[..4]);
    LevelStep(l, 3, m[..4], m[..5]);
    AttemptOne(l, 2, 0, m[..5]);
    LevelStep(l, 2, m[..5], m[..6]);
    AttemptNone(l, 1, m[..6]);
    LevelStep(l, 1, m[..6], m[..6]);
    LevelEnd(l, m[..6]);
  }

  lemma Near(i: Bits, b: nat)
    requires b !in i
    ensures Pair(Imp(i, {}), Imp(i + {b}, {})) && Merge(Imp(i, {}), Imp(i + {b}, {})) == Imp(i + {b}, {b})
  {
    assert Xor(i, i + {b}) == {b} && i + (i + {b}) == i + {b};
  }

  /** Two bits in which p and q differ. */
  lemma Far(p: Imp, q: Imp, a: nat, b: nat)
    requires a != b && (a in p.v <==> a !in q.v) && (b in p.v <==> b !in q.v)
    ensures !Pair(p, q)
  {
    var x := Xor(p.v, q.v);
    var d := {a, b};
    assert d <= x;
    if |x| <= 1 { Fits(d, x); }
  }

  lemma Fits(d: Bits, x: Bits)
    requires d <= x
    ensures |d| <= |x|
  {
    assert x == d + (x - d);
  }

  lemma NearThree()
    ensures var none: Bits := {};
            && {1} == none + {1} && {2} == none + {2} && {0, 1} == {1} + {0} && {0, 2} == {2} + {0}
            && {0, 1, 2} == {0, 1} + {2} && {0, 1, 2} == {0, 2} + {1}
  {}

  lemma LPairs(l: seq<Imp>)
    requires IsL(l)
    ensures Paired(l, 0, 2) && Paired(l, 0, 4) && Paired(l, 1, 3) && Paired(l, 3, 5) && Paired(l, 2, 6)
    ensures Paired(l, 4, 6)
    ensures |RingMerges(l)| == 6 && IsK(RingMerges(l))
  {
    hide Pair, Merge;
    NearThree();
    Near({}, 1);
    Near({}, 2);
    Near({1}, 0);
    Near({2}, 0);
    Near({0, 1}, 2);
    Near({0, 2}, 1);
  }

  /** The implicants of two assignments each, as they are found. */
  predicate IsK(l: seq<Imp>) {
    && |l| == 6 && l[0] == Imp({0, 1, 2}, {2}) && l[1] == Imp({0, 1, 2}, {1}) && l[2] == Imp({0, 2}, {0})
    && l[3] == Imp({2}, {2}) && l[4] == Imp({0, 1}, {0}) && l[5] == Imp({1}, {1})
  }

  lemma LIsRing(l: seq<Imp>)
    requires IsL(l)
    ensures Ring(l)
  {
    hide Pair;
    LPairs(l);
    Far(l[0], l[2], 0, 1);
    Far(l[0], l[4], 0, 2);
    Far(l[0], l[5], 0, 1);
    Far(l[1], l[3], 1, 2);
    Far(l[1], l[4], 1, 0);
    Far(l[1], l[5], 0, 2);
    Far(l[2], l[3], 0, 1);
    Far(l[2], l[4], 1, 2);
    Far(l[3], l[5], 0, 1);
  }

  lemma KIsApart(l: seq<Imp>)
    requires IsK(l)
    ensures Distinct(l) && forall x, y | 0 <= x < y < 6 :: !Pair(l[x], l[y])
  {
    Far(l[0], l[3], 0, 1);
    Far(l[1], l[5], 0, 2);
    Far(l[2], l[4], 1, 2);
    forall x, y | 0 <= x < y < 6 ensures l[x] != l[y] && !Pair(l[x], l[y]) {
      assert 0 in l[2].m && 0 in l[4].m && 1 in l[1].m && 1 in l[5].m && 2 in l[0].m && 2 in l[3].m;
      assert 0 in l[0].v && 0 !in l[3].v && 0 in l[1].v && 0 !in l[5].v && 1 in l[4].v && 1 !in l[2].v;
    }
  }

  lemma {:induction false} NoMerges(l: seq<Imp>, t: nat, acc: seq<Imp>)
    requires t <= |l| && forall x, y | 0 <= x < y < |l| :: !Pair(l[x], l[y])
    ensures LevelMerges(l, t, acc) == acc
  {
    hide Pair, AttemptMerges;
    if t == 0 {
    } else {
      AttemptNone(l, t, acc);
      NoMerges(l, t - 1, acc);
    }
  }

  lemma {:induction false} NoAside(l: seq<Imp>, t: nat, acc: seq<Imp>)
    requires t <= |l| && forall x | 0 <= x < |l| :: Seen(l, 0, x)
    ensures LevelAside(l, t, acc) == acc
  {
    hide Seen;
    if t == 0 {
    } else {
      NoAside(l, t - 1, acc);
    }
  }

  function Backwards(l: seq<Imp>): (r: seq<Imp>)
    ensures |r| == |l| && forall k | 0 <= k < |l| :: r[k] == l[|l| - 1 - k]
  {
    if l == [] then [] else [l[|l| - 1]] + Backwards(l[..|l| - 1])
  }

  /** When nothing combines all is put aside, from the end on. */
  lemma {:induction false} AllAside(l: seq<Imp>, t: nat, acc: seq<Imp>)
    requires t <= |l| && forall x | 0 <= x < |l| :: !Seen(l, 0, x)
    ensures LevelAside(l, t, acc) == acc + Backwards(l[..t])
  {
    hide Seen;
    if t == 0 {
    } else {
      AllAside(l, t - 1, acc + [l[t - 1]]);
      assert l[..t][..t - 1] == l[..t - 1];
      assert acc + [l[t - 1]] + Backwards(l[..t - 1]) == acc + ([l[t - 1]] + Backwards(l[..t - 1]));
    }
  }

  lemma PairSeen(l: seq<Imp>, x: nat, y: nat)
    requires x < y < |l| && Pair(l[x], l[y])
    ensures Seen(l, 0, x) && Seen(l, 0, y)
  {
    hide Pair;
    assert PairAt(l, x, y);
    PairSymmetric(l, x, y);
  }

  lemma RingSeen(l: seq<Imp>)
    requires Ring(l)
    ensures forall x | 0 <= x < 6 :: Seen(l, 0, x)
  {
    hide Pair, Seen;
    PairSeen(l, 0, 1);
    PairSeen(l, 2, 5);
    PairSeen(l, 3, 4);
  }

  lemma ApartUnseen(l: seq<Imp>)
    requires forall x, y | 0 <= x < y < |l| :: !Pair(l[x], l[y])
    ensures forall x | 0 <= x < |l| :: !Seen(l, 0, x)
  {
    hide Pair;
    forall x | 0 <= x < |l| ensures !Seen(l, 0, x) {
      forall y ensures !PairAt(l, x, y) { PairSymmetric(l, x, y); }
    }
  }

  /** The prime implicants of the input, in the order in which they are found. */
  lemma PrimesThree(l: seq<Imp>) returns (k: seq<Imp>)
    requires IsL(l)
    ensures IsK(k) && Uncombined(l, 4, []) == Backwards(k)
  {
    hide Pair, Seen, LevelMerges, LevelAside, IsL, Ring, RingMerges, IsK, Distinct;
    LIsRing(l);
    RingSize(l);
    LPairs(l);
    k := RingMerges(l);
    KIsApart(k);
    RingMerged(l);
    RingSeen(l);
    NoAside(l, 6, []);
    NoMerges(k, 6, []);
    ApartUnseen(k);
    AllAside(k, 6, []);
    assert k[..6] == k;
    assert Uncombined(l, 4, []) == Uncombined(k, 3, []) == Uncombined([], 2, LevelAside(k, 6, []));
  }

  lemma RingSize(l: seq<Imp>)
    requires Ring(l)
    ensures |l| == 6
  {}

  // ---- And which of them are chosen

  lemma CoversTwo(lo: Bits, b: nat, i: Bits)
    requires b !in lo
    ensures Covers(Imp(lo + {b}, {b}), i) <==> i == lo || i == lo + {b}
  {
    if b in i && Covers(Imp(lo + {b}, {b}), i) { assert i == i + {b}; }
    if b !in i && Covers(Imp(lo + {b}, {b}), i) { assert i == (i + {b}) - {b} == (lo + {b}) - {b} == lo; }
  }

  lemma {:induction false} CoveringNone(primes: seq<Imp>, i: Bits)
    requires forall k | 0 <= k < |primes| :: !Covers(primes[k], i)
    ensures Covering(primes, i) == []
  {
    hide Covers;
    if primes == [] {
    } else {
      CoveringNone(primes[1..], i);
    }
  }

  lemma {:induction false} CoveringOne(primes: seq<Imp>, i: Bits, x: nat)
    requires x < |primes| && forall k | 0 <= k < |primes| :: Covers(primes[k], i) <==> k == x
    ensures Covering(primes, i) == [primes[x]]
  {
    hide Covers;
    if x == 0 {
      CoveringNone(primes[1..], i);
    } else {
      CoveringOne(primes[1..], i, x - 1);
    }
  }

  lemma {:induction false} CoveringTwo(primes: seq<Imp>, i: Bits, x: nat, y: nat)
    requires x < y < |primes| && forall k | 0 <= k < |primes| :: Covers(primes[k], i) <==> k == x || k == y
    ensures Covering(primes, i) == [primes[x], primes[y]]
  {
    hide Covers;
    if x == 0 {
      CoveringOne(primes[1..], i, y - 1);
    } else {
      CoveringTwo(primes[1..], i, x - 1, y - 1);
    }
  }

  /** Which prime implicants cover which assignments: a ring again. */
  predicate Round(l: seq<Imp>, p: seq<Imp>) {
    && |l| == |p| == 6 && Distinct(p)
    && Covering(p, l[0].v) == [p[0], p[2]] && Covering(p, l[1].v) == [p[0], p[1]]
    && Covering(p, l[2].v) == [p[1], p[5]] && Covering(p, l[3].v) == [p[2], p[3]]
    && Covering(p, l[4].v) == [p[3], p[4]] && Covering(p, l[5].v) == [p[4], p[5]]
  }

  lemma CoverTable(l: seq<Imp>, k: seq<Imp>, p: seq<Imp>)
    requires IsL(l) && IsK(k) && p == Backwards(k)
    ensures forall x | 0 <= x < 6 ::
        && (Covers(p[0], l[x].v) <==> x == 0 || x == 1) && (Covers(p[1], l[x].v) <==> x == 1 || x == 2)
        && (Covers(p[2], l[x].v) <==> x == 0 || x == 3) && (Covers(p[3], l[x].v) <==> x == 3 || x == 4)
        && (Covers(p[4], l[x].v) <==> x == 4 || x == 5) && (Covers(p[5], l[x].v) <==> x == 2 || x == 5)
  {
    hide Covers;
    NearThree();
    LDiffer(l);
    forall x | 0 <= x < 6
      ensures
        && (Covers(p[0], l[x].v) <==> x == 0 || x == 1) && (Covers(p[1], l[x].v) <==> x == 1 || x == 2)
        && (Covers(p[2], l[x].v) <==> x == 0 || x == 3) && (Covers(p[3], l[x].v) <==> x == 3 || x == 4)
        && (Covers(p[4], l[x].v) <==> x == 4 || x == 5) && (Covers(p[5], l[x].v) <==> x == 2 || x == 5)
    {
      CoversTwo({}, 1, l[x].v);
      CoversTwo({1}, 0, l[x].v);
      CoversTwo({}, 2, l[x].v);
      CoversTwo({2}, 0, l[x].v);
      CoversTwo({0, 2}, 1, l[x].v);
      CoversTwo({0, 1}, 2, l[x].v);
    }
  }

  lemma LDiffer(l: seq<Imp>)
    requires IsL(l)
    ensures forall x, y | 0 <= x < y < 6 :: l[x].v != l[y].v
  {}

  lemma RoundLow(l: seq<Imp>, k: seq<Imp>, p: seq<Imp>)
    requires |l| == |p| == 6 && IsL(l) && IsK(k) && p == Backwards(k)
    ensures Covering(p, l[0].v) == [p[0], p[2]] && Covering(p, l[1].v) == [p[0], p[1]]
    ensures Covering(p, l[2].v) == [p[1], p[5]]
  {
    hide Covers, IsL, IsK, Covering, Backwards;
    CoverTable(l, k, p);
    CoveringTwo(p, l[0].v, 0, 2);
    CoveringTwo(p, l[1].v, 0, 1);
    CoveringTwo(p, l[2].v, 1, 5);
  }

  lemma RoundHigh(l: seq<Imp>, k: seq<Imp>, p: seq<Imp>)
    requires |l| == |p| == 6 && IsL(l) && IsK(k) && p == Backwards(k)
    ensures Covering(p, l[3].v) == [p[2], p[3]] && Covering(p, l[4].v) == [p[3], p[4]]
    ensures Covering(p, l[5].v) == [p[4], p[5]]
  {
    hide Covers, IsL, IsK, Covering, Backwards;
    CoverTable(l, k, p);
    CoveringTwo(p, l[3].v, 2, 3);
    CoveringTwo(p, l[4].v, 3, 4);
    CoveringTwo(p, l[5].v, 4, 5);
  }

  lemma InRound(l: seq<Imp>, k: seq<Imp>, p: seq<Imp>)
    requires IsL(l) && IsK(k) && p == Backwards(k)
    ensures Round(l, p)
  {
    hide IsL, IsK, Covering;
    LKSize(l, k);
    KIsApart(k);
    RoundLow(l, k, p);
    RoundHigh(l, k, p);
  }

  lemma LKSize(l: seq<Imp>, k: seq<Imp>)
    requires IsL(l) && IsK(k)
    ensures |l| == |k| == 6
  {}

  lemma {:induction false} EraseFront(ms: seq<Match>, p: Imp, n: nat)
    requires n <= |ms| && forall k | 0 <= k < |ms| :: p in ms[k].list <==> k < n
    ensures Erase(ms, p) == ms[n..]
  {
    if ms == [] {
    } else {
      EraseFront(ms[1..], p, if n == 0 then 0 else n - 1);
    }
  }

  /** With the same number to choose from everywhere, the first item chooses. */
  lemma PickHead(ms: seq<Match>)
    requires ms != [] && forall k | 0 <= k < |ms| :: |ms[k].list| == 2
    ensures var p := ms[0].list[0]; Picks(ms) == [p] + Picks(Erase(ms, p))
  {
    hide Erase;
  }

  lemma PickFront(ms: seq<Match>, from: nat, n: nat)
    requires from < n <= |ms| && forall k | 0 <= k < |ms| :: |ms[k].list| == 2
    requires forall k | from <= k < |ms| :: ms[from].list[0] in ms[k].list <==> k < n
    ensures Picks(ms[from..]) == [ms[from].list[0]] + Picks(ms[n..])
  {
    hide Erase, Picks;
    var rest := ms[from..];
    PickHead(rest);
    EraseFront(rest, rest[0].list[0], n - from);
    assert rest[n - from..] == ms[n..];
  }

  lemma RoundPicks(l: seq<Imp>, p: seq<Imp>)
    requires Round(l, p)
    ensures Picks(Matches(l, p)) == [p[0]] + ([p[1]] + ([p[2]] + ([p[3]] + ([p[4]] + []))))
  {
    hide Covering, Picks, Matches;
    var ms := Matches(l, p);
    assert |ms| == 6 && ms[0..] == ms;
    PickFront(ms, 0, 2);
    PickFront(ms, 2, 3);
    PicksEnd(ms, p);
  }

  lemma PicksEnd(ms: seq<Match>, p: seq<Imp>)
    requires |ms| == |p| == 6 && Distinct(p) && forall k | 0 <= k < 6 :: |ms[k].list| == 2
    requires ms[3].list == [p[2], p[3]] && ms[4].list == [p[3], p[4]] && ms[5].list == [p[4], p[5]]
    ensures Picks(ms[3..]) == [p[2]] + ([p[3]] + ([p[4]] + []))
  {
    hide Picks;
    PickFront(ms, 3, 4);
    PickFront(ms, 4, 5);
    PickFront(ms, 5, 6);
    assert ms[6..] == [];
    PicksNone();
  }

  lemma ChosenThree()
    ensures |Chosen(THREE, NAMES)| == 5 && Spare(OnSet(THREE, NAMES), Chosen(THREE, NAMES), 0)
  {
    assert |NAMES| + 1 == 4;
    hide *;
    var l := Needed(THREE, NAMES);
    NeededThree();
    var k := PrimesThree(l);
    InRound(l, k, Backwards(k));
    RoundPicks(l, Backwards(k));
    ChosenIs(THREE, NAMES, l, Backwards(k));
    FirstIsSpare(OnSet(THREE, NAMES), k, Chosen(THREE, NAMES));
  }

  /** The other two that cover the two assignments of the first. */
  lemma FirstIsSpare(f: set<Bits>, k: seq<Imp>, chosen: seq<Imp>)
    requires IsK(k) && |chosen| == 5 && chosen[0] == k[5] && chosen[1] == k[4] && chosen[2] == k[3]
    ensures Spare(f, chosen, 0)
  {
    var none: Bits := {};
    assert none + {1} == {1} && none + {2} == {2} && {1} + {0} == {0, 1};
    forall i | i in f && Covers(chosen[0], i) ensures OtherCovers(chosen, 0, i) {
      CoversTwo(none, 1, i);
      CoversTwo(none, 2, i);
      CoversTwo({1}, 0, i);
      assert Covers(chosen[1], i) || Covers(chosen[2], i);
    }
  }

  lemma ThreeKnown()
    ensures ByChoice(THREE) && NamesDistinct(NAMES) && Fine(THREE) && forall c | c in THREE :: NamesKnown(c, NAMES)
  {
    IndexThree();
    assert Satisfiable(THREE[0]) && THREE[0] in THREE;
  }

  lemma Outcome(r: Clauses, ok: bool)
    requires Reduced(THREE, r, ok, NAMES) && r == Sort(AsClauses(Chosen(THREE, NAMES), NAMES), BySize(NAMES))
    ensures |r| == 5 && SameMeaning(r, THREE, NAMES)
  {
    hide Chosen, AsClauses, Sort, SameMeaning, Fine, Sorted, PrimeClause;
    ChosenThree();
    ThreeKnown();
    var all := AsClauses(Chosen(THREE, NAMES), NAMES);
    SortSorts(all, BySize(NAMES));
    assert |multiset(r)| == |multiset(all)|;
  }

  /** Three clauses come out as five of the same meaning, and one of the five could go. */
  method GrowsAList() returns (l: ClauseList, ghost chosen: seq<Imp>)
    ensures fresh(l) && |l.clauses| == 5 > |THREE| && SameMeaning(l.clauses, THREE, NAMES)
    ensures |chosen| == 5 && l.clauses == Sort(AsClauses(chosen, NAMES), BySize(NAMES))
    ensures SameMeaning(Without(AsClauses(chosen, NAMES), 0), THREE, NAMES)
  {
    assert |THREE| == 3;
    hide *;
    l := new ClauseList(THREE);
    ThreeKnown();
    var ok := l.Reduce(NAMES);
    Outcome(l.clauses, ok);
    chosen := Chosen(THREE, NAMES);
    ChosenThree();
    SpareCanGo(THREE, NAMES, 0);
  }
}
