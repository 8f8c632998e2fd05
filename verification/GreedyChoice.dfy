/** How few clauses Clauses.reduce leaves (rebuild_wrappers.py): no list with the same meaning has
    fewer when every choice is forced. */
module GreedyChoice {
  import opened Conditions
  import opened Implicants
  import opened PrimeSearch
  import opened ClauseMeaning
  import opened Sorting
  import opened ClauseReducer

  // ---- Which of the clauses can go

  function Without<T(!new)>(s: seq<T>, k: nat): (r: seq<T>)
    requires k < |s|
    ensures forall x :: x in r <==> exists j :: 0 <= j < |s| && j != k && s[j] == x
  {
    var r := s[..k] + s[k + 1..];
    assert forall j | 0 <= j < |s| && j != k :: s[j] == r[if j < k then j else j - 1];
    r
  }

  /** One of the others covers i. */
  ghost predicate OtherCovers(chosen: seq<Imp>, k: nat, i: Bits) {
    exists j :: 0 <= j < |chosen| && j != k && Covers(chosen[j], i)
  }

  /** The others cover what this one covers. */
  ghost predicate Spare(f: set<Bits>, chosen: seq<Imp>, k: nat)
    requires k < |chosen|
  {
    forall i | i in f && Covers(chosen[k], i) :: OtherCovers(chosen, k, i)
  }

  /** A clause of the outcome can be left out exactly when the others cover what it covers. */
  lemma SpareCanGo(cs: Clauses, defines: seq<string>, k: nat)
    requires NamesDistinct(defines) && ChosenWell(cs, defines) && cs != [] && k < |Chosen(cs, defines)|
    requires |Chosen(cs, defines)| > 1
    ensures var chosen := Chosen(cs, defines);
            SameMeaning(Without(AsClauses(chosen, defines), k), cs, defines) <==> Spare(OnSet(cs, defines), chosen, k)
  {
    hide AnyHolds, Covers, OnSet, Chosen, ChosenWell, Prime, Without, AsClauses, OtherCovers;
    var f, chosen := OnSet(cs, defines), Chosen(cs, defines);
    var rest := Without(AsClauses(chosen, defines), k);
    assert AsClauses(chosen, defines)[if k == 0 then 1 else 0] in rest;
    forall i | i <= Names(|defines|)
      ensures Means(rest, i, defines) <==> OtherCovers(chosen, k, i)
      ensures Means(cs, i, defines) <==> i in f
      ensures i in f <==> Covers(chosen[k], i) || OtherCovers(chosen, k, i)
    {
      RestMeans(cs, defines, k, i);
      OnSetIs(cs, defines, i);
    }
    forall i | i in f ensures i <= Names(|defines|) { OnSetIs(cs, defines, i); }
  }

  lemma RestMeans(cs: Clauses, defines: seq<string>, k: nat, i: Bits)
    requires NamesDistinct(defines) && ChosenWell(cs, defines) && k < |Chosen(cs, defines)| && i <= Names(|defines|)
    ensures var chosen := Chosen(cs, defines);
            && (AnyHolds(Without(AsClauses(chosen, defines), k), i, defines) <==> OtherCovers(chosen, k, i))
            && (i in OnSet(cs, defines) <==> Covers(chosen[k], i) || OtherCovers(chosen, k, i))
  {
    hide Holds, Covers, OnSet, SortedTests, Chosen, Prime, Without, AsClauses, Uncombined, Needed;
    var chosen := Chosen(cs, defines);
    var all := AsClauses(chosen, defines);
    var rest := Without(all, k);
    forall j | 0 <= j < |chosen|
      ensures Holds(all[j], i, defines) <==> Covers(chosen[j], i)
      ensures Covers(chosen[j], i) ==> i in OnSet(cs, defines)
    {
      SortedTestsFacts(chosen[j], cs, defines);
      if Covers(chosen[j], i) { PrimeCovers(OnSet(cs, defines), |defines|, chosen[j], i); }
    }
    if OtherCovers(chosen, k, i) {
      var j :| 0 <= j < |chosen| && j != k && Covers(chosen[j], i);
      assert all[j] in rest;
    }
    if i in OnSet(cs, defines) {
      var p :| p in chosen && Covers(p, i);
      var j :| 0 <= j < |chosen| && chosen[j] == p;
    }
  }

  lemma PrimeCovers(f: set<Bits>, n: nat, p: Imp, i: Bits)
    requires Prime(f, n, p) && i <= Names(n) && Covers(p, i)
    ensures i in f
  {}

  // ---- Forced choices

  /** Every item has to choose from a prime implicant that is all that some item has. */
  ghost predicate Forced(ms: seq<Match>) {
    forall m | m in ms :: exists p | p in m.list :: Sole(ms, p)
  }

  ghost predicate Sole(ms: seq<Match>, p: Imp) {
    exists e | e in ms :: e.list == [p]
  }

  lemma SoleItem(ms: seq<Match>, p: Imp) returns (e: Match)
    requires Sole(ms, p)
    ensures e in ms && e.list == [p]
  {
    e :| e in ms && e.list == [p];
  }

  lemma SoleBy(ms: seq<Match>, m: Match, p: Imp)
    requires m in ms && m.list == [p]
    ensures Sole(ms, p)
  {}

  lemma ForcedFirst(ms: seq<Match>) returns (p: Imp)
    requires Forced(ms) && ms != [] && forall m | m in ms :: m.list != []
    ensures ms[FirstLeast(ms)].list == [p]
  {
    hide Sole;
    assert ms[0] in ms;
    var q :| q in ms[0].list && Sole(ms, q);
    var e := SoleItem(ms, q);
    var k := FirstLeast(ms);
    assert ms[k] in ms;
    p := ms[k].list[0];
  }

  lemma ForcedStays(ms: seq<Match>, p: Imp)
    requires Forced(ms)
    ensures Forced(Erase(ms, p))
    ensures forall q | Sole(Erase(ms, p), q) :: Sole(ms, q) && q != p
  {
    hide Sole, Erase;
    var rest := Erase(ms, p);
    forall m | m in rest ensures exists q | q in m.list :: Sole(rest, q) {
      var q :| q in m.list && Sole(ms, q);
      var e := SoleItem(ms, q);
      SoleBy(rest, e, q);
    }
    forall q | Sole(rest, q) ensures Sole(ms, q) && q != p {
      var e := SoleItem(rest, q);
      SoleBy(ms, e, q);
    }
  }

  /** Then only such prime implicants are chosen, each once. */
  lemma {:induction false} ForcedPicks(ms: seq<Match>)
    requires Forced(ms) && forall m | m in ms :: m.list != []
    ensures Distinct(Picks(ms)) && forall p | p in Picks(ms) :: Sole(ms, p)
    decreases |ms|
  {
    hide Forced, FirstLeast, Sole, Erase;
    if ms == [] {
    } else {
      var p := ForcedFirst(ms);
      var m := ms[FirstLeast(ms)];
      assert m in ms && p in m.list;
      assert Sole(ms, p) by { SoleBy(ms, m, p); }
      ForcedStays(ms, p);
      ForcedPicks(Erase(ms, p));
      assert Picks(ms) == [p] + Picks(Erase(ms, p));
    }
  }

  // ---- Other lists with the same meaning

  /** The narrowest implicant that covers both. */
  function Between(x: Bits, y: Bits): Imp { Imp(x + y, Xor(x, y)) }

  lemma BetweenCovers(x: Bits, y: Bits)
    ensures Covers(Between(x, y), x) && Covers(Between(x, y), y)
    ensures Between(x, y).m <= Between(x, y).v
  {
    assert x + Xor(x, y) == x + y == y + Xor(x, y);
  }

  /** A clause that holds under two assignments holds under all between them. */
  lemma HoldsBetween(c: Clause, x: Bits, y: Bits, i: Bits, defines: seq<string>)
    requires Holds(c, x, defines) && Holds(c, y, defines) && Covers(Between(x, y), i)
    ensures Holds(c, i, defines)
  {
    forall d | d in c ensures Lit(d, i, defines) {
      var j := Index(defines, d.name);
      assert Lit(d, x, defines) && Lit(d, y, defines);
      assert j !in Xor(x, y) && (j in i + Xor(x, y) <==> j in x + y);
    }
  }

  /** The one prime implicant that covers i. */
  ghost predicate OnlyPrime(f: set<Bits>, n: nat, i: Bits, p: Imp) {
    i in f && i <= Names(n) && forall r | Prime(f, n, r) && Covers(r, i) :: r == p
  }

  /** A clause that means no more than f does not hold under two assignments that have one prime
      implicant each, unless it is the same one. */
  lemma OneEach(f: set<Bits>, c: Clause, x: Bits, y: Bits, p: Imp, q: Imp, defines: seq<string>)
    requires Holds(c, x, defines) && Holds(c, y, defines)
    requires forall i | i <= Names(|defines|) && Holds(c, i, defines) :: i in f
    requires OnlyPrime(f, |defines|, x, p) && OnlyPrime(f, |defines|, y, q)
    ensures p == q
  {
    hide Holds, Prime;
    var n, b := |defines|, Between(x, y);
    BetweenCovers(x, y);
    forall i | i <= Names(n) && Covers(b, i) ensures i in f { HoldsBetween(c, x, y, i, defines); }
    var r := GrowBoth(f, n, b, x, y);
  }

  lemma {:induction false} GrowBoth(f: set<Bits>, n: nat, p: Imp, x: Bits, y: Bits) returns (r: Imp)
    requires Implicant(f, n, p) && Covers(p, x) && Covers(p, y)
    ensures Prime(f, n, r) && Covers(r, x) && Covers(r, y)
    decreases n - |p.m|
  {
    hide Implicant;
    MaskSize(f, n, p);
    if Prime(f, n, p) {
      r := p;
    } else {
      var b :| b in Names(n) && b !in p.m && Implicant(f, n, Widened(p, b));
      assert x + (p.m + {b}) == (x + p.m) + {b} && y + (p.m + {b}) == (y + p.m) + {b};
      MaskSize(f, n, Widened(p, b));
      r := GrowBoth(f, n, Widened(p, b), x, y);
    }
  }

  /** As many different clauses as there are such assignments. */
  lemma {:induction false} AtLeast(f: set<Bits>, other: Clauses, chosen: seq<Imp>, keys: seq<Bits>,
                                   defines: seq<string>)
    returns (used: set<Clause>)
    requires |keys| == |chosen| && Distinct(chosen)
    requires forall k | 0 <= k < |keys| :: OnlyPrime(f, |defines|, keys[k], chosen[k])
    requires forall i | i <= Names(|defines|) :: AnyHolds(other, i, defines) <==> i in f
    ensures |used| == |chosen|
    ensures forall c | c in used :: c in other && exists k :: 0 <= k < |keys| && Holds(c, keys[k], defines)
  {
    hide Holds, OnlyPrime;
    if keys == [] {
      used := {};
    } else {
      var n := |keys| - 1;
      var front, last := keys[..n], keys[n];
      used := AtLeast(f, other, chosen[..n], front, defines);
      var c := ClauseAt(f, other, last, chosen[n], defines);
      forall d | d in used ensures d != c {
        var k :| 0 <= k < n && Holds(d, front[k], defines);
        if d == c { OneEach(f, c, front[k], last, chosen[k], chosen[n], defines); }
      }
      assert Holds(c, keys[n], defines);
      forall d | d in used ensures exists k :: 0 <= k < |keys| && Holds(d, keys[k], defines) {
        var k :| 0 <= k < n && Holds(d, front[k], defines);
        assert front[k] == keys[k];
      }
      used := used + {c};
    }
  }

  lemma ClauseAt(f: set<Bits>, other: Clauses, i: Bits, p: Imp, defines: seq<string>) returns (c: Clause)
    requires OnlyPrime(f, |defines|, i, p)
    requires forall j | j <= Names(|defines|) :: AnyHolds(other, j, defines) <==> j in f
    ensures c in other && Holds(c, i, defines)
    ensures forall j | j <= Names(|defines|) && Holds(c, j, defines) :: j in f
  {
    hide Holds;
    assert AnyHolds(other, i, defines);
    c :| c in other && Holds(c, i, defines);
    forall j | j <= Names(|defines|) && Holds(c, j, defines) ensures j in f { assert AnyHolds(other, j, defines); }
  }

  lemma {:induction false} ElementsFit<T>(used: set<T>, s: seq<T>)
    requires forall x | x in used :: x in s
    ensures |used| <= |s|
  {
    if s == [] {
      assert used == {};
    } else {
      ElementsFit(used - {s[0]}, s[1..]);
    }
  }

  /** What the choice is made from. */
  ghost function Items(cs: Clauses, defines: seq<string>): seq<Match> {
    Matches(Needed(cs, defines), Uncombined(Needed(cs, defines), |defines| + 1, []))
  }

  ghost function KeyOf(ms: seq<Match>, p: Imp): (i: Bits)
    requires Sole(ms, p)
    ensures exists e :: e in ms && e.list == [p] && e.key == i
  {
    var e :| e in ms && e.list == [p];
    e.key
  }

  lemma KeyItem(ms: seq<Match>, p: Imp) returns (e: Match)
    requires Sole(ms, p)
    ensures e in ms && e.list == [p] && e.key == KeyOf(ms, p)
  {
    e :| e in ms && e.list == [p] && e.key == KeyOf(ms, p);
  }

  lemma ItemsAre(cs: Clauses, defines: seq<string>)
    requires ChosenWell(cs, defines)
    ensures Chosen(cs, defines) == Picks(Items(cs, defines))
    ensures forall m | m in Items(cs, defines) :: m.list != [] && m.key in OnSet(cs, defines)
  {
    hide OnSet, Prime, Needed, Uncombined, Picks, Matches;
    MatchesStart(cs, defines, Uncombined(Needed(cs, defines), |defines| + 1, []));
  }

  lemma InItem(cs: Clauses, defines: seq<string>, m: Match, p: Imp)
    requires ChosenWell(cs, defines) && m in Items(cs, defines)
    ensures p in m.list <==> Prime(OnSet(cs, defines), |defines|, p) && Covers(p, m.key)
  {
    hide OnSet, Prime, Needed, Uncombined, Chosen, Covers, Matches;
    MatchesStart(cs, defines, Uncombined(Needed(cs, defines), |defines| + 1, []));
  }

  lemma OnlyBy(f: set<Bits>, n: nat, i: Bits, p: Imp, list: seq<Imp>)
    requires i in f && i <= Names(n) && list == [p] && forall r :: r in list <==> Prime(f, n, r) && Covers(r, i)
    ensures OnlyPrime(f, n, i, p)
  {
    hide Prime, Covers;
  }

  lemma KeyIsOnly(cs: Clauses, defines: seq<string>, p: Imp)
    requires ChosenWell(cs, defines) && Sole(Items(cs, defines), p)
    ensures OnlyPrime(OnSet(cs, defines), |defines|, KeyOf(Items(cs, defines), p), p)
  {
    hide *;
    ItemsAre(cs, defines);
    var e := KeyItem(Items(cs, defines), p);
    OnSetIs(cs, defines, e.key);
    var f, n := OnSet(cs, defines), |defines|;
    forall r ensures r in e.list <==> Prime(f, n, r) && Covers(r, e.key) { InItem(cs, defines, e, r); }
    OnlyBy(f, n, e.key, p, e.list);
  }

  lemma OtherMeans(cs: Clauses, other: Clauses, i: Bits, defines: seq<string>)
    requires cs != [] && other != [] && SameMeaning(other, cs, defines) && i <= Names(|defines|)
    ensures AnyHolds(other, i, defines) <==> i in OnSet(cs, defines)
  {
    hide AnyHolds, OnSet;
    OnSetIs(cs, defines, i);
  }

  /** When every choice is forced, no list with the same meaning has fewer clauses, except for the
      empty one, which stands for "always". */
  lemma LeastWhenForced(cs: Clauses, defines: seq<string>, other: Clauses)
    requires ChosenWell(cs, defines) && Forced(Items(cs, defines))
    requires cs != [] && other != [] && SameMeaning(other, cs, defines)
    ensures |Chosen(cs, defines)| <= |other|
  {
    hide *;
    var f, n, ms, chosen := OnSet(cs, defines), |defines|, Items(cs, defines), Chosen(cs, defines);
    ItemsAre(cs, defines);
    ForcedPicks(ms);
    var keys := seq(|chosen|, k requires 0 <= k < |chosen| => KeyOf(ms, chosen[k]));
    forall k | 0 <= k < |keys| ensures OnlyPrime(f, n, keys[k], chosen[k]) { KeyIsOnly(cs, defines, chosen[k]); }
    forall i | i <= Names(n) ensures AnyHolds(other, i, defines) <==> i in f { OtherMeans(cs, other, i, defines); }
    var used := AtLeast(f, other, chosen, keys, defines);
    ElementsFit(used, other);
  }
}
