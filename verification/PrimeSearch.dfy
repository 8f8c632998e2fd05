/** The combining loops of Clauses.reduce (rebuild_wrappers.py): they keep, level by level,
    exactly the implicants with that many free variables, and collect exactly the primes. */
module PrimeSearch {
  import opened Implicants

  predicate Distinct(l: seq<Imp>) {
    forall i, j | 0 <= i < j < |l| :: l[i] != l[j]
  }

  /** l lists the implicants with k free variables, each once. */
  ghost predicate LevelOK(f: set<Bits>, n: nat, k: nat, l: seq<Imp>) {
    Distinct(l) && forall p :: p in l <==> Implicant(f, n, p) && |p.m| == k
  }

  predicate PairAt(l: seq<Imp>, x: int, y: int) {
    0 <= x < |l| && 0 <= y < |l| && x != y && Pair(l[x], l[y])
  }

  /** Some pair with x in it has been looked at, those from t on having been attempts. */
  ghost predicate Seen(l: seq<Imp>, t: int, x: int) {
    exists y :: PairAt(l, x, y) && (x >= t || y >= t)
  }

  ghost predicate MergedFrom(l: seq<Imp>, t: int, p: Imp) {
    exists x, y :: PairAt(l, x, y) && x < y && y >= t && p == Merge(l[x], l[y])
  }

  ghost predicate Alone(l: seq<Imp>, t: int, p: Imp) {
    exists x :: 0 <= t <= x < |l| && l[x] == p && !Seen(l, 0, x)
  }

  /** What the loop over the attempts keeps. */
  ghost predicate Combining(l: seq<Imp>, t: int, combinable: seq<bool>, combined: seq<Imp>) {
    && 0 <= t <= |l| == |combinable| && Distinct(combined)
    && (forall x | 0 <= x < |l| :: combinable[x] <==> Seen(l, t, x))
    && (forall p :: p in combined <==> MergedFrom(l, t, p))
  }

  /** The same inside one attempt, against the first idx of the others. */
  ghost predicate Attempting(l: seq<Imp>, t: int, idx: int, combinable: seq<bool>, combined: seq<Imp>) {
    && 0 <= idx < t <= |l| == |combinable| && Distinct(combined)
    && (forall x | 0 <= x < |l| :: combinable[x] <==> Seen(l, t, x) || SeenNow(l, t, idx, x))
    && (forall p :: p in combined <==> MergedFrom(l, t, p) || MergedNow(l, t, idx, p))
  }

  ghost predicate SeenNow(l: seq<Imp>, t: int, idx: int, x: int) {
    (x < idx && PairAt(l, x, t - 1)) || (x == t - 1 && exists y :: y < idx && PairAt(l, y, x))
  }

  ghost predicate MergedNow(l: seq<Imp>, t: int, idx: int, p: Imp) {
    exists x :: x < idx && PairAt(l, x, t - 1) && p == Merge(l[x], l[t - 1])
  }

  // ---- In which order the elements come

  /** The attempt l[t - 1] is combined with the elements from idx on. */
  function AttemptMerges(l: seq<Imp>, t: nat, idx: nat, combined: seq<Imp>): seq<Imp>
    requires idx < t <= |l|
    decreases t - idx
  {
    if idx == t - 1 then combined
    else AttemptMerges(l, t, idx + 1, OneMerge(l[idx], l[t - 1], combined))
  }

  function OneMerge(p: Imp, q: Imp, combined: seq<Imp>): seq<Imp> {
    if Pair(p, q) && Merge(p, q) !in combined then combined + [Merge(p, q)] else combined
  }

  function LevelMerges(l: seq<Imp>, t: nat, combined: seq<Imp>): seq<Imp>
    requires t <= |l|
  {
    if t == 0 then combined else LevelMerges(l, t - 1, AttemptMerges(l, t, 0, combined))
  }

  ghost function LevelAside(l: seq<Imp>, t: nat, aside: seq<Imp>): seq<Imp>
    requires t <= |l|
  {
    if t == 0 then aside else LevelAside(l, t - 1, if Seen(l, 0, t - 1) then aside else aside + [l[t - 1]])
  }

  /** What is put aside in so many rounds. */
  ghost function Uncombined(l: seq<Imp>, rounds: nat, aside: seq<Imp>): seq<Imp>
    decreases rounds
  {
    if rounds == 0 || l == [] then aside
    else Uncombined(LevelMerges(l, |l|, []), rounds - 1, LevelAside(l, |l|, aside))
  }

  // ---- The loops

  lemma PairSymmetric(l: seq<Imp>, x: int, y: int)
    ensures PairAt(l, x, y) <==> PairAt(l, y, x)
  {
    if PairAt(l, x, y) || PairAt(l, y, x) { assert Xor(l[x].v, l[y].v) == Xor(l[y].v, l[x].v); }
  }

  lemma AttemptStarts(l: seq<Imp>, t: int, combinable: seq<bool>, combined: seq<Imp>)
    requires Combining(l, t, combinable, combined) && t > 0
    ensures Attempting(l, t, 0, combinable, combined)
  {}

  lemma AttemptEnds(l: seq<Imp>, t: int, combinable: seq<bool>, combined: seq<Imp>)
    requires Attempting(l, t, t - 1, combinable, combined)
    ensures Combining(l, t - 1, combinable, combined)
  {
    forall x | 0 <= x < |l| ensures combinable[x] <==> Seen(l, t - 1, x) { SeenMore(l, t, x); }
    forall p ensures p in combined <==> MergedFrom(l, t - 1, p) { MergedMore(l, t, p); }
  }

  lemma SeenMore(l: seq<Imp>, t: int, x: int)
    requires 0 < t <= |l| && 0 <= x < |l|
    ensures Seen(l, t - 1, x) <==> Seen(l, t, x) || SeenNow(l, t, t - 1, x)
  {
    if Seen(l, t - 1, x) {
      var y :| PairAt(l, x, y) && (x >= t - 1 || y >= t - 1);
      PairSymmetric(l, x, y);
    }
    if SeenNow(l, t, t - 1, x) {
      if x == t - 1 {
        var y :| y < t - 1 && PairAt(l, y, x);
        PairSymmetric(l, x, y);
      }
    }
  }

  lemma MergedMore(l: seq<Imp>, t: int, p: Imp)
    requires 0 < t <= |l|
    ensures MergedFrom(l, t - 1, p) <==> MergedFrom(l, t, p) || MergedNow(l, t, t - 1, p)
  {}

  lemma SeenStep(l: seq<Imp>, t: int, idx: int, x: int)
    requires 0 <= idx < t - 1 && t <= |l| && 0 <= x < |l|
    ensures SeenNow(l, t, idx + 1, x) <==> SeenNow(l, t, idx, x) || (PairAt(l, idx, t - 1) && (x == idx || x == t - 1))
  {
    if PairAt(l, idx, t - 1) && x == t - 1 { assert idx < idx + 1 && PairAt(l, idx, x); }
  }

  /** One pass of the inner loop: the attempt against element idx. */
  method AttemptStep(l: seq<Imp>, t: nat, idx: nat, combinable0: seq<bool>, combined0: seq<Imp>)
    returns (combinable: seq<bool>, combined: seq<Imp>)
    requires Attempting(l, t, idx, combinable0, combined0) && idx < t - 1
    ensures Attempting(l, t, idx + 1, combinable, combined)
    ensures combined == OneMerge(l[idx], l[t - 1], combined0)
  {
    hide Seen, MergedFrom, SeenNow, MergedNow, Pair, Merge;
    combinable, combined := combinable0, combined0;
    var attempt := l[t - 1];
    forall x | 0 <= x < |l|
      ensures SeenNow(l, t, idx + 1, x) <==>
          SeenNow(l, t, idx, x) || (PairAt(l, idx, t - 1) && (x == idx || x == t - 1))
    {
      SeenStep(l, t, idx, x);
    }
    forall p
      ensures MergedNow(l, t, idx + 1, p) <==>
          MergedNow(l, t, idx, p) || (PairAt(l, idx, t - 1) && p == Merge(l[idx], l[t - 1]))
    {
      MergedStep(l, t, idx, p);
    }
    var together := Compared(l[idx], attempt);
    if together {
      combinable := combinable[idx := true];
      combinable := combinable[t - 1 := true];
      var add := Merge(l[idx], attempt);
      if add !in combined {
        combined := combined + [add];
      }
    }
  }

  lemma MergedStep(l: seq<Imp>, t: int, idx: int, p: Imp)
    requires 0 <= idx < t - 1 && t <= |l|
    ensures MergedNow(l, t, idx + 1, p) <==>
        MergedNow(l, t, idx, p) || (PairAt(l, idx, t - 1) && p == Merge(l[idx], l[t - 1]))
  {}

  /** Same mask, and not more than one bit of difference. */
  method Compared(p: Imp, q: Imp) returns (together: bool)
    ensures together <==> Pair(p, q)
  {
    together := false;
    if p.m == q.m {
      if |Xor(p.v, q.v)| > 1 {
        return false;
      }
      together := true;
    }
  }

  /** One attempt: the last of the first t elements against the others. */
  method Attempt(l: seq<Imp>, t: nat, combinable0: seq<bool>, combined0: seq<Imp>)
    returns (combinable: seq<bool>, combined: seq<Imp>)
    requires Combining(l, t, combinable0, combined0) && t > 0
    ensures Combining(l, t - 1, combinable, combined) && combined == AttemptMerges(l, t, 0, combined0)
  {
    hide Combining, Attempting, OneMerge;
    AttemptStarts(l, t, combinable0, combined0);
    combinable, combined := combinable0, combined0;
    var idx := 0;
    while idx < t - 1
      invariant 0 <= idx <= t - 1 && Attempting(l, t, idx, combinable, combined)
      invariant AttemptMerges(l, t, idx, combined) == AttemptMerges(l, t, 0, combined0)
    {
      combinable, combined := AttemptStep(l, t, idx, combinable, combined);
      idx := idx + 1;
    }
    AttemptEnds(l, t, combinable, combined);
  }

  /** Combines one level; what combines with nothing is put aside. */
  method CombineLevel(l: seq<Imp>, aside0: seq<Imp>) returns (combined: seq<Imp>, aside: seq<Imp>)
    ensures Distinct(combined) && forall p :: p in combined <==> MergedFrom(l, 0, p)
    ensures forall p :: p in aside <==> p in aside0 || Alone(l, 0, p)
    ensures combined == LevelMerges(l, |l|, []) && aside == LevelAside(l, |l|, aside0)
  {
    hide Seen, MergedFrom, Alone, AttemptMerges;
    var t := |l|;
    combined, aside := [], aside0;
    var combinable := seq(|l|, _ => false);
    CombiningStarts(l);
    AloneAll(l);
    while t > 0
      invariant 0 <= t <= |l| && Combining(l, t, combinable, combined)
      invariant forall p :: p in aside <==> p in aside0 || Alone(l, t, p)
      invariant LevelMerges(l, t, combined) == LevelMerges(l, |l|, [])
      invariant LevelAside(l, t, aside) == LevelAside(l, |l|, aside0)
    {
      combinable, combined := Attempt(l, t, combinable, combined);
      AllSeen(l, t);
      forall p ensures Alone(l, t - 1, p) <==> Alone(l, t, p) || (p == l[t - 1] && !Seen(l, 0, t - 1)) {
        AloneMore(l, t, p);
      }
      if !combinable[t - 1] {
        aside := aside + [l[t - 1]];
      }
      t := t - 1;
    }
  }

  lemma CombiningStarts(l: seq<Imp>)
    ensures Combining(l, |l|, seq(|l|, _ => false), [])
  {}

  lemma AloneAll(l: seq<Imp>)
    ensures forall p :: !Alone(l, |l|, p)
  {}

  lemma AloneMore(l: seq<Imp>, t: int, p: Imp)
    requires 0 < t <= |l|
    ensures Alone(l, t - 1, p) <==> Alone(l, t, p) || (p == l[t - 1] && !Seen(l, 0, t - 1))
  {
    hide Seen;
    if p == l[t - 1] && !Seen(l, 0, t - 1) { assert t - 1 <= t - 1 < |l| && l[t - 1] == p; }
  }

  /** When an element has been the attempt, it has been compared with all others. */
  lemma AllSeen(l: seq<Imp>, t: int)
    requires 0 < t <= |l|
    ensures Seen(l, t - 1, t - 1) <==> Seen(l, 0, t - 1)
  {
    if Seen(l, 0, t - 1) {
      var y :| PairAt(l, t - 1, y) && (t - 1 >= 0 || y >= 0);
      assert t - 1 >= t - 1;
    }
  }

  /** On level k, the merged implicants are exactly level k + 1. */
  lemma NextLevel(f: set<Bits>, n: nat, k: nat, l: seq<Imp>, r: Imp)
    requires LevelOK(f, n, k, l)
    ensures MergedFrom(l, 0, r) <==> Implicant(f, n, r) && |r.m| == k + 1
  {
    hide Pair, Merge, Implicant;
    if MergedFrom(l, 0, r) {
      var x, y :| PairAt(l, x, y) && x < y && y >= 0 && r == Merge(l[x], l[y]);
      assert l[x] in l && l[y] in l && l[x] != l[y];
      MergeIsImplicant(f, n, l[x], l[y]);
    }
    if Implicant(f, n, r) && |r.m| == k + 1 {
      var b :| b in r.m;
      Narrowed(f, n, r, b);
      var p := Imp(r.v, r.m - {b});
      NarrowedBits(f, n, r, b);
      PartnerMerges(f, n, p, b);
      var q := Partner(p, b);
      assert p in l && q in l;
      var x, y :| 0 <= x < |l| && 0 <= y < |l| && l[x] == p && l[y] == q;
      MergedEitherWay(l, x, y, r);
    }
  }

  lemma NarrowedBits(f: set<Bits>, n: nat, r: Imp, b: nat)
    requires Implicant(f, n, r) && b in r.m
    ensures b in Names(n)
  {}

  lemma MergedEitherWay(l: seq<Imp>, x: int, y: int, r: Imp)
    requires 0 <= x < |l| && 0 <= y < |l| && l[x] != l[y] && Pair(l[x], l[y]) && r == Merge(l[x], l[y])
    requires l[x].m <= l[x].v && l[y].m <= l[y].v
    ensures MergedFrom(l, 0, r)
  {
    PairSymmetric(l, x, y);
    var b := OneBit(l[x], l[y]);
    if x < y { assert PairAt(l, x, y); } else { assert PairAt(l, y, x); }
  }

  /** On level k, what combines with nothing is exactly the prime implicants. */
  lemma AloneIsPrime(f: set<Bits>, n: nat, k: nat, l: seq<Imp>, p: Imp)
    requires LevelOK(f, n, k, l)
    ensures Alone(l, 0, p) <==> Prime(f, n, p) && |p.m| == k
  {
    if p in l {
      var x :| 0 <= x < |l| && l[x] == p;
      SeenIsWider(f, n, k, l, x);
      if Alone(l, 0, p) {
        var z :| 0 <= z < |l| && l[z] == p && !Seen(l, 0, z);
        assert z == x;
      }
    }
  }

  lemma SeenIsWider(f: set<Bits>, n: nat, k: nat, l: seq<Imp>, x: int)
    requires LevelOK(f, n, k, l) && 0 <= x < |l|
    ensures Seen(l, 0, x) <==> !Prime(f, n, l[x])
  {
    hide Pair, Merge, Implicant;
    var p := l[x];
    assert p in l;
    if Seen(l, 0, x) {
      var y :| PairAt(l, x, y) && (x >= 0 || y >= 0);
      assert l[y] in l && l[y] != p;
      MergeIsImplicant(f, n, p, l[y]);
    }
    if !Prime(f, n, p) {
      var b :| b in Names(n) && b !in p.m && Implicant(f, n, Widened(p, b));
      PartnerMerges(f, n, p, b);
      assert Partner(p, b) in l;
      var y :| 0 <= y < |l| && l[y] == Partner(p, b);
      assert PairAt(l, x, y);
    }
  }

  /** No implicants with k free variables, none with more. */
  lemma {:induction false} NoneAbove(f: set<Bits>, n: nat, k: nat, p: Imp)
    requires forall q | Implicant(f, n, q) :: |q.m| != k
    ensures Implicant(f, n, p) ==> |p.m| < k
    decreases |p.m|
  {
    if !Implicant(f, n, p) || |p.m| <= k {
    } else {
      var b :| b in p.m;
      Narrowed(f, n, p, b);
      NoneAbove(f, n, k, Imp(p.v, p.m - {b}));
    }
  }

  /** From the single assignments to all prime implicants. */
  method FindPrimes(ghost f: set<Bits>, ghost n: nat, needed: seq<Imp>) returns (uncombinable: seq<Imp>)
    requires LevelOK(f, n, 0, needed)
    ensures forall p :: p in uncombinable <==> Prime(f, n, p)
    ensures uncombinable == Uncombined(needed, n + 1, [])
  {
    hide LevelOK, Alone, MergedFrom, Prime, LevelMerges, LevelAside;
    var lastCombined := needed;
    uncombinable := [];
    ghost var k := 0;
    while |lastCombined| > 0
      invariant LevelOK(f, n, k, lastCombined)
      invariant forall p :: p in uncombinable <==> Prime(f, n, p) && |p.m| < k
      invariant k <= n + 1 && Uncombined(lastCombined, n + 1 - k, uncombinable) == Uncombined(needed, n + 1, [])
      decreases n + 1 - k
    {
      LevelBound(f, n, k, lastCombined);
      var combined;
      combined, uncombinable := CombineLevel(lastCombined, uncombinable);
      forall p ensures Alone(lastCombined, 0, p) <==> Prime(f, n, p) && |p.m| == k {
        AloneIsPrime(f, n, k, lastCombined, p);
      }
      forall r ensures MergedFrom(lastCombined, 0, r) <==> Implicant(f, n, r) && |r.m| == k + 1 {
        NextLevel(f, n, k, lastCombined, r);
      }
      LevelFrom(f, n, k + 1, combined);
      lastCombined := combined;
      k := k + 1;
    }
    forall p ensures Prime(f, n, p) ==> |p.m| < k { LevelEmpty(f, n, k, lastCombined, p); }
  }

  lemma LevelBound(f: set<Bits>, n: nat, k: nat, l: seq<Imp>)
    requires LevelOK(f, n, k, l) && |l| > 0
    ensures k <= n
  {
    assert l[0] in l;
    MaskSize(f, n, l[0]);
  }

  lemma LevelFrom(f: set<Bits>, n: nat, k: nat, l: seq<Imp>)
    requires Distinct(l) && forall p :: p in l <==> Implicant(f, n, p) && |p.m| == k
    ensures LevelOK(f, n, k, l)
  {}

  lemma LevelEmpty(f: set<Bits>, n: nat, k: nat, l: seq<Imp>, p: Imp)
    requires LevelOK(f, n, k, l) && l == []
    ensures Prime(f, n, p) ==> |p.m| < k
  {
    forall q | Implicant(f, n, q) ensures |q.m| != k { assert q !in l; }
    NoneAbove(f, n, k, p);
  }
}
