/** Implicants and how they combine: the theory behind Clauses.reduce (rebuild_wrappers.py).
    A word of bits is the set of its bits; an implicant is a pair of words, its mask being part
    of its value, as the program keeps them. */
module Implicants {

  type Bits = set<nat>

  /** The assignments i with i | m == v. */
  datatype Imp = Imp(v: Bits, m: Bits)

  ghost function Names(n: nat): (s: Bits)
    ensures |s| == n && forall j: nat :: j in s <==> j < n
  {
    if n == 0 then {} else Names(n - 1) + {n - 1}
  }

  predicate Covers(p: Imp, i: Bits) { i + p.m == p.v }

  /** Every assignment that p covers is in the on-set f. */
  ghost predicate Implicant(f: set<Bits>, n: nat, p: Imp) {
    p.m <= p.v <= Names(n) && forall i | i <= Names(n) && Covers(p, i) :: i in f
  }

  /** No literal of p can be dropped. */
  ghost predicate Prime(f: set<Bits>, n: nat, p: Imp) {
    Implicant(f, n, p) && forall b | b in Names(n) && b !in p.m :: !Implicant(f, n, Widened(p, b))
  }

  function Widened(p: Imp, b: nat): Imp { Imp(p.v + {b}, p.m + {b}) }

  /** x ^ y */
  function Xor(x: Bits, y: Bits): Bits { (x - y) + (y - x) }

  /** The two are compared in the combining loop and differ in at most one bit. */
  predicate Pair(p: Imp, q: Imp) { p.m == q.m && |Xor(p.v, q.v)| <= 1 }

  function Merge(p: Imp, q: Imp): Imp { Imp(p.v + q.v, p.m + Xor(p.v, q.v)) }

  lemma XorEmpty(x: Bits, y: Bits)
    ensures Xor(x, y) == {} ==> x == y
  {
    if Xor(x, y) == {} {
      assert forall b :: b in x <==> b in y by { assert forall b :: b !in Xor(x, y); }
    }
  }

  lemma OneBit(p: Imp, q: Imp) returns (b: nat)
    requires p != q && Pair(p, q) && p.m <= p.v && q.m <= q.v
    ensures Xor(p.v, q.v) == {b} && b !in p.m
    ensures Merge(p, q) == Widened(p, b) == Widened(q, b)
    ensures Merge(p, q) == Merge(q, p)
  {
    var x := Xor(p.v, q.v);
    XorEmpty(p.v, q.v);
    b :| b in x;
    assert x == {b} by { Singleton(x, b); }
    assert p.v + q.v == p.v + {b} == q.v + {b};
    assert Xor(q.v, p.v) == x && q.v + p.v == p.v + q.v;
  }

  lemma Singleton(x: Bits, b: nat)
    requires b in x && |x| <= 1
    ensures x == {b}
  {
    assert |x - {b}| == |x| - 1;
    assert x == {b} + (x - {b});
  }

  /** Two implicants that differ in one bit combine to an implicant. */
  lemma MergeIsImplicant(f: set<Bits>, n: nat, p: Imp, q: Imp)
    requires p != q && Pair(p, q) && Implicant(f, n, p) && Implicant(f, n, q)
    ensures Implicant(f, n, Merge(p, q)) && |Merge(p, q).m| == |p.m| + 1
    ensures exists b | b in Names(n) && b !in p.m :: Merge(p, q) == Widened(p, b)
  {
    var b := OneBit(p, q);
    var r := Merge(p, q);
    assert b in Names(n);
    forall i | i <= Names(n) && Covers(r, i) ensures i in f {
      Half(p, q, b, i);
    }
  }

  lemma Half(p: Imp, q: Imp, b: nat, i: Bits)
    requires p.m == q.m && b !in p.m && Xor(p.v, q.v) == {b} && Covers(Widened(p, b), i)
    ensures Covers(p, i) || Covers(q, i)
  {
    assert b in p.v <==> b !in q.v by { assert b in Xor(p.v, q.v); }
    assert forall x | x != b :: x in p.v <==> x in q.v by { assert forall x | x != b :: x !in Xor(p.v, q.v); }
    assert forall x :: x in i + (p.m + {b}) <==> x in p.v + {b};
    if (b in i) == (b in p.v) {
      assert forall x :: x in i + p.m <==> x in p.v;
    } else {
      assert forall x :: x in i + q.m <==> x in q.v;
    }
  }

  /** The other half of an implicant that can be widened in bit b. */
  function Partner(p: Imp, b: nat): Imp { Imp(Xor(p.v, {b}), p.m) }

  lemma Flip(v: Bits, b: nat)
    ensures var w := Xor(v, {b}); Xor(v, w) == {b} && v + w == v + {b} && w + {b} == v + {b} && w != v
  {
    var w := Xor(v, {b});
    assert b in v <==> b !in w;
  }

  lemma PartnerMerges(f: set<Bits>, n: nat, p: Imp, b: nat)
    requires Implicant(f, n, p) && b in Names(n) && b !in p.m && Implicant(f, n, Widened(p, b))
    ensures var q := Partner(p, b); Implicant(f, n, q) && q != p && Pair(p, q) && Merge(p, q) == Widened(p, b)
  {
    var q := Partner(p, b);
    Flip(p.v, b);
    assert q.v <= Names(n) && q.m <= q.v;
    hide Xor, Names;
    forall i | i <= Names(n) && Covers(q, i) ensures i in f {
      assert i + (p.m + {b}) == (i + q.m) + {b};
      assert Covers(Widened(p, b), i);
    }
  }

  /** An implicant with a bit in its mask comes from one with that bit fixed. */
  lemma Narrowed(f: set<Bits>, n: nat, r: Imp, b: nat)
    requires Implicant(f, n, r) && b in r.m
    ensures var p := Imp(r.v, r.m - {b}); Implicant(f, n, p) && Widened(p, b) == r && |p.m| == |r.m| - 1
  {
    var p := Imp(r.v, r.m - {b});
    assert p.v + {b} == r.v && p.m + {b} == r.m;
    forall i | i <= Names(n) && Covers(p, i) ensures i in f {
      assert i + r.m == (i + p.m) + {b} == r.v;
      assert Covers(r, i);
    }
  }

  lemma MaskSize(f: set<Bits>, n: nat, p: Imp)
    requires Implicant(f, n, p)
    ensures |p.m| <= n
  {
    SubsetSize(p.m, Names(n));
  }

  lemma SubsetSize(a: Bits, b: Bits)
    requires a <= b
    ensures |a| <= |b|
  {
    assert b == a + (b - a);
  }

  /** A wider implicant over p lets p be widened in one bit. */
  lemma {:induction false} WidensByOne(f: set<Bits>, n: nat, p: Imp, r: Imp) returns (b: nat)
    requires p.m <= p.v && Implicant(f, n, r) && p.m < r.m && r.v == p.v + r.m
    ensures b in Names(n) && b !in p.m && Implicant(f, n, Widened(p, b))
    decreases |r.m|
  {
    assert r.m == p.m + (r.m - p.m);
    b :| b in r.m - p.m;
    var rest := r.m - p.m - {b};
    if rest == {} {
      assert r.m == p.m + {b} && r.v == p.v + {b};
    } else {
      var c :| c in rest;
      Narrowed(f, n, r, c);
      var s := Imp(r.v, r.m - {c});
      if c in p.v {
        b := WidensByOne(f, n, p, s);
      } else {
        OtherHalf(f, n, r, c);
        b := WidensByOne(f, n, p, Imp(r.v - {c}, r.m - {c}));
      }
    }
  }

  lemma OtherHalf(f: set<Bits>, n: nat, r: Imp, c: nat)
    requires Implicant(f, n, r) && c in r.m
    ensures Implicant(f, n, Imp(r.v - {c}, r.m - {c}))
  {
    var p := Imp(r.v - {c}, r.m - {c});
    forall i | i <= Names(n) && Covers(p, i) ensures i in f {
      assert i + r.m == (i + p.m) + {c} == r.v;
      assert Covers(r, i);
    }
  }

  /** A prime implicant is covered by no other implicant. */
  lemma PrimeIsMaximal(f: set<Bits>, n: nat, p: Imp, r: Imp)
    requires Implicant(f, n, p) && Implicant(f, n, r) && p.m <= r.m && r.v == p.v + r.m
    ensures Prime(f, n, p) ==> r == p
  {
    if p.m < r.m {
      var b := WidensByOne(f, n, p, r);
    } else {
      assert r.v == p.v;
    }
  }
}
