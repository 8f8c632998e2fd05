/** list.sort with a key, as Clauses.reduce uses it: a stable sort. */
module Sorting {

  /** Keys are compared like Python's tuples and lists. */
  predicate LexLeq(a: seq<int>, b: seq<int>) {
    a == [] || (b != [] && (a[0] < b[0] || (a[0] == b[0] && LexLeq(a[1..], b[1..]))))
  }

  lemma {:induction false} LexTotal(a: seq<int>, b: seq<int>)
    ensures LexLeq(a, b) || LexLeq(b, a)
  {
    if a == [] || b == [] || a[0] != b[0] {
    } else {
      LexTotal(a[1..], b[1..]);
    }
  }

  /** The first difference decides; without one the shorter list comes first. */
  lemma {:induction false} LexMeans(a: seq<int>, b: seq<int>)
    ensures LexLeq(a, b) <==> a <= b || exists k :: FirstBelow(a, b, k)
  {
    if a == [] || b == [] || a[0] != b[0] {
      if a != [] && b != [] && a[0] < b[0] { assert FirstBelow(a, b, 0); }
      if k :| FirstBelow(a, b, k) { assert k > 0 ==> a[..k][0] == b[..k][0]; }
    } else {
      LexMeans(a[1..], b[1..]);
      assert a <= b <==> a[1..] <= b[1..] by { SamePrefix(a, b); }
      if k :| FirstBelow(a, b, k) { assert a[..k][1..] == a[1..][..k - 1] && b[..k][1..] == b[1..][..k - 1]; }
      if k :| FirstBelow(a, b, k) { assert FirstBelow(a[1..], b[1..], k - 1); }
      if k :| FirstBelow(a[1..], b[1..], k) {
        assert a[..k + 1] == [a[0]] + a[1..][..k] && b[..k + 1] == [b[0]] + b[1..][..k];
        assert FirstBelow(a, b, k + 1);
      }
    }
  }

  predicate FirstBelow(a: seq<int>, b: seq<int>, k: int) {
    0 <= k < |a| && k < |b| && a[..k] == b[..k] && a[k] < b[k]
  }

  lemma SamePrefix(a: seq<int>, b: seq<int>)
    requires a != [] && b != [] && a[0] == b[0]
    ensures a <= b <==> a[1..] <= b[1..]
  {
    if a[1..] <= b[1..] { assert forall i | 0 <= i < |a| :: i > 0 ==> a[i] == a[1..][i - 1] && b[i] == b[1..][i - 1]; }
  }

  lemma {:induction false} LexTransitive(a: seq<int>, b: seq<int>, c: seq<int>)
    requires LexLeq(a, b) && LexLeq(b, c)
    ensures LexLeq(a, c)
  {
    if a == [] || a[0] != b[0] || b[0] != c[0] {
    } else {
      LexTransitive(a[1..], b[1..], c[1..]);
    }
  }

  /** Behind everything that is not larger. */
  function Insert<T>(s: seq<T>, x: T, key: T -> seq<int>): seq<T> {
    if s == [] || LexLeq(key(s[|s| - 1]), key(x)) then s + [x] else Insert(s[..|s| - 1], x, key) + [s[|s| - 1]]
  }

  function Sort<T>(s: seq<T>, key: T -> seq<int>): seq<T> {
    if s == [] then [] else Insert(Sort(s[..|s| - 1], key), s[|s| - 1], key)
  }

  predicate Sorted<T>(s: seq<T>, key: T -> seq<int>) {
    forall i | 0 <= i < |s| - 1 :: LexLeq(key(s[i]), key(s[i + 1]))
  }

  lemma {:induction false} InsertKeeps<T>(s: seq<T>, x: T, key: T -> seq<int>)
    ensures multiset(Insert(s, x, key)) == multiset(s) + multiset{x} && |Insert(s, x, key)| == |s| + 1
    ensures var r := Insert(s, x, key); r[|s|] == x || (s != [] && r[|s|] == s[|s| - 1])
  {
    if s == [] || LexLeq(key(s[|s| - 1]), key(x)) {
    } else {
      var (front, last) := (s[..|s| - 1], s[|s| - 1]);
      assert s == front + [last];
      InsertKeeps(front, x, key);
    }
  }

  lemma SortedFront<T>(s: seq<T>, key: T -> seq<int>)
    requires s != [] && Sorted(s, key)
    ensures Sorted(s[..|s| - 1], key) && (|s| > 1 ==> LexLeq(key(s[|s| - 2]), key(s[|s| - 1])))
  {
    if |s| > 1 { assert LexLeq(key(s[|s| - 2]), key(s[(|s| - 2) + 1])); }
  }

  lemma SortedBehind<T>(s: seq<T>, x: T, key: T -> seq<int>)
    requires Sorted(s, key) && (s == [] || LexLeq(key(s[|s| - 1]), key(x)))
    ensures Sorted(s + [x], key)
  {}

  lemma {:induction false} InsertSorts<T>(s: seq<T>, x: T, key: T -> seq<int>)
    requires Sorted(s, key)
    ensures Sorted(Insert(s, x, key), key)
  {
    hide Sorted, LexLeq;
    if s == [] || LexLeq(key(s[|s| - 1]), key(x)) {
      SortedBehind(s, x, key);
    } else {
      var (front, last) := (s[..|s| - 1], s[|s| - 1]);
      LexTotal(key(last), key(x));
      SortedFront(s, key);
      InsertSorts(front, x, key);
      InsertKeeps(front, x, key);
      SortedBehind(Insert(front, x, key), last, key);
    }
  }

  /** The elements with key k, in their order. */
  function WithKey<T>(s: seq<T>, k: seq<int>, key: T -> seq<int>): seq<T> {
    if s == [] then [] else WithKey(s[..|s| - 1], k, key) + if key(s[|s| - 1]) == k then [s[|s| - 1]] else []
  }

  lemma {:induction false} LexReflexive(a: seq<int>)
    ensures LexLeq(a, a)
  {
    if a == [] {
    } else {
      LexReflexive(a[1..]);
    }
  }

  /** Insertion keeps the order of elements with the same key. */
  lemma {:induction false} InsertStable<T>(s: seq<T>, x: T, k: seq<int>, key: T -> seq<int>)
    ensures WithKey(Insert(s, x, key), k, key) == WithKey(s, k, key) + if key(x) == k then [x] else []
  {
    if s == [] || LexLeq(key(s[|s| - 1]), key(x)) {
      assert (s + [x])[..|s + [x]| - 1] == s;
    } else {
      var (front, last) := (s[..|s| - 1], s[|s| - 1]);
      LexReflexive(k);
      InsertStable(front, x, k, key);
      var r := Insert(front, x, key);
      assert (r + [last])[..|r + [last]| - 1] == r;
    }
  }

  /** Elements with the same key stay in their order. */
  lemma {:induction false} SortStable<T>(s: seq<T>, k: seq<int>, key: T -> seq<int>)
    ensures WithKey(Sort(s, key), k, key) == WithKey(s, k, key)
  {
    if s == [] {
    } else {
      SortStable(s[..|s| - 1], k, key);
      InsertStable(Sort(s[..|s| - 1], key), s[|s| - 1], k, key);
    }
  }

  /** A sorted permutation. */
  lemma {:induction false} SortSorts<T>(s: seq<T>, key: T -> seq<int>)
    ensures Sorted(Sort(s, key), key) && multiset(Sort(s, key)) == multiset(s)
  {
    if s == [] {
    } else {
      var (front, last) := (s[..|s| - 1], s[|s| - 1]);
      assert s == front + [last];
      SortSorts(front, key);
      InsertSorts(Sort(front, key), last, key);
      InsertKeeps(Sort(front, key), last, key);
    }
  }

  /** Not only neighbours are in order. */
  lemma {:induction false} SortedAll<T>(s: seq<T>, key: T -> seq<int>, i: nat, j: nat)
    requires Sorted(s, key) && i < j < |s|
    ensures LexLeq(key(s[i]), key(s[j]))
    decreases j - i
  {
    assert LexLeq(key(s[i]), key(s[i + 1]));
    if i + 1 == j {
    } else {
      SortedAll(s, key, i + 1, j);
      LexTransitive(key(s[i]), key(s[i + 1]), key(s[j]));
    }
  }

  lemma SortElements<T>(s: seq<T>, key: T -> seq<int>, x: T)
    ensures x in Sort(s, key) <==> x in s
  {
    SortSorts(s, key);
    assert x in Sort(s, key) <==> x in multiset(Sort(s, key));
    assert x in s <==> x in multiset(s);
  }
}
