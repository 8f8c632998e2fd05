/** What a list of clauses means (rebuild_wrappers.py): clauses are or-ed together, the tests in
    a clause and-ed; the empty list stands for "always". An assignment is the set of the
    indices of the names that are defined. */
module ClauseMeaning {
  import opened Conditions
  import opened Implicants

  /** list.index, or the length when there is none. */
  function Index(defines: seq<string>, name: string): (r: nat)
    ensures r <= |defines| && (name in defines <==> r < |defines|) && (r < |defines| ==> defines[r] == name)
  {
    if defines == [] then 0 else if defines[0] == name then 0 else 1 + Index(defines[1..], name)
  }

  predicate NamesDistinct(defines: seq<string>) {
    forall j, k | 0 <= j < k < |defines| :: defines[j] != defines[k]
  }

  lemma {:induction false} IndexOf(defines: seq<string>, j: nat)
    requires NamesDistinct(defines) && j < |defines|
    ensures Index(defines, defines[j]) == j
  {
    if j == 0 {
    } else {
      IndexOf(defines[1..], j - 1);
    }
  }

  predicate Lit(d: Define, i: Bits, defines: seq<string>) {
    (Index(defines, d.name) in i) != d.inverted
  }

  predicate Holds(c: Clause, i: Bits, defines: seq<string>) {
    forall d | d in c :: Lit(d, i, defines)
  }

  /** c without its literal d. */
  predicate HoldsBut(c: Clause, d: Define, i: Bits, defines: seq<string>) {
    forall e | e in c && e != d :: Lit(e, i, defines)
  }

  predicate AnyHolds(cs: Clauses, i: Bits, defines: seq<string>) {
    exists c | c in cs :: Holds(c, i, defines)
  }

  predicate Means(cs: Clauses, i: Bits, defines: seq<string>) {
    cs == [] || AnyHolds(cs, i, defines)
  }

  function Inverted(d: Define): Define { d.(inverted := !d.inverted) }

  /** A clause does not contradict itself. */
  predicate Satisfiable(c: Clause) {
    forall d | d in c :: Inverted(d) !in c
  }

  /** The assignment that makes a clause true that can be true. */
  ghost function Witness(c: Clause, defines: seq<string>): Bits {
    set d | d in c && !d.inverted && d.name in defines :: Index(defines, d.name)
  }

  lemma WitnessHolds(c: Clause, defines: seq<string>)
    requires NamesKnown(c, defines) && Satisfiable(c)
    ensures Witness(c, defines) <= Names(|defines|) && Holds(c, Witness(c, defines), defines)
  {
    var i := Witness(c, defines);
    forall d | d in c ensures Lit(d, i, defines) {
      assert Inverted(d) !in c;
      if Index(defines, d.name) in i {
        var e :| e in c && !e.inverted && e.name in defines && Index(defines, e.name) == Index(defines, d.name);
      }
    }
  }

  lemma ContradictionFails(c: Clause, i: Bits, defines: seq<string>)
    requires !Satisfiable(c)
    ensures !Holds(c, i, defines)
  {
    var d :| d in c && Inverted(d) in c;
    assert Lit(d, i, defines) == !Lit(Inverted(d), i, defines);
  }

  /** Means the same under every assignment. */
  ghost predicate SameMeaning(a: Clauses, b: Clauses, defines: seq<string>) {
    forall i | i <= Names(|defines|) :: Means(a, i, defines) <==> Means(b, i, defines)
  }

  /** c implies the clauses cs, and no longer does when one of its literals is dropped. */
  ghost predicate PrimeClause(c: Clause, cs: Clauses, defines: seq<string>) {
    && (forall i | i <= Names(|defines|) && Holds(c, i, defines) :: AnyHolds(cs, i, defines))
    && (forall d | d in c ::
      exists i :: i <= Names(|defines|) && HoldsBut(c, d, i, defines) && !AnyHolds(cs, i, defines))
  }

  /** The same elements, whatever their order and number. */
  predicate SameElements<T(==)>(a: seq<T>, b: seq<T>) {
    (forall x | x in a :: x in b) && (forall x | x in b :: x in a)
  }

  lemma HoldsSame(a: Clause, b: Clause, i: Bits, defines: seq<string>)
    requires SameElements(a, b)
    ensures Holds(a, i, defines) <==> Holds(b, i, defines)
    ensures forall d :: HoldsBut(a, d, i, defines) <==> HoldsBut(b, d, i, defines)
  {}

  lemma PrimeSame(a: Clause, b: Clause, cs: Clauses, defines: seq<string>)
    requires SameElements(a, b) && PrimeClause(a, cs, defines)
    ensures PrimeClause(b, cs, defines)
  {
    hide Holds, HoldsBut, AnyHolds, Names;
    forall i | i <= Names(|defines|) && Holds(b, i, defines) ensures AnyHolds(cs, i, defines) {
      HoldsSame(a, b, i, defines);
    }
    forall d | d in b
      ensures exists i :: i <= Names(|defines|) && HoldsBut(b, d, i, defines) && !AnyHolds(cs, i, defines)
    {
      var i :| i <= Names(|defines|) && HoldsBut(a, d, i, defines) && !AnyHolds(cs, i, defines);
      HoldsSame(a, b, i, defines);
    }
  }

  // ---- The meaning in terms of the names

  /** The indices of the names that are defined. */
  ghost function Defined(env: string -> bool, defines: seq<string>): Bits {
    set j: nat | j in Names(|defines|) && env(defines[j])
  }

  ghost predicate HoldsFor(cs: Clauses, env: string -> bool) {
    cs == [] || exists c | c in cs :: forall d | d in c :: env(d.name) != d.inverted
  }

  /** The preprocessor sees names, not indices: it is the same. */
  lemma MeansByName(cs: Clauses, env: string -> bool, defines: seq<string>)
    requires forall c | c in cs :: NamesKnown(c, defines)
    ensures HoldsFor(cs, env) <==> Means(cs, Defined(env, defines), defines)
  {
    var i := Defined(env, defines);
    forall c | c in cs ensures (forall d | d in c :: env(d.name) != d.inverted) <==> Holds(c, i, defines) {
      forall d | d in c ensures Lit(d, i, defines) <==> env(d.name) != d.inverted {}
    }
  }
}
