/** What a printed condition means to the C preprocessor, which the script leaves it to
    (rebuild_wrappers.py writes it behind #if). */
module ConditionText {
  import opened Conditions
  import opened Implicants
  import opened ClauseMeaning
  import opened ClauseReducer

  /** A value and what follows it in the text, or no condition at all. */
  datatype Parsed = Bad | Good(value: bool, rest: string)

  function Skip(s: string): (r: string)
    ensures |r| <= |s| && (r != "" ==> r[0] != ' ')
  {
    if s != "" && s[0] == ' ' then Skip(s[1..]) else s
  }

  predicate IdChar(c: char) {
    'a' <= c <= 'z' || 'A' <= c <= 'Z' || '0' <= c <= '9' || c == '_'
  }

  /** The length of the name that s begins with. */
  function NameLength(s: string): (n: nat)
    ensures n <= |s|
  {
    if s != "" && IdChar(s[0]) then 1 + NameLength(s[1..]) else 0
  }

  /** Behind the word "defined": a name in parentheses. */
  function Test(s: string, env: string -> bool): (r: Parsed)
    ensures r.Good? ==> |r.rest| < |s|
  {
    var t := Skip(s);
    if t == "" || t[0] != '(' then Bad
    else
      var u := Skip(t[1..]);
      var n := NameLength(u);
      var w := Skip(u[n..]);
      if n == 0 || w == "" || w[0] != ')' then Bad else Good(env(u[..n]), w[1..])
  }

  /** A negation, a condition in parentheses, or a test. */
  function Unary(s: string, env: string -> bool): (r: Parsed)
    ensures r.Good? ==> |r.rest| < |s|
    decreases |s|, 0
  {
    var t := Skip(s);
    if t == "" then Bad
    else if t[0] == '!' then
      match Unary(t[1..], env) case Bad => Bad case Good(v, r) => Good(!v, r)
    else if t[0] == '(' then
      match Ors(t[1..], env)
      case Bad => Bad
      case Good(v, r) => var u := Skip(r); if u != "" && u[0] == ')' then Good(v, u[1..]) else Bad
    else if |t| >= 7 && t[..7] == "defined" then Test(t[7..], env)
    else Bad
  }

  function Ands(s: string, env: string -> bool): (r: Parsed)
    ensures r.Good? ==> |r.rest| < |s|
    decreases |s|, 1
  {
    match Unary(s, env) case Bad => Bad case Good(v, r) => MoreAnds(v, r, env)
  }

  function MoreAnds(v: bool, s: string, env: string -> bool): (r: Parsed)
    ensures r.Good? ==> |r.rest| <= |s|
    decreases |s|, 0
  {
    var t := Skip(s);
    if |t| >= 2 && t[..2] == "&&" then
      match Unary(t[2..], env) case Bad => Bad case Good(w, r) => MoreAnds(v && w, r, env)
    else Good(v, s)
  }

  function Ors(s: string, env: string -> bool): (r: Parsed)
    ensures r.Good? ==> |r.rest| < |s|
    decreases |s|, 2
  {
    match Ands(s, env) case Bad => Bad case Good(v, r) => MoreOrs(v, r, env)
  }

  function MoreOrs(v: bool, s: string, env: string -> bool): (r: Parsed)
    ensures r.Good? ==> |r.rest| <= |s|
    decreases |s|, 1
  {
    var t := Skip(s);
    if |t| >= 2 && t[..2] == "||" then
      match Ands(t[2..], env) case Bad => Bad case Good(w, r) => MoreOrs(v || w, r, env)
    else Good(v, s)
  }

  /** The whole text as a condition. */
  function EvalText(s: string, env: string -> bool): Parsed {
    match Ors(s, env) case Bad => Bad case Good(v, r) => if Skip(r) == "" then Good(v, "") else Bad
  }

  predicate IsName(n: string) {
    n != "" && forall i | 0 <= i < |n| :: IdChar(n[i])
  }

  predicate Named(c: Clause) {
    forall d | d in c :: IsName(d.name)
  }

  predicate True(d: Define, env: string -> bool) { env(d.name) != d.inverted }

  predicate AllTrue(c: Clause, env: string -> bool) {
    forall d | d in c :: True(d, env)
  }

  // ---- One test

  lemma {:induction false} NameEnds(n: string, s: string)
    requires (forall i | 0 <= i < |n| :: IdChar(n[i])) && (s == "" || !IdChar(s[0]))
    ensures NameLength(n + s) == |n|
  {
    if n == "" {
      assert n + s == s;
    } else {
      assert (n + s)[1..] == n[1..] + s;
      NameEnds(n[1..], s);
    }
  }

  lemma TestText(n: string, x: string, env: string -> bool)
    requires IsName(n)
    ensures Test("(" + n + ")" + x, env) == Good(env(n), x)
  {
    var s := "(" + n + ")" + x;
    assert s[1..] == n + (")" + x) && n[0] != ' ';
    NameEnds(n, ")" + x);
    assert (n + (")" + x))[|n|..] == ")" + x && (n + (")" + x))[..|n|] == n;
    assert (")" + x)[1..] == x;
  }

  lemma PlainText(n: string, x: string, env: string -> bool)
    requires IsName(n)
    ensures Unary("defined(" + n + ")" + x, env) == Good(env(n), x)
  {
    var s := "defined(" + n + ")" + x;
    assert s[..7] == "defined" && s[7..] == "(" + n + ")" + x && s[0] == 'd';
    TestText(n, x, env);
  }

  lemma Negated(s: string, env: string -> bool)
    requires Unary(s, env).Good?
    ensures Unary("!" + s, env) == Good(!Unary(s, env).value, Unary(s, env).rest)
  {
    assert ("!" + s)[1..] == s;
  }

  /** A printed test means that the name is defined, or that it is not. */
  lemma DefineText(d: Define, x: string, env: string -> bool)
    requires IsName(d.name)
    ensures Unary(StrDefine(d) + x, env) == Good(True(d, env), x)
  {
    hide Unary, IsName;
    var t := "defined(" + d.name + ")" + x;
    PlainText(d.name, x, env);
    if d.inverted {
      Negated(t, env);
      assert StrDefine(d) + x == "!" + t;
    }
  }

  // ---- One clause

  lemma StopsAnds(v: bool, x: string, env: string -> bool)
    requires x == "" || x[0] == ')' || x[0] == '|'
    ensures MoreAnds(v, x, env) == Good(v, x)
  {}

  lemma StopsOrs(v: bool, x: string, env: string -> bool)
    requires x == "" || x[0] == ')'
    ensures MoreOrs(v, x, env) == Good(v, x)
  {}

  lemma AndNext(v: bool, s: string, env: string -> bool)
    ensures MoreAnds(v, AND + s, env) ==
            match Unary(s, env) case Bad => Bad case Good(w, r) => MoreAnds(v && w, r, env)
  {
    var all := AND + s;
    assert all[1..] == "&& " + s && Skip(all) == all[1..] by { assert all[1..][0] == '&'; }
    assert all[1..][..2] == "&&" && all[1..][2..] == " " + s;
    SpaceFirst(s, env);
  }

  /** A space in front changes nothing. */
  lemma SpaceFirst(s: string, env: string -> bool)
    ensures Skip(" " + s) == Skip(s) && Unary(" " + s, env) == Unary(s, env) && Ands(" " + s, env) == Ands(s, env)
  {
    assert (" " + s)[1..] == s;
  }

  lemma AllTrueFrom(c: Clause, env: string -> bool)
    requires c != []
    ensures AllTrue(c, env) <==> True(c[0], env) && AllTrue(c[1..], env)
  {}

  lemma ClauseSplits(c: Clause, x: string)
    requires |c| > 1
    ensures StrClause(c) + x == StrDefine(c[0]) + (AND + (StrClause(c[1..]) + x))
  {
    assert StrDefines(c)[1..] == StrDefines(c[1..]);
  }

  /** Behind the first tests of a clause. */
  lemma {:induction false} RestText(v: bool, c: Clause, x: string, env: string -> bool)
    requires c != [] && Named(c) && (x == "" || x[0] == ')')
    ensures MoreAnds(v, AND + (StrClause(c) + x), env) == Good(v && AllTrue(c, env), x)
    decreases |c|
  {
    hide Unary, StrDefine, IsName, True, MoreAnds, AllTrue;
    var d := c[0];
    AndNext(v, StrClause(c) + x, env);
    AllTrueFrom(c, env);
    if |c| == 1 {
      assert StrClause(c) == StrDefine(d);
      DefineText(d, x, env);
      StopsAnds(v && True(d, env), x, env);
      NothingFalse(env);
      assert c[1..] == [];
    } else {
      ClauseSplits(c, x);
      DefineText(d, AND + (StrClause(c[1..]) + x), env);
      RestText(v && True(d, env), c[1..], x, env);
    }
  }

  lemma NothingFalse(env: string -> bool)
    ensures AllTrue([], env)
  {}

  /** A printed clause means that all its tests are true. */
  lemma ClauseText(c: Clause, x: string, env: string -> bool)
    requires c != [] && Named(c) && (x == "" || x[0] == ')')
    ensures Ors(StrClause(c) + x, env) == Good(AllTrue(c, env), x)
  {
    hide Unary, StrDefine, IsName, True, MoreAnds, AllTrue, MoreOrs;
    var d := c[0];
    AllTrueFrom(c, env);
    if |c| == 1 {
      assert StrClause(c) == StrDefine(d);
      DefineText(d, x, env);
      StopsAnds(True(d, env), x, env);
      NothingFalse(env);
      assert c[1..] == [];
    } else {
      ClauseSplits(c, x);
      DefineText(d, AND + (StrClause(c[1..]) + x), env);
      RestText(True(d, env), c[1..], x, env);
    }
    StopsOrs(AllTrue(c, env), x, env);
  }

  // ---- Clauses in parentheses

  /** A clause in parentheses is a condition exactly when it is not empty. */
  lemma Enclosed(c: Clause, x: string, env: string -> bool)
    requires Named(c)
    ensures Unary("(" + (StrClause(c) + (")" + x)), env) == if c == [] then Bad else Good(AllTrue(c, env), x)
  {
    hide StrDefine, IsName, True, AllTrue, MoreAnds, MoreOrs;
    var s := "(" + (StrClause(c) + (")" + x));
    assert s[1..] == StrClause(c) + (")" + x) && s[0] == '(' && (")" + x)[1..] == x;
    if c == [] {
      assert StrClause(c) == "" && s[1..] == ")" + x;
      NoneThere(x, env);
    } else {
      ClauseText(c, ")" + x, env);
    }
  }

  lemma NoneThere(x: string, env: string -> bool)
    ensures Ors(")" + x, env) == Bad
  {
    var s := ")" + x;
    assert s[0] == ')' && Skip(s) == s;
    assert |s| >= 7 ==> s[..7][0] == ')';
    assert Unary(s, env) == Bad;
  }

  lemma OrNext(v: bool, s: string, env: string -> bool)
    ensures MoreOrs(v, " || " + s, env) ==
            match Ands(s, env) case Bad => Bad case Good(w, r) => MoreOrs(v || w, r, env)
  {
    var all := " || " + s;
    assert all[1..] == "|| " + s && Skip(all) == all[1..] by { assert all[1..][0] == '|'; }
    assert all[1..][..2] == "||" && all[1..][2..] == " " + s;
    SpaceFirst(s, env);
  }

  /** The printed list without its first parenthesis. */
  function Opened(cs: Clauses): string
    requires cs != []
    decreases |cs|, 1
  {
    StrClause(cs[0]) + (")" + Following(cs))
  }

  /** What follows the first clause of a list. */
  function Following(cs: Clauses): string
    requires cs != []
    decreases |cs|, 0
  {
    if |cs| == 1 then "" else " || " + ("(" + Opened(cs[1..]))
  }

  lemma {:induction false} OpenedIs(cs: Clauses)
    requires cs != []
    ensures Opened(cs) == Join(StrAll(cs), OR) + ")"
  {
    hide StrClause;
    if |cs| == 1 {
      assert StrAll(cs) == [StrClause(cs[0])];
      assert ")" + "" == ")";
    } else {
      OpenedIs(cs[1..]);
      assert StrAll(cs)[1..] == StrAll(cs[1..]);
      Regroup(StrClause(cs[0]), Join(StrAll(cs[1..]), OR), ")");
    }
  }

  lemma Regroup(x: string, y: string, z: string)
    ensures x + (")" + (" || " + ("(" + (y + z)))) == x + OR + y + z
  {
    assert OR == ")" + (" || " + "(");
  }

  predicate AnyTrue(cs: Clauses, env: string -> bool) {
    exists c | c in cs :: AllTrue(c, env)
  }

  lemma AnyTrueFrom(cs: Clauses, env: string -> bool)
    requires cs != []
    ensures AnyTrue(cs, env) <==> AllTrue(cs[0], env) || AnyTrue(cs[1..], env)
  {}

  lemma BarStops(v: bool, s: string, env: string -> bool)
    ensures MoreAnds(v, " || " + s, env) == Good(v, " || " + s)
  {
    var all := " || " + s;
    assert all[1..] == "|| " + s && Skip(all) == all[1..] by { assert all[1..][0] == '|'; }
    assert all[1..][..2][0] == '|';
  }

  lemma FirstClause(cs: Clauses, env: string -> bool)
    requires cs != [] && Named(cs[0])
    ensures Ands("(" + Opened(cs), env) == if cs[0] == [] then Bad else Good(AllTrue(cs[0], env), Following(cs))
  {
    hide Unary, MoreAnds, AllTrue, StrClause, Named;
    Enclosed(cs[0], Following(cs), env);
    if |cs| == 1 {
      StopsAnds(AllTrue(cs[0], env), "", env);
    } else {
      BarStops(AllTrue(cs[0], env), "(" + Opened(cs[1..]), env);
    }
  }

  lemma {:induction false} FollowingText(v: bool, cs: Clauses, env: string -> bool)
    requires cs != [] && forall c | c in cs[1..] :: Named(c)
    ensures MoreOrs(v, Following(cs), env) == if [] in cs[1..] then Bad else Good(v || AnyTrue(cs[1..], env), "")
    decreases |cs|
  {
    hide Ands, MoreOrs, AllTrue, StrClause, Named, Opened;
    if |cs| == 1 {
      StopsOrs(v, "", env);
    } else {
      var rest := cs[1..];
      OrNext(v, "(" + Opened(rest), env);
      FirstClause(rest, env);
      if rest[0] != [] { FollowingText(v || AllTrue(rest[0], env), rest, env); }
      EmptyAmong(rest);
    }
  }

  lemma EmptyAmong(cs: Clauses)
    requires cs != []
    ensures [] in cs <==> cs[0] == [] || [] in cs[1..]
  {}

  /** A printed list is a condition if and only if it has a clause and none is empty; then it is
      true exactly when the list is. */
  lemma TextMeans(cs: Clauses, env: string -> bool)
    requires forall c | c in cs :: Named(c)
    ensures EvalText(StrClauses(cs), env) == if cs == [] || [] in cs then Bad else Good(HoldsFor(cs, env), "")
  {
    hide Ands, Ors, MoreOrs, StrClause, Named, Opened, AllTrue;
    if cs == [] {
      NothingText(env);
    } else if |cs| == 1 {
      if cs[0] == [] {
        NoText(env);
      } else {
        assert StrClauses(cs) == StrClause(cs[0]) + "";
        ClauseText(cs[0], "", env);
        ManyHold(cs, env);
        AnyTrueFrom(cs, env);
      }
    } else {
      OpenedIs(cs);
      assert StrClauses(cs) == "(" + Opened(cs);
      ListText(cs, env);
      ManyHold(cs, env);
    }
  }

  lemma ListText(cs: Clauses, env: string -> bool)
    requires cs != [] && forall c | c in cs :: Named(c)
    ensures Ors("(" + Opened(cs), env) == if [] in cs then Bad else Good(AnyTrue(cs, env), "")
  {
    hide Ands, MoreOrs, StrClause, Named, Opened, AllTrue, AnyTrue, Following;
    FirstClause(cs, env);
    EmptyAmong(cs);
    AnyTrueFrom(cs, env);
    if cs[0] != [] { FollowingText(AllTrue(cs[0], env), cs, env); }
  }

  lemma NothingText(env: string -> bool)
    ensures EvalText(StrClauses([]), env) == Bad
  {
    var s := "()";
    assert StrClauses([]) == s && s[1..] == ")" + "";
    NoneThere("", env);
    assert Unary(s, env) == Bad;
  }

  lemma NoText(env: string -> bool)
    ensures EvalText(StrClause([]), env) == Bad
  {
    assert StrClause([]) == "" && Unary("", env) == Bad;
  }

  lemma ManyHold(cs: Clauses, env: string -> bool)
    requires cs != []
    ensures HoldsFor(cs, env) <==> AnyTrue(cs, env)
  {
    if c :| c in cs && forall d | d in c :: env(d.name) != d.inverted {
      forall d | d in c ensures True(d, env) {}
      assert AllTrue(c, env);
    }
    if c :| c in cs && AllTrue(c, env) {
      forall d | d in c ensures env(d.name) != d.inverted { assert True(d, env); }
    }
  }

  // ---- What reduce leaves to be printed

  ghost predicate Always(cs: Clauses, defines: seq<string>) {
    forall i | i <= Names(|defines|) :: AnyHolds(cs, i, defines)
  }

  lemma HasFirst(c: Clause)
    ensures c == [] || exists d :: d in c
  {
    if c != [] { assert c[0] in c; }
  }

  /** Prime clauses that mean the same as clauses that are always true are empty, and no others. */
  lemma AlwaysIsEmpty(was: Clauses, now: Clauses, defines: seq<string>)
    requires was != [] && now != [] && SameMeaning(now, was, defines)
    requires forall c | c in now :: PrimeClause(c, was, defines)
    ensures Always(was, defines) <==> [] in now
  {
    hide Names;
    if Always(was, defines) {
      var c := now[0];
      assert PrimeClause(c, was, defines);
      HasFirst(c);
    }
    if [] in now {
      forall i | i <= Names(|defines|) ensures AnyHolds(was, i, defines) {
        assert Holds([], i, defines);
        assert Means(now, i, defines) <==> Means(was, i, defines);
      }
    }
  }

  /** What is printed for reduced clauses means what the clauses meant before, unless they were
      always true: then no condition is printed, but not nothing either. */
  lemma ReducedText(was: Clauses, now: Clauses, defines: seq<string>, env: string -> bool)
    requires was != [] && now != [] && SameMeaning(now, was, defines)
    requires forall c | c in now :: PrimeClause(c, was, defines) && NamesKnown(c, defines)
    requires (forall c | c in was :: NamesKnown(c, defines)) && forall n | n in defines :: IsName(n)
    ensures EvalText(StrClauses(now), env) == if Always(was, defines) then Bad else Good(HoldsFor(was, env), "")
  {
    hide EvalText, StrClauses, SameMeaning, PrimeClause, HoldsFor, IsName;
    AlwaysIsEmpty(was, now, defines);
    SameByName(now, was, env, defines);
    TextMeans(now, env);
  }

  const AB := ["a", "b"]
  const ALWAYS: Clauses := [[Define("a", false)], [Define("a", true)], [Define("b", false)]]

  lemma AlwaysThere(i: Bits)
    ensures AnyHolds(ALWAYS, i, AB)
  {
    assert ALWAYS[0] in ALWAYS && ALWAYS[1] in ALWAYS;
    var d := Define("a", false);
    if Lit(d, i, AB) { assert Holds(ALWAYS[0], i, AB); } else { assert Holds(ALWAYS[1], i, AB); }
  }

  lemma AlwaysKnown()
    ensures ByChoice(ALWAYS) && NamesDistinct(AB) && Fine(ALWAYS) && Always(ALWAYS, AB) && OnSet(ALWAYS, AB) != {}
    ensures (forall c | c in ALWAYS :: NamesKnown(c, AB)) && forall n | n in AB :: IsName(n)
  {
    hide AnyHolds, OnSet, Lit;
    assert "a"[0] != "b"[0];
    assert Satisfiable(ALWAYS[0]) && ALWAYS[0] in ALWAYS;
    forall i: Bits ensures AnyHolds(ALWAYS, i, AB) { AlwaysThere(i); }
    OnSetIs(ALWAYS, AB, {});
  }

  lemma AlwaysReduced(now: Clauses, ok: bool, env: string -> bool)
    requires Reduced(ALWAYS, now, ok, AB) && now != [] && (!ok ==> now == ALWAYS)
    ensures EvalText(StrClauses(now), env) == Bad
  {
    hide Always, OnSet, Fine, ByChoice, SameMeaning, EvalText, PrimeClause, NamesKnown, IsName;
    AlwaysKnown();
    ReducedText(ALWAYS, now, AB, env);
  }

  /** An input: a, or !a, or b. It is always true, and what is written behind #if is no condition. */
  method PrintsNothing(env: string -> bool) returns (l: ClauseList)
    ensures fresh(l) && l.clauses != [] && EvalText(StrClauses(l.clauses), env) == Bad
  {
    hide *;
    l := new ClauseList(ALWAYS);
    AlwaysKnown();
    var ok := l.Reduce(AB);
    AlwaysReduced(l.clauses, ok, env);
  }
}
