/** The conditions under which wrapped functions exist (rebuild_wrappers.py): conjunctions of
    defined() tests, or-ed together, with their printers and parsers. */
module Conditions {

  /** The Define class: one defined() or !defined() test. */
  datatype Define = Define(name: string, inverted: bool)

  type Clause = seq<Define>
  type Clauses = seq<Clause>

  /** The outcome of a constructor: a value, or the exception it raises. */
  datatype Result<+T> = Ok(value: T) | KeyError(name: string) | IndexError

  // ---- Python's string operations

  predicate Occurs(s: string, sep: string, j: int) {
    0 <= j && j + |sep| <= |s| && s[j..j + |sep|] == sep
  }

  /** The position of the first occurrence of sep in s from i on, or |s| + 1. */
  function Find(s: string, sep: string, i: nat): (k: nat)
    requires i <= |s| && sep != ""
    ensures i <= k <= |s| + 1
    ensures k <= |s| ==> Occurs(s, sep, k)
    ensures forall j | i <= j < k :: !Occurs(s, sep, j)
    decreases |s| - i
  {
    if i + |sep| > |s| then |s| + 1
    else if Occurs(s, sep, i) then i
    else Find(s, sep, i + 1)
  }

  /** str.split with a separator. */
  function Split(s: string, sep: string): (parts: seq<string>)
    requires sep != ""
    ensures |parts| > 0
    decreases |s|
  {
    var k := Find(s, sep, 0);
    if k > |s| then [s] else [s[..k]] + Split(s[k + |sep|..], sep)
  }

  /** str.join. */
  function Join(parts: seq<string>, sep: string): string {
    if |parts| == 0 then ""
    else if |parts| == 1 then parts[0]
    else parts[0] + sep + Join(parts[1..], sep)
  }

  /** s[from:-1]. */
  function Slice(s: string, from: nat): string {
    if from < |s| - 1 then s[from..|s| - 1] else ""
  }

  /** Behind part, the separator is found where it begins and not before. */
  ghost predicate Separates(part: string, sep: string) {
    forall j | 0 <= j < |part| :: !Occurs(part + sep, sep, j)
  }

  lemma Mismatch(s: string, sep: string, j: nat, i: nat)
    requires i < |sep| && (j + i < |s| ==> s[j + i] != sep[i])
    ensures !Occurs(s, sep, j)
  {
    if j + |sep| <= |s| { assert s[j..j + |sep|][i] == s[j + i]; }
  }

  lemma Inside(a: string, sep: string, b: string)
    requires sep != ""
    ensures Contains(a + sep + b, sep)
  {
    var s := a + sep + b;
    assert s[|a|..|a| + |sep|] == sep;
    assert Occurs(s, sep, |a|);
  }

  lemma FirstSeparator(part: string, sep: string, rest: string)
    requires sep != "" && Separates(part, sep)
    ensures Find(part + sep + rest, sep, 0) == |part|
  {
    var s := part + sep + rest;
    assert s[|part|..|part| + |sep|] == sep;
    assert Occurs(s, sep, |part|);
    forall j | 0 <= j < |part| ensures !Occurs(s, sep, j) {
      assert s[j..j + |sep|] == (part + sep)[j..j + |sep|];
      assert !Occurs(part + sep, sep, j);
    }
  }

  lemma NoSeparator(part: string, sep: string)
    requires sep != "" && Separates(part, sep)
    ensures Find(part, sep, 0) == |part| + 1
  {
    forall j | 0 <= j && j + |sep| <= |part| ensures !Occurs(part, sep, j) {
      assert part[j..j + |sep|] == (part + sep)[j..j + |sep|];
      assert !Occurs(part + sep, sep, j);
    }
  }

  /** Splitting undoes joining when no part holds or completes a separator. */
  lemma {:induction false} SplitJoin(parts: seq<string>, sep: string)
    requires sep != "" && |parts| > 0 && forall k | 0 <= k < |parts| :: Separates(parts[k], sep)
    ensures Split(Join(parts, sep), sep) == parts
  {
    if |parts| == 1 {
      NoSeparator(parts[0], sep);
    } else {
      var rest := Join(parts[1..], sep);
      FirstSeparator(parts[0], sep, rest);
      var s := parts[0] + sep + rest;
      assert s[..|parts[0]|] == parts[0] && s[|parts[0]| + |sep|..] == rest;
      SplitJoin(parts[1..], sep);
    }
  }

  // ---- Printing

  const AND := " && "
  const OR := ") || ("

  function StrDefine(d: Define): string {
    if d.inverted then "!defined(" + d.name + ")" else "defined(" + d.name + ")"
  }

  function StrDefines(c: Clause): (r: seq<string>)
    ensures |r| == |c| && forall k | 0 <= k < |c| :: r[k] == StrDefine(c[k])
  {
    seq(|c|, k requires 0 <= k < |c| => StrDefine(c[k]))
  }

  function StrClause(c: Clause): string {
    Join(StrDefines(c), AND)
  }

  function StrAll(cs: Clauses): (r: seq<string>)
    ensures |r| == |cs| && forall k | 0 <= k < |cs| :: r[k] == StrClause(cs[k])
  {
    seq(|cs|, k requires 0 <= k < |cs| => StrClause(cs[k]))
  }

  function StrClauses(cs: Clauses): string {
    if |cs| == 1 then StrClause(cs[0]) else "(" + Join(StrAll(cs), OR) + ")"
  }

  // ---- Parsing; `defines` are the known names

  function MakeDefine(name: string, inverted: bool, defines: seq<string>): Result<Define> {
    if name !in defines then KeyError(name) else Ok(Define(name, inverted))
  }

  function ParseDefine(x: string, defines: seq<string>): Result<Define> {
    if x == "" then IndexError
    else MakeDefine(if x[0] == '!' then Slice(x, 9) else Slice(x, 8), x[0] == '!', defines)
  }

  function ParseDefines(xs: seq<string>, defines: seq<string>): Result<Clause> {
    if xs == [] then Ok([])
    else
      match ParseDefine(xs[0], defines)
      case Ok(d) =>
        (match ParseDefines(xs[1..], defines)
          case Ok(c) => Ok([d] + c) case KeyError(n) => KeyError(n) case IndexError => IndexError)
      case KeyError(n) => KeyError(n)
      case IndexError => IndexError
  }

  function ParseClause(s: string, defines: seq<string>): Result<Clause> {
    if s == "" then Ok([]) else ParseDefines(Split(s, AND), defines)
  }

  function ParseAll(xs: seq<string>, defines: seq<string>): Result<Clauses> {
    if xs == [] then Ok([])
    else
      match ParseClause(xs[0], defines)
      case Ok(c) =>
        (match ParseAll(xs[1..], defines)
          case Ok(cs) => Ok([c] + cs) case KeyError(n) => KeyError(n) case IndexError => IndexError)
      case KeyError(n) => KeyError(n)
      case IndexError => IndexError
  }

  predicate Contains(s: string, sep: string)
    requires sep != ""
  {
    Find(s, sep, 0) <= |s|
  }

  function ParseClauses(s: string, defines: seq<string>): Result<Clauses> {
    if s == "()" then Ok([])
    else if Contains(s, OR) then ParseAll(Split(Slice(s, 1), OR), defines)
    else match ParseClause(s, defines)
      case Ok(c) => Ok([c]) case KeyError(n) => KeyError(n) case IndexError => IndexError
  }

  // ---- Round trips

  predicate NamesKnown(c: Clause, defines: seq<string>) {
    forall d | d in c :: d.name in defines
  }

  /** Every name is known, and holds no space. */
  predicate Known(c: Clause, defines: seq<string>) {
    forall k | 0 <= k < |c| :: c[k].name in defines && ' ' !in c[k].name
  }

  lemma DefineRoundTrip(d: Define, defines: seq<string>)
    requires d.name in defines
    ensures ParseDefine(StrDefine(d), defines) == Ok(d)
  {
    var x := StrDefine(d);
    assert Slice(x, if d.inverted then 9 else 8) == d.name;
  }

  /** What the two forms of a test are read as. */
  lemma DefineTexts(n: string, defines: seq<string>)
    requires n in defines
    ensures ParseDefine("defined(" + n + ")", defines) == Ok(Define(n, false))
    ensures ParseDefine("!defined(" + n + ")", defines) == Ok(Define(n, true))
  {
    DefineRoundTrip(Define(n, false), defines);
    DefineRoundTrip(Define(n, true), defines);
  }

  lemma {:induction false} DefinesRoundTrip(c: Clause, defines: seq<string>)
    requires forall k | 0 <= k < |c| :: c[k].name in defines
    ensures ParseDefines(StrDefines(c), defines) == Ok(c)
  {
    if c == [] {
    } else {
      DefineRoundTrip(c[0], defines);
      DefinesRoundTrip(c[1..], defines);
      assert StrDefines(c)[1..] == StrDefines(c[1..]);
      assert [c[0]] + c[1..] == c;
    }
  }

  lemma NoSpace(d: Define)
    requires ' ' !in d.name
    ensures ' ' !in StrDefine(d) && |StrDefine(d)| >= 9 && StrDefine(d)[0] in {'!', 'd'}
    ensures Separates(StrDefine(d), AND)
  {
    var x := StrDefine(d);
    forall j | 0 <= j < |x| ensures !Occurs(x + AND, AND, j) {
      assert (x + AND)[j] == x[j];
      Mismatch(x + AND, AND, j, 0);
    }
  }

  /** Parsing what a clause prints gives the clause back. */
  lemma ClauseRoundTrip(c: Clause, defines: seq<string>)
    requires Known(c, defines)
    ensures ParseClause(StrClause(c), defines) == Ok(c)
  {
    if c != [] {
      var xs := StrDefines(c);
      forall k | 0 <= k < |c| ensures Separates(xs[k], AND) && |xs[k]| >= 9 { NoSpace(c[k]); }
      SplitJoin(xs, AND);
      DefinesRoundTrip(c, defines);
      assert StrClause(c) != "";
    }
  }

  /** A clause with names that are not known raises the first of them. */
  lemma UnknownName(c: Clause, defines: seq<string>, k: nat)
    requires forall j | 0 <= j < |c| :: ' ' !in c[j].name
    requires k < |c| && c[k].name !in defines && forall j | 0 <= j < k :: c[j].name in defines
    ensures ParseClause(StrClause(c), defines) == KeyError(c[k].name)
  {
    var xs := StrDefines(c);
    forall j | 0 <= j < |c| ensures Separates(xs[j], AND) && |xs[j]| >= 9 { NoSpace(c[j]); }
    SplitJoin(xs, AND);
    UnknownAt(c, defines, k);
    assert StrClause(c) != "";
  }

  lemma {:induction false} UnknownAt(c: Clause, defines: seq<string>, k: nat)
    requires k < |c| && c[k].name !in defines && forall j | 0 <= j < k :: c[j].name in defines
    ensures ParseDefines(StrDefines(c), defines) == KeyError(c[k].name)
  {
    var x := StrDefine(c[0]);
    assert Slice(x, if c[0].inverted then 9 else 8) == c[0].name;
    if k == 0 {
    } else {
      UnknownAt(c[1..], defines, k - 1);
      assert StrDefines(c)[1..] == StrDefines(c[1..]);
    }
  }

  /** Of any text: what is read tests known names only, and a name that is raised is not known. */
  lemma ParsedNames(s: string, defines: seq<string>)
    ensures match ParseClauses(s, defines)
            case Ok(cs) => forall c | c in cs :: NamesKnown(c, defines)
            case KeyError(n) => n !in defines
            case IndexError => true
  {
    hide ParseClause, ParseAll;
    if s == "()" {
    } else if Contains(s, OR) {
      ParsedAll(Split(Slice(s, 1), OR), defines);
    } else {
      ParsedClause(s, defines);
    }
  }

  lemma {:induction false} ParsedAll(xs: seq<string>, defines: seq<string>)
    ensures match ParseAll(xs, defines)
            case Ok(cs) => forall c | c in cs :: NamesKnown(c, defines)
            case KeyError(n) => n !in defines
            case IndexError => true
  {
    hide ParseClause;
    if xs == [] {
    } else {
      ParsedClause(xs[0], defines);
      ParsedAll(xs[1..], defines);
    }
  }

  lemma ParsedClause(s: string, defines: seq<string>)
    ensures match ParseClause(s, defines)
            case Ok(c) => NamesKnown(c, defines)
            case KeyError(n) => n !in defines
            case IndexError => true
  {
    if s == "" {
    } else {
      ParsedDefines(Split(s, AND), defines);
    }
  }

  lemma {:induction false} ParsedDefines(xs: seq<string>, defines: seq<string>)
    ensures match ParseDefines(xs, defines)
            case Ok(c) => |c| == |xs| && NamesKnown(c, defines)
            case KeyError(n) => n !in defines
            case IndexError => "" in xs
  {
    if xs == [] {
    } else {
      ParsedDefines(xs[1..], defines);
    }
  }

  /** A space is never last, and never followed by a bar. */
  ghost predicate Spaced(s: string) {
    forall i | 0 <= i < |s| && s[i] == ' ' :: i + 1 < |s| && s[i + 1] != '|'
  }

  lemma {:induction false} ClauseSpaced(c: Clause)
    requires forall k | 0 <= k < |c| :: ' ' !in c[k].name
    ensures Spaced(StrClause(c)) && (c == [] || StrClause(c)[0] in {'!', 'd'}) && (c == [] <==> StrClause(c) == "")
  {
    if c == [] {
    } else {
      NoSpace(c[0]);
      if |c| > 1 {
        ClauseSpaced(c[1..]);
        assert StrDefines(c)[1..] == StrDefines(c[1..]);
        var (x, rest) := (StrDefine(c[0]), StrClause(c[1..]));
        assert StrClause(c) == x + AND + rest;
      }
    }
  }

  lemma SpacedSeparates(s: string)
    requires Spaced(s)
    ensures Separates(s, OR)
  {
    forall j | 0 <= j < |s| ensures !Occurs(s + OR, OR, j) {
      var t := s + OR;
      assert t[|s|] == ')';
      if t[j + 1] == ' ' { Mismatch(t, OR, j, 2); } else { Mismatch(t, OR, j, 1); }
    }
  }

  lemma {:induction false} AllRoundTrip(cs: Clauses, defines: seq<string>)
    requires forall k | 0 <= k < |cs| :: Known(cs[k], defines)
    ensures ParseAll(StrAll(cs), defines) == Ok(cs)
  {
    if cs == [] {
    } else {
      ClauseRoundTrip(cs[0], defines);
      AllRoundTrip(cs[1..], defines);
      assert StrAll(cs)[1..] == StrAll(cs[1..]);
      assert [cs[0]] + cs[1..] == cs;
    }
  }

  /** Parsing what a list of clauses prints gives the list back: no clause, one, several,
      empty ones included. */
  lemma ClausesRoundTrip(cs: Clauses, defines: seq<string>)
    requires forall k | 0 <= k < |cs| :: Known(cs[k], defines)
    ensures ParseClauses(StrClauses(cs), defines) == Ok(cs)
  {
    var s := StrClauses(cs);
    if |cs| == 0 {
      assert s == "()";
    } else if |cs| == 1 {
      ClauseSpaced(cs[0]);
      SpacedSeparates(s);
      NoSeparator(s, OR);
      ClauseRoundTrip(cs[0], defines);
      assert cs == [cs[0]];
    } else {
      var xs := StrAll(cs);
      forall k | 0 <= k < |xs| ensures Separates(xs[k], OR) {
        ClauseSpaced(cs[k]);
        SpacedSeparates(xs[k]);
      }
      SplitJoin(xs, OR);
      assert Slice(s, 1) == Join(xs, OR);
      HasSeparator(xs);
      AllRoundTrip(cs, defines);
    }
  }

  lemma HasSeparator(xs: seq<string>)
    requires |xs| > 1
    ensures var s := "(" + Join(xs, OR) + ")"; Contains(s, OR) && s != "()"
  {
    hide Contains;
    Bracketed(xs[0], OR, Join(xs[1..], OR));
  }

  lemma Bracketed(x: string, sep: string, rest: string)
    requires sep != ""
    ensures var s := "(" + (x + sep + rest) + ")"; Contains(s, sep) && |s| > 2
  {
    Inside("(" + x, sep, rest + ")");
    assert "(" + (x + sep + rest) + ")" == ("(" + x) + sep + (rest + ")");
  }

  /** The condition on names is needed: one that holds the separator is not read back. */
  lemma SpacesMatter()
    ensures var c := [Define("A && B", false)]; ParseClause(StrClause(c), ["A && B"]) != Ok(c)
  {
    var d := Define("A && B", false);
    var s := StrDefine(d);
    assert s == "defined(A && B)" && Join(StrDefines([d]), AND) == s;
    assert s[9..13] == AND && Occurs(s, AND, 9);
    hide Find;
    var k := Find(s, AND, 0);
    assert k <= 9;
    assert |s[..k]| == k;
    assert ParseDefine(s[..k], ["A && B"]).Ok? ==> |Slice(s[..k], 8)| < |d.name|;
  }
}
