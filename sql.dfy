/**
 * The part of jOOQ that the condition helpers build on, as a syntax tree
 * and an evaluator.
 *
 * A `Condition` is a predicate over named fields. `Sem` says what it does
 * to one row: `Neutral` when the condition places no restriction at all
 * (jOOQ's `noCondition()`, which is neutral for both AND and OR), otherwise
 * whether the row satisfies it. `Admits` is what a WHERE clause does with it.
 *
 * A comparison against a NULL cell is not satisfied. In SQL every
 * comparison (`=`, `<>`, `lower(f) = lower(v)`, LIKE, IN, NOT IN, `<=`,
 * `>=`, `<`, `>`) on a NULL cell is UNKNOWN, while IS NULL is TRUE or FALSE
 * and is read here the same way. List values are never NULL, no
 * constructor negates a compound condition, and AND and OR keep exactly
 * what their parts say. So reading UNKNOWN as false admits exactly the rows
 * that SQL's three-valued logic admits.
 */
module Sql {
  import opened Wrappers

  type Name = string

  /** A cell value: one constructor per kind of value the model compares.
      Dates and times are counted in whole units from an epoch; an
      `OffsetDateTime` is compared by the instant it denotes. */
  datatype Value =
    | Number(n: int)
    | Text(s: string)
    | Date(day: int)
    | DateTime(instant: int)
    | OffsetDateTime(instant: int)

  /** A row maps field names to values; a field it does not map is NULL. */
  type Row = map<Name, Value>

  function Cell(row: Row, f: Name): Option<Value>
  {
    if f in row then Some(row[f]) else None
  }

  /** The text in a field, or `None` when the cell is NULL or not text. */
  function TextCell(row: Row, f: Name): Option<string>
  {
    if f in row && row[f].Text? then Some(row[f].s) else None
  }

  // ---------------------------------------------------------------------
  // Ordering of values

  /** Lexicographic order on character codes. */
  predicate TextBefore(x: string, y: string)
    decreases |x|
  {
    if x == [] then y != []
    else if y == [] then false
    else x[0] < y[0] || (x[0] == y[0] && TextBefore(x[1..], y[1..]))
  }

  /** Strict order of two values of the same type; values of different
      types are never ordered. */
  predicate Before(a: Value, b: Value)
  {
    match (a, b)
    case (Number(x), Number(y)) => x < y
    case (Text(x), Text(y)) => TextBefore(x, y)
    case (Date(x), Date(y)) => x < y
    case (DateTime(x), DateTime(y)) => x < y
    case (OffsetDateTime(x), OffsetDateTime(y)) => x < y
    case _ => false
  }

  predicate NotAfter(a: Value, b: Value)
  {
    a == b || Before(a, b)
  }

  lemma {:induction false} TextBeforeAsymmetric(x: string, y: string)
    ensures !(TextBefore(x, y) && TextBefore(y, x))
    decreases |x|
  {
    if x != [] && y != [] && x[0] == y[0] {
      TextBeforeAsymmetric(x[1..], y[1..]);
    }
  }

  /** `<=` on values is antisymmetric, text included. */
  lemma NotAfterAntisymmetric(a: Value, b: Value)
    requires NotAfter(a, b) && NotAfter(b, a)
    ensures a == b
  {
    if a.Text? && b.Text? {
      TextBeforeAsymmetric(a.s, b.s);
    }
  }

  // ---------------------------------------------------------------------
  // Case folding and LIKE

  /** Folds ASCII upper-case letters to lower case. */
  function LowerChar(ch: char): char
  {
    if 'A' <= ch <= 'Z' then (ch as int - 'A' as int + 'a' as int) as char else ch
  }

  function Lower(s: string): (r: string)
    ensures |r| == |s|
    ensures forall i :: 0 <= i < |s| ==> r[i] == LowerChar(s[i])
  {
    seq(|s|, i requires 0 <= i < |s| => LowerChar(s[i]))
  }

  /** SQL LIKE without an escape character: `%` matches any run of
      characters, `_` any single character, every other character itself. */
  predicate LikeMatches(text: string, pattern: string)
    decreases |text| + |pattern|
  {
    if pattern == [] then text == []
    else if pattern[0] == '%' then
      LikeMatches(text, pattern[1..]) || (text != [] && LikeMatches(text[1..], pattern))
    else
      text != [] && (pattern[0] == '_' || pattern[0] == text[0]) && LikeMatches(text[1..], pattern[1..])
  }

  /** A string with no LIKE wildcard in it. */
  predicate Literal(w: string)
  {
    forall i :: 0 <= i < |w| ==> w[i] != '%' && w[i] != '_'
  }

  /** `w` occurs somewhere in `text`. */
  predicate Contains(text: string, w: string)
    decreases |text|
  {
    w <= text || (text != [] && Contains(text[1..], w))
  }

  lemma {:induction false} PercentMatchesAll(text: string)
    ensures LikeMatches(text, "%")
    decreases |text|
  {
    if text != [] {
      PercentMatchesAll(text[1..]);
    }
  }

  /** A literal followed by `%` matches exactly the texts it starts. */
  lemma {:induction false} LiteralPrefixMatches(text: string, w: string)
    requires Literal(w)
    ensures LikeMatches(text, w + "%") <==> w <= text
    decreases |w|
  {
    if w == [] {
      assert w + "%" == "%";
      PercentMatchesAll(text);
    } else {
      var p := w + "%";
      assert p[0] == w[0] && p[1..] == w[1..] + "%";
      assert Literal(w[1..]) by {
        forall i | 0 <= i < |w[1..]| ensures w[1..][i] != '%' && w[1..][i] != '_' {
          assert w[1..][i] == w[i + 1];
        }
      }
      assert w[0] != '%' && w[0] != '_';
      if text != [] {
        LiteralPrefixMatches(text[1..], w[1..]);
        assert w <= text <==> w[0] == text[0] && w[1..] <= text[1..];
      }
    }
  }

  /** `%w%` with a literal `w` matches exactly the texts containing `w`. */
  lemma {:induction false} LikeContains(text: string, w: string)
    requires Literal(w)
    ensures LikeMatches(text, "%" + w + "%") <==> Contains(text, w)
    decreases |text|
  {
    var p := "%" + w + "%";
    assert p[0] == '%' && p[1..] == w + "%";
    LiteralPrefixMatches(text, w);
    if text != [] {
      LikeContains(text[1..], w);
    }
  }

  /** Any pattern followed by `%` matches a text it starts: in the pattern,
      `%` matches a character `%` and `_` any character. */
  lemma {:induction false} PrefixMatches(text: string, w: string)
    requires w <= text
    ensures LikeMatches(text, w + "%")
    decreases |w|
  {
    if w == [] {
      assert w + "%" == "%";
      PercentMatchesAll(text);
    } else {
      var p := w + "%";
      assert p[0] == w[0] && p[1..] == w[1..] + "%";
      assert w[1..] <= text[1..];
      PrefixMatches(text[1..], w[1..]);
      if w[0] == '%' {
        assert LikeMatches(text[1..], p);
      }
    }
  }

  /** `%w%` matches every text containing `w`, wildcards in `w` or not. */
  lemma {:induction false} ContainsMatches(text: string, w: string)
    requires Contains(text, w)
    ensures LikeMatches(text, "%" + w + "%")
    decreases |text|
  {
    var p := "%" + w + "%";
    assert p[0] == '%' && p[1..] == w + "%";
    if w <= text {
      PrefixMatches(text, w);
    } else {
      ContainsMatches(text[1..], w);
    }
  }

  /** Folding case creates no wildcard. */
  lemma LowerKeepsLiteral(w: string)
    requires Literal(w)
    ensures Literal(Lower(w))
  {
  }

  // ---------------------------------------------------------------------
  // Conditions

  datatype Condition =
    | NoCondition
    | Equal(field: Name, value: Value)
    | NotEqual(field: Name, value: Value)
    | EqualIgnoreCase(field: Name, text: string)
    | LikeIgnoreCase(field: Name, pattern: string)
    | IsNull(field: Name)
    | InList(field: Name, values: seq<Value>)
    | NotInList(field: Name, values: seq<Value>)
    | LessOrEqual(field: Name, value: Value)
    | GreaterOrEqual(field: Name, value: Value)
    | LessThan(field: Name, value: Value)
    | GreaterThan(field: Name, value: Value)
    | And(left: Condition, right: Condition)
    | Or(left: Condition, right: Condition)
    | AndAll(conditions: seq<Condition>)
    | OrAll(conditions: seq<Condition>)

  /** What a condition does to one row: no restriction at all, or a test
      the row passes or fails. */
  datatype Verdict = Neutral | Satisfied | Violated

  function Test(b: bool): Verdict
  {
    if b then Satisfied else Violated
  }

  /** AND in which "no restriction" is neutral. */
  function Conj(a: Verdict, b: Verdict): Verdict
  {
    if a == Neutral then b
    else if b == Neutral then a
    else if a == Violated || b == Violated then Violated
    else Satisfied
  }

  /** OR in which "no restriction" is neutral. */
  function Disj(a: Verdict, b: Verdict): Verdict
  {
    if a == Neutral then b
    else if b == Neutral then a
    else if a == Satisfied || b == Satisfied then Satisfied
    else Violated
  }

  function ConjAll(s: seq<Verdict>): Verdict
  {
    if s == [] then Neutral else Conj(s[0], ConjAll(s[1..]))
  }

  function DisjAll(s: seq<Verdict>): Verdict
  {
    if s == [] then Neutral else Disj(s[0], DisjAll(s[1..]))
  }

  /** What condition `c` does to `row`. */
  function Sem(c: Condition, row: Row): Verdict
  {
    match c
    case NoCondition => Neutral
    case Equal(f, v) => Test(Cell(row, f) == Some(v))
    case NotEqual(f, v) => Test(Cell(row, f).Some? && Cell(row, f).value != v)
    case EqualIgnoreCase(f, t) =>
      Test(TextCell(row, f).Some? && Lower(TextCell(row, f).value) == Lower(t))
    case LikeIgnoreCase(f, p) =>
      Test(TextCell(row, f).Some? && LikeMatches(Lower(TextCell(row, f).value), Lower(p)))
    case IsNull(f) => Test(Cell(row, f).None?)
    case InList(f, vs) => Test(Cell(row, f).Some? && Cell(row, f).value in vs)
    case NotInList(f, vs) => Test(Cell(row, f).Some? && Cell(row, f).value !in vs)
    case LessOrEqual(f, v) => Test(Cell(row, f).Some? && NotAfter(Cell(row, f).value, v))
    case GreaterOrEqual(f, v) => Test(Cell(row, f).Some? && NotAfter(v, Cell(row, f).value))
    case LessThan(f, v) => Test(Cell(row, f).Some? && Before(Cell(row, f).value, v))
    case GreaterThan(f, v) => Test(Cell(row, f).Some? && Before(v, Cell(row, f).value))
    case And(l, r) => Conj(Sem(l, row), Sem(r, row))
    case Or(l, r) => Disj(Sem(l, row), Sem(r, row))
    case AndAll(cs) => ConjAll(seq(|cs|, i requires 0 <= i < |cs| => Sem(cs[i], row)))
    case OrAll(cs) => DisjAll(seq(|cs|, i requires 0 <= i < |cs| => Sem(cs[i], row)))
  }

  /** Whether a WHERE clause built from `c` keeps `row`. */
  predicate Admits(c: Condition, row: Row)
  {
    Sem(c, row) != Violated
  }

  /** Conditions built from `noCondition()` alone. */
  predicate Unrestricted(c: Condition)
  {
    match c
    case NoCondition => true
    case And(l, r) => Unrestricted(l) && Unrestricted(r)
    case Or(l, r) => Unrestricted(l) && Unrestricted(r)
    case AndAll(cs) => forall i :: 0 <= i < |cs| ==> Unrestricted(cs[i])
    case OrAll(cs) => forall i :: 0 <= i < |cs| ==> Unrestricted(cs[i])
    case _ => false
  }

  lemma {:induction false} ConjAllFacts(s: seq<Verdict>)
    ensures ConjAll(s) == Neutral <==> forall i :: 0 <= i < |s| ==> s[i] == Neutral
    ensures ConjAll(s) != Violated <==> forall i :: 0 <= i < |s| ==> s[i] != Violated
  {
    if s != [] {
      ConjAllFacts(s[1..]);
      assert forall i :: 1 <= i < |s| ==> s[i] == s[1..][i - 1];
    }
  }

  lemma {:induction false} DisjAllFacts(s: seq<Verdict>)
    ensures DisjAll(s) == Neutral <==> forall i :: 0 <= i < |s| ==> s[i] == Neutral
    ensures DisjAll(s) == Satisfied <==> exists i :: 0 <= i < |s| && s[i] == Satisfied
  {
    if s != [] {
      DisjAllFacts(s[1..]);
      assert forall i :: 1 <= i < |s| ==> s[i] == s[1..][i - 1];
      if DisjAll(s[1..]) == Satisfied {
        var i :| 0 <= i < |s[1..]| && s[1..][i] == Satisfied;
        assert s[i + 1] == Satisfied;
      }
    }
  }

  /** A condition places no restriction on a row exactly when it is built
      from `noCondition()` alone, whatever the row. */
  lemma {:induction false} UnrestrictedMeansNoRestriction(c: Condition, row: Row)
    ensures Sem(c, row) == Neutral <==> Unrestricted(c)
    decreases c
  {
    match c
    case And(l, r) =>
      UnrestrictedMeansNoRestriction(l, row);
      UnrestrictedMeansNoRestriction(r, row);
    case Or(l, r) =>
      UnrestrictedMeansNoRestriction(l, row);
      UnrestrictedMeansNoRestriction(r, row);
    case AndAll(cs) =>
      var s := seq(|cs|, i requires 0 <= i < |cs| => Sem(cs[i], row));
      forall i | 0 <= i < |cs| ensures s[i] == Neutral <==> Unrestricted(cs[i]) {
        UnrestrictedMeansNoRestriction(cs[i], row);
      }
      ConjAllFacts(s);
    case OrAll(cs) =>
      var s := seq(|cs|, i requires 0 <= i < |cs| => Sem(cs[i], row));
      forall i | 0 <= i < |cs| ensures s[i] == Neutral <==> Unrestricted(cs[i]) {
        UnrestrictedMeansNoRestriction(cs[i], row);
      }
      DisjAllFacts(s);
    case _ =>
  }

  /** AND of two conditions keeps the rows both keep. */
  lemma AndAdmits(l: Condition, r: Condition)
    ensures forall row :: Admits(And(l, r), row) <==> Admits(l, row) && Admits(r, row)
  {
  }

  /** OR of two conditions: an unrestricted side drops out. */
  lemma OrAdmits(l: Condition, r: Condition)
    ensures forall row :: Admits(Or(l, r), row) <==>
      if Unrestricted(l) then Admits(r, row)
      else if Unrestricted(r) then Admits(l, row)
      else Admits(l, row) || Admits(r, row)
  {
    forall row ensures Admits(Or(l, r), row) <==>
      if Unrestricted(l) then Admits(r, row)
      else if Unrestricted(r) then Admits(l, row)
      else Admits(l, row) || Admits(r, row)
    {
      UnrestrictedMeansNoRestriction(l, row);
      UnrestrictedMeansNoRestriction(r, row);
    }
  }

  /** AND over a list keeps the rows every member keeps. */
  lemma AndAllAdmits(cs: seq<Condition>)
    ensures forall row :: Admits(AndAll(cs), row) <==> forall i :: 0 <= i < |cs| ==> Admits(cs[i], row)
  {
    forall row ensures Admits(AndAll(cs), row) <==> forall i :: 0 <= i < |cs| ==> Admits(cs[i], row) {
      var s := seq(|cs|, i requires 0 <= i < |cs| => Sem(cs[i], row));
      assert Sem(AndAll(cs), row) == ConjAll(s);
      ConjAllFacts(s);
      assert forall i :: 0 <= i < |cs| ==> s[i] == Sem(cs[i], row);
    }
  }

  /** OR over a list keeps every row when each member is unrestricted, and
      otherwise the rows that some restricting member keeps. */
  lemma OrAllAdmits(cs: seq<Condition>)
    ensures forall row :: Admits(OrAll(cs), row) <==>
      (forall i :: 0 <= i < |cs| ==> Unrestricted(cs[i])) ||
      (exists i :: 0 <= i < |cs| && !Unrestricted(cs[i]) && Admits(cs[i], row))
  {
    forall row ensures Admits(OrAll(cs), row) <==>
      (forall i :: 0 <= i < |cs| ==> Unrestricted(cs[i])) ||
      (exists i :: 0 <= i < |cs| && !Unrestricted(cs[i]) && Admits(cs[i], row))
    {
      var s := seq(|cs|, i requires 0 <= i < |cs| => Sem(cs[i], row));
      forall i | 0 <= i < |cs|
        ensures s[i] == Neutral <==> Unrestricted(cs[i])
        ensures s[i] == Satisfied <==> !Unrestricted(cs[i]) && Admits(cs[i], row)
      {
        assert s[i] == Sem(cs[i], row);
        UnrestrictedMeansNoRestriction(cs[i], row);
      }
      assert Sem(OrAll(cs), row) == DisjAll(s);
      DisjAllFacts(s);
      if exists i :: 0 <= i < |cs| && !Unrestricted(cs[i]) && Admits(cs[i], row) {
        var i :| 0 <= i < |cs| && !Unrestricted(cs[i]) && Admits(cs[i], row);
        assert s[i] == Satisfied;
      }
      if DisjAll(s) == Satisfied {
        var i :| 0 <= i < |s| && s[i] == Satisfied;
        assert !Unrestricted(cs[i]) && Admits(cs[i], row);
      }
    }
  }
}
