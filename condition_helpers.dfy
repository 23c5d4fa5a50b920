/**
 * The condition helpers of the jOOQ module: each helper builds one SQL
 * predicate from a filter value that may be null, or returns
 * `NoCondition` so that an absent filter restricts nothing.
 *
 * Kotlin's `null` is `None`; a nullable collection is an `Option<seq<…>>`;
 * a vararg parameter is a `seq`. `LocalDate`, `LocalDateTime` and
 * `OffsetDateTime` arguments are whole numbers wrapped in the matching
 * `Value` constructor.
 */
module ConditionHelpers {
  import opened Wrappers
  import opened Sql

  // ---------------------------------------------------------------------
  // Comparisons with one value

  /** `eq(field, value)`: equality, or no condition for a null value. */
  function Eq(field: Name, value: Option<Value>): (c: Condition)
    ensures c == NoCondition <==> value.None?
    ensures value.Some? ==> c == Equal(field, value.value)
    ensures forall row :: Admits(c, row) <==> value.None? || Cell(row, field) == value
  {
    if value.Some? then Equal(field, value.value) else NoCondition
  }

  /** `eqOrNull(field, value)`: never unrestricted; a null value asks for
      a NULL cell. */
  function EqOrNull(field: Name, value: Option<Value>): (c: Condition)
    ensures c != NoCondition && !Unrestricted(c)
    ensures value.None? ==> c == IsNull(field)
    ensures value.Some? ==> c == Equal(field, value.value)
    ensures forall row :: Admits(c, row) <==> Cell(row, field) == value
  {
    if value.Some? then Equal(field, value.value) else IsNull(field)
  }

  /** `eqIgnoreCase(field, value)`: case-insensitive text equality. */
  function EqIgnoreCase(field: Name, value: Option<string>): (c: Condition)
    ensures c == NoCondition <==> value.None?
    ensures value.Some? ==> c == EqualIgnoreCase(field, value.value)
    ensures forall row :: Admits(c, row) <==>
      value.None? || (TextCell(row, field).Some? && Lower(TextCell(row, field).value) == Lower(value.value))
  {
    match value
    case Some(v) => EqualIgnoreCase(field, v)
    case None => NoCondition
  }

  /** `ne(field, value)`: inequality; a NULL cell never passes it. */
  function Ne(field: Name, value: Option<Value>): (c: Condition)
    ensures c == NoCondition <==> value.None?
    ensures value.Some? ==> c == NotEqual(field, value.value)
    ensures forall row :: Admits(c, row) <==>
      value.None? || (Cell(row, field).Some? && Cell(row, field) != value)
  {
    match value
    case Some(v) => NotEqual(field, v)
    case None => NoCondition
  }

  /** On a non-NULL cell, `ne` keeps exactly the rows `eq` drops. */
  lemma NeComplementsEq(field: Name, v: Value, row: Row)
    requires field in row
    ensures Admits(Ne(field, Some(v)), row) <==> !Admits(Eq(field, Some(v)), row)
  {
  }

  /** `ilike(field, value)`: the pattern `%value%`, matched ignoring case. */
  function ILike(field: Name, value: Option<string>): (c: Condition)
    ensures c == NoCondition <==> value.None?
    ensures value.Some? ==> c == LikeIgnoreCase(field, "%" + value.value + "%")
  {
    match value
    case Some(v) => LikeIgnoreCase(field, "%" + v + "%")
    case None => NoCondition
  }

  /** For a value without LIKE wildcards, `ilike` keeps exactly the rows
      whose text contains the value, ignoring case. */
  lemma ILikeContains(field: Name, value: string, row: Row)
    requires Literal(value)
    ensures Admits(ILike(field, Some(value)), row) <==>
      TextCell(row, field).Some? && Contains(Lower(TextCell(row, field).value), Lower(value))
  {
    assert Lower("%" + value + "%") == "%" + Lower(value) + "%";
    LowerKeepsLiteral(value);
    if TextCell(row, field).Some? {
      LikeContains(Lower(TextCell(row, field).value), Lower(value));
    }
  }

  /** Whatever the value, wildcards included, `ilike` keeps every row whose
      text contains the value, ignoring case. */
  lemma ILikeKeepsContainingRows(field: Name, value: string, row: Row)
    requires TextCell(row, field).Some? && Contains(Lower(TextCell(row, field).value), Lower(value))
    ensures Admits(ILike(field, Some(value)), row)
  {
    assert Lower("%" + value + "%") == "%" + Lower(value) + "%";
    ContainsMatches(Lower(TextCell(row, field).value), Lower(value));
  }

  /** The value is not escaped: `_` in it matches any character, so `ilike`
      keeps a row whose text does not contain the value. */
  lemma ILikeWildcardInValue()
    ensures Admits(ILike("name", Some("a_c")), map["name" := Text("abc")])
    ensures !Contains("abc", "a_c")
  {
    var row := map["name" := Text("abc")];
    assert ILike("name", Some("a_c")) == LikeIgnoreCase("name", "%a_c%");
    assert TextCell(row, "name") == Some("abc");
    assert Lower("%a_c%") == "%a_c%";
    assert Lower("abc") == "abc";
    assert LikeMatches("", "");
    assert LikeMatches("", "%");
    assert LikeMatches("c", "c%");
    assert LikeMatches("bc", "_c%");
    assert LikeMatches("abc", "a_c%");
    assert LikeMatches("abc", "%a_c%");
    assert Sem(LikeIgnoreCase("name", "%a_c%"), row) == Satisfied;
  }

  /** `goe(field, value)`: `field >= value`, or no condition. */
  function Goe(field: Name, value: Option<Value>): (c: Condition)
    ensures c == NoCondition <==> value.None?
    ensures value.Some? ==> c == GreaterOrEqual(field, value.value)
    ensures forall row :: Admits(c, row) <==>
      value.None? || (Cell(row, field).Some? && NotAfter(value.value, Cell(row, field).value))
  {
    if value.Some? then GreaterOrEqual(field, value.value) else NoCondition
  }

  /** `loe(field, value)`: `field <= value`, or no condition. */
  function Loe(field: Name, value: Option<Value>): (c: Condition)
    ensures c == NoCondition <==> value.None?
    ensures value.Some? ==> c == LessOrEqual(field, value.value)
    ensures forall row :: Admits(c, row) <==>
      value.None? || (Cell(row, field).Some? && NotAfter(Cell(row, field).value, value.value))
  {
    if value.Some? then LessOrEqual(field, value.value) else NoCondition
  }

  /** `goe` and `loe` at the same value together keep exactly what `eq`
      keeps. */
  lemma GoeAndLoeIsEq(field: Name, value: Option<Value>, row: Row)
    ensures Admits(AndOf(Goe(field, value), Loe(field, value)), row) <==> Admits(Eq(field, value), row)
  {
    if value.Some? && Cell(row, field).Some? {
      var x := Cell(row, field).value;
      if NotAfter(value.value, x) && NotAfter(x, value.value) {
        NotAfterAntisymmetric(x, value.value);
      }
    }
  }

  // ---------------------------------------------------------------------
  // IN and NOT IN

  /** `in(field, values)` over a nullable collection. */
  function InCollection(field: Name, values: Option<seq<Value>>): (c: Condition)
    ensures c == NoCondition <==> values.None? || values.value == []
    ensures values.Some? && values.value != [] ==> c == InList(field, values.value)
    ensures forall row :: Admits(c, row) <==>
      values.None? || values.value == [] || (Cell(row, field).Some? && Cell(row, field).value in values.value)
  {
    if values.Some? && values.value != [] then InList(field, values.value) else NoCondition
  }

  /** `in(field, vararg values)`. */
  function InValues(field: Name, values: seq<Value>): (c: Condition)
    ensures c == NoCondition <==> values == []
    ensures values != [] ==> c == InList(field, values)
    ensures forall row :: Admits(c, row) <==>
      values == [] || (Cell(row, field).Some? && Cell(row, field).value in values)
  {
    if values != [] then InList(field, values) else NoCondition
  }

  /** `notIn(field, values)` over a nullable collection. */
  function NotInCollection(field: Name, values: Option<seq<Value>>): (c: Condition)
    ensures c == NoCondition <==> values.None? || values.value == []
    ensures values.Some? && values.value != [] ==> c == NotInList(field, values.value)
    ensures forall row :: Admits(c, row) <==>
      values.None? || values.value == [] || (Cell(row, field).Some? && Cell(row, field).value !in values.value)
  {
    if values.Some? && values.value != [] then NotInList(field, values.value) else NoCondition
  }

  /** `notIn(field, vararg values)`. */
  function NotInValues(field: Name, values: seq<Value>): (c: Condition)
    ensures c == NoCondition <==> values == []
    ensures values != [] ==> c == NotInList(field, values)
    ensures forall row :: Admits(c, row) <==>
      values == [] || (Cell(row, field).Some? && Cell(row, field).value !in values)
  {
    if values != [] then NotInList(field, values) else NoCondition
  }

  /** The collection and vararg forms agree on a non-null collection, and on
      a non-NULL cell `notIn` keeps exactly the rows `in` drops. */
  lemma InAndNotInAgree(field: Name, values: seq<Value>, row: Row)
    ensures InCollection(field, Some(values)) == InValues(field, values)
    ensures NotInCollection(field, Some(values)) == NotInValues(field, values)
    ensures field in row && values != [] ==>
      (Admits(NotInValues(field, values), row) <==> !Admits(InValues(field, values), row))
  {
  }

  // ---------------------------------------------------------------------
  // Ranges

  /** `between(date, from, to)` for a `LocalDate`: the point lies between
      the two fields. */
  function DateBetween(date: Option<int>, from: Name, to: Name): (c: Condition)
    ensures c == NoCondition <==> date.None?
    ensures date.Some? ==> c == And(LessOrEqual(from, Date(date.value)), GreaterOrEqual(to, Date(date.value)))
    ensures forall row :: date.Some? && (from !in row || to !in row) ==> !Admits(c, row)
  {
    match date
    case Some(d) =>
      AndAdmits(LessOrEqual(from, Date(d)), GreaterOrEqual(to, Date(d)));
      And(LessOrEqual(from, Date(d)), GreaterOrEqual(to, Date(d)))
    case None => NoCondition
  }

  lemma DateBetweenInRange(d: int, from: Name, to: Name, row: Row, a: int, b: int)
    requires Cell(row, from) == Some(Date(a)) && Cell(row, to) == Some(Date(b))
    ensures Admits(DateBetween(Some(d), from, to), row) <==> a <= d <= b
  {
    AndAdmits(LessOrEqual(from, Date(d)), GreaterOrEqual(to, Date(d)));
  }

  /** `notBetween(date, from, to)` for a `LocalDate`. */
  function DateNotBetween(date: Option<int>, from: Name, to: Name): (c: Condition)
    ensures c == NoCondition <==> date.None?
    ensures date.Some? ==> c == Or(GreaterThan(from, Date(date.value)), LessThan(to, Date(date.value)))
    ensures forall row :: date.Some? && from !in row && to !in row ==> !Admits(c, row)
  {
    match date
    case Some(d) =>
      OrAdmits(GreaterThan(from, Date(d)), LessThan(to, Date(d)));
      Or(GreaterThan(from, Date(d)), LessThan(to, Date(d)))
    case None => NoCondition
  }

  /** On rows with both bounds present, `notBetween` is the exact negation
      of `between`. */
  lemma NotBetweenNegatesBetween(d: int, from: Name, to: Name, row: Row, a: int, b: int)
    requires Cell(row, from) == Some(Date(a)) && Cell(row, to) == Some(Date(b))
    ensures Admits(DateNotBetween(Some(d), from, to), row) <==> d < a || b < d
    ensures Admits(DateNotBetween(Some(d), from, to), row) <==> !Admits(DateBetween(Some(d), from, to), row)
  {
    OrAdmits(GreaterThan(from, Date(d)), LessThan(to, Date(d)));
    AndAdmits(LessOrEqual(from, Date(d)), GreaterOrEqual(to, Date(d)));
  }

  /** On a row with exactly one bound present, `between` drops the row and
      `notBetween` keeps it exactly when that bound alone excludes the date. */
  lemma NotBetweenWithOneBound(d: int, from: Name, to: Name, row: Row)
    requires (from in row) != (to in row)
    ensures !Admits(DateBetween(Some(d), from, to), row)
    ensures Admits(DateNotBetween(Some(d), from, to), row) <==>
      (from in row && Before(Date(d), row[from])) || (to in row && Before(row[to], Date(d)))
  {
    OrAdmits(GreaterThan(from, Date(d)), LessThan(to, Date(d)));
    AndAdmits(LessOrEqual(from, Date(d)), GreaterOrEqual(to, Date(d)));
  }

  /** Where the negation stops: with `from` NULL and `to` = 7, neither
      `between(5)` nor `notBetween(5)` keeps the row. */
  lemma NegationStopsAtMissingBound()
    ensures !Admits(DateBetween(Some(5), "from", "to"), map["to" := Date(7)])
    ensures !Admits(DateNotBetween(Some(5), "from", "to"), map["to" := Date(7)])
  {
    NotBetweenWithOneBound(5, "from", "to", map["to" := Date(7)]);
  }

  /** `between(dateTime, from, to)` for a `LocalDateTime` point. */
  function DateTimeBetween(dateTime: Option<int>, from: Name, to: Name): (c: Condition)
    ensures c == NoCondition <==> dateTime.None?
    ensures dateTime.Some? ==>
      c == And(LessOrEqual(from, DateTime(dateTime.value)), GreaterOrEqual(to, DateTime(dateTime.value)))
    ensures forall row :: dateTime.Some? && (from !in row || to !in row) ==> !Admits(c, row)
  {
    match dateTime
    case Some(t) =>
      AndAdmits(LessOrEqual(from, DateTime(t)), GreaterOrEqual(to, DateTime(t)));
      And(LessOrEqual(from, DateTime(t)), GreaterOrEqual(to, DateTime(t)))
    case None => NoCondition
  }

  lemma DateTimeBetweenInRange(t: int, from: Name, to: Name, row: Row, a: int, b: int)
    requires Cell(row, from) == Some(DateTime(a)) && Cell(row, to) == Some(DateTime(b))
    ensures Admits(DateTimeBetween(Some(t), from, to), row) <==> a <= t <= b
  {
    AndAdmits(LessOrEqual(from, DateTime(t)), GreaterOrEqual(to, DateTime(t)));
  }

  /** `between(field, from, to)` for `LocalDateTime` bounds: no condition
      unless both bounds are given. */
  function BetweenDateTimes(field: Name, from: Option<int>, to: Option<int>): (c: Condition)
    ensures c == NoCondition <==> from.None? || to.None?
    ensures from.Some? && to.Some? ==>
      c == And(LessOrEqual(field, DateTime(to.value)), GreaterOrEqual(field, DateTime(from.value)))
    ensures forall row :: from.Some? && to.Some? && field !in row ==> !Admits(c, row)
  {
    if from.Some? && to.Some? then
      AndAdmits(LessOrEqual(field, DateTime(to.value)), GreaterOrEqual(field, DateTime(from.value)));
      And(LessOrEqual(field, DateTime(to.value)), GreaterOrEqual(field, DateTime(from.value)))
    else
      NoCondition
  }

  lemma BetweenDateTimesInRange(field: Name, from: int, to: int, row: Row, x: int)
    requires Cell(row, field) == Some(DateTime(x))
    ensures Admits(BetweenDateTimes(field, Some(from), Some(to)), row) <==> from <= x <= to
  {
    AndAdmits(LessOrEqual(field, DateTime(to)), GreaterOrEqual(field, DateTime(from)));
  }

  /** `between(field, from, to)` for `OffsetDateTime` bounds as the source
      writes it: the field is compared with `<= from` and `>= to`. */
  function BetweenOffsetDateTimesAsWritten(field: Name, from: Option<int>, to: Option<int>): (c: Condition)
    ensures c == NoCondition <==> from.None? || to.None?
    ensures from.Some? && to.Some? ==>
      c == And(LessOrEqual(field, OffsetDateTime(from.value)), GreaterOrEqual(field, OffsetDateTime(to.value)))
  {
    if from.Some? && to.Some? then
      And(LessOrEqual(field, OffsetDateTime(from.value)), GreaterOrEqual(field, OffsetDateTime(to.value)))
    else
      NoCondition
  }

  /** What the source's `OffsetDateTime` form keeps: the range `to..from`. */
  lemma AsWrittenRangeIsSwapped(field: Name, from: int, to: int, row: Row, x: int)
    requires Cell(row, field) == Some(OffsetDateTime(x))
    ensures Admits(BetweenOffsetDateTimesAsWritten(field, Some(from), Some(to)), row) <==> to <= x <= from
  {
    AndAdmits(LessOrEqual(field, OffsetDateTime(from)), GreaterOrEqual(field, OffsetDateTime(to)));
  }

  /** `between(field, from, to)` for `OffsetDateTime` bounds as documented:
      the field lies in `from..to`, like the `LocalDateTime` form. */
  function BetweenOffsetDateTimes(field: Name, from: Option<int>, to: Option<int>): (c: Condition)
    ensures c == NoCondition <==> from.None? || to.None?
    ensures from.Some? && to.Some? ==>
      c == And(LessOrEqual(field, OffsetDateTime(to.value)), GreaterOrEqual(field, OffsetDateTime(from.value)))
    ensures forall row :: from.Some? && to.Some? && field !in row ==> !Admits(c, row)
  {
    if from.Some? && to.Some? then
      AndAdmits(LessOrEqual(field, OffsetDateTime(to.value)), GreaterOrEqual(field, OffsetDateTime(from.value)));
      And(LessOrEqual(field, OffsetDateTime(to.value)), GreaterOrEqual(field, OffsetDateTime(from.value)))
    else
      NoCondition
  }

  lemma BetweenOffsetDateTimesInRange(field: Name, from: int, to: int, row: Row, x: int)
    requires Cell(row, field) == Some(OffsetDateTime(x))
    ensures Admits(BetweenOffsetDateTimes(field, Some(from), Some(to)), row) <==> from <= x <= to
  {
    AndAdmits(LessOrEqual(field, OffsetDateTime(to)), GreaterOrEqual(field, OffsetDateTime(from)));
  }

  /** The source's form keeps the same rows as the documented one exactly
      when `from == to`; otherwise a row holding `from` tells them apart. */
  lemma AsWrittenAgreesOnlyWhenBoundsEqual(field: Name, from: int, to: int)
    ensures from == to ==> forall row ::
      Admits(BetweenOffsetDateTimesAsWritten(field, Some(from), Some(to)), row) <==>
      Admits(BetweenOffsetDateTimes(field, Some(from), Some(to)), row)
    ensures from != to ==>
      var row := map[field := OffsetDateTime(from)];
      Admits(BetweenOffsetDateTimesAsWritten(field, Some(from), Some(to)), row) !=
      Admits(BetweenOffsetDateTimes(field, Some(from), Some(to)), row)
  {
    var row := map[field := OffsetDateTime(from)];
    AsWrittenRangeIsSwapped(field, from, to, row, from);
    BetweenOffsetDateTimesInRange(field, from, to, row, from);
  }

  /** A concrete row on which the two forms disagree: 5 lies in 0..10. */
  lemma AsWrittenMissesInteriorPoint()
    ensures Admits(BetweenOffsetDateTimes("at", Some(0), Some(10)), map["at" := OffsetDateTime(5)])
    ensures !Admits(BetweenOffsetDateTimesAsWritten("at", Some(0), Some(10)), map["at" := OffsetDateTime(5)])
  {
  }

  // ---------------------------------------------------------------------
  // Combinations

  /** `or(left, right)`: combined directly; an unrestricted side drops out. */
  function OrOf(left: Condition, right: Condition): (c: Condition)
    ensures c == Or(left, right)
    ensures forall row :: Admits(c, row) <==>
      if Unrestricted(left) then Admits(right, row)
      else if Unrestricted(right) then Admits(left, row)
      else Admits(left, row) || Admits(right, row)
  {
    OrAdmits(left, right);
    Or(left, right)
  }

  /** `or(conditions)` over a collection and `or(vararg conditions)`. */
  function OrOfAll(conditions: seq<Condition>): (c: Condition)
    ensures c == NoCondition <==> conditions == []
    ensures conditions != [] ==> c == OrAll(conditions)
    ensures forall row :: Admits(c, row) <==>
      (forall i :: 0 <= i < |conditions| ==> Unrestricted(conditions[i])) ||
      (exists i :: 0 <= i < |conditions| && !Unrestricted(conditions[i]) && Admits(conditions[i], row))
  {
    OrAllAdmits(conditions);
    if conditions != [] then OrAll(conditions) else NoCondition
  }

  /** `and(left, right)`: combined directly. */
  function AndOf(left: Condition, right: Condition): (c: Condition)
    ensures c == And(left, right)
    ensures forall row :: Admits(c, row) <==> Admits(left, row) && Admits(right, row)
  {
    AndAdmits(left, right);
    And(left, right)
  }

  /** `and(conditions)` over a collection and `and(vararg conditions)`. */
  function AndOfAll(conditions: seq<Condition>): (c: Condition)
    ensures c == NoCondition <==> conditions == []
    ensures conditions != [] ==> c == AndAll(conditions)
    ensures forall row :: Admits(c, row) <==> forall i :: 0 <= i < |conditions| ==> Admits(conditions[i], row)
  {
    AndAllAdmits(conditions);
    if conditions != [] then AndAll(conditions) else NoCondition
  }

  /** An absent filter combined by `or` does not open the query up: the
      other filter alone decides. */
  lemma OrWithAbsentFilter(c: Condition)
    ensures forall row :: Admits(OrOf(NoCondition, c), row) <==> Admits(c, row)
    ensures forall row :: Admits(OrOf(c, NoCondition), row) <==> Admits(c, row)
  {
  }
}
