# SportCoach condition helpers, modelled in Dafny

SportCoach's jOOQ module has a small library of filter helpers in
`ConditionHelpers.kt`. A caller passes each helper a filter value that may
be null, a collection that may be null or empty, or a list of
sub-conditions. The helper then either builds one SQL predicate (`=`, `<>`,
`IS NULL`, case-insensitive `=`, `ILIKE '%v%'`, `IN`, `NOT IN`, `<=`,
`>=`, a range test, `AND`, `OR`) or returns jOOQ's `noCondition()`. That
way a search form can pass every field it has, and the absent ones restrict
nothing.

The project has three modules:

- `Wrappers` (`wrappers.dfy`): `Option`. Kotlin's `null` is `None`.
- `Sql` (`sql.dfy`): the part of jOOQ the helpers build on.
  - `Condition` is a syntax tree over field names. `Value` has one
    constructor per kind of value the model compares. A row maps field names
    to values, and a field the row does not map is NULL.
  - `Sem(c, row)` evaluates a condition on one row. It gives `Neutral` for
    a condition that restricts nothing, otherwise `Satisfied` or
    `Violated`. `Admits(c, row)` says whether a WHERE clause built from `c`
    keeps the row.
  - `noCondition()` is neutral inside `AND` and `OR`, as it is in jOOQ. So
    `or(noCondition(), c)` keeps what `c` keeps, not every row.
    `Unrestricted(c)` recognises conditions built from `noCondition()`
    alone. `UnrestrictedMeansNoRestriction` proves these are exactly the
    conditions whose verdict is `Neutral`, on every row.
  - A comparison with a NULL cell is not satisfied. In SQL, every
    comparison on a NULL cell is UNKNOWN: `=`, `<>`, `lower(f) = lower(v)`,
    LIKE, `IN`, `NOT IN`, `<=`, `>=`, `<` and `>`. A WHERE clause drops
    such a row. `IS NULL` is TRUE or FALSE on every cell, and the model
    reads it the same way. List values are never NULL. No constructor
    negates a compound condition. AND and OR keep exactly what their parts
    say. So reading UNKNOWN as false keeps exactly the rows SQL keeps.
  - `LikeMatches` gives the meaning of a LIKE pattern: `%` matches any run,
    `_` matches any one character. `Lower` folds case.
- `ConditionHelpers` (`condition_helpers.dfy`): one function per helper,
  plus lemmas about what each keeps.
  - Every helper's contract says when it returns `NoCondition`, which
    predicate it returns otherwise, and, for every row, which rows that
    predicate keeps.
  - Overloads get their own names. `InCollection`/`InValues` are the
    nullable collection and vararg forms of `in`, and
    `NotInCollection`/`NotInValues` those of `notIn`. There are four
    `between` forms: `DateBetween`, `DateTimeBetween`, `BetweenDateTimes`,
    and the `OffsetDateTime` form. That last one is modelled twice, as
    written (`BetweenOffsetDateTimesAsWritten`) and as documented
    (`BetweenOffsetDateTimes`); see "## Findings".
  - The collection and vararg forms of `and` and `or` have the same body.
    Each pair is modelled by one function, `AndOfAll` or `OrOfAll`.

Dates and times are whole numbers wrapped in `Date`, `DateTime` or
`OffsetDateTime`. An `OffsetDateTime` is compared by the instant it
denotes. Values of different types are never ordered. A non-text cell
never passes a text comparison.

## Model

| member | source | states |
|---|---|---|
| `ConditionHelpers.Eq` | sportcoach-jooq/src/main/kotlin/com/techsolutions/sportcoach/ConditionHelpers.kt:35 | no condition exactly when the value is null; otherwise equality with that value, which keeps exactly the rows whose cell holds it |
| `ConditionHelpers.EqOrNull` | sportcoach-jooq/src/main/kotlin/com/techsolutions/sportcoach/ConditionHelpers.kt:56-61 | never unrestricted; `IS NULL` for a null value and equality otherwise; keeps exactly the rows whose cell equals the value, NULL included |
| `ConditionHelpers.EqIgnoreCase` | sportcoach-jooq/src/main/kotlin/com/techsolutions/sportcoach/ConditionHelpers.kt:71-72 | no condition exactly when the value is null; otherwise keeps the rows whose text equals the value up to case |
| `ConditionHelpers.Ne` | sportcoach-jooq/src/main/kotlin/com/techsolutions/sportcoach/ConditionHelpers.kt:82 | no condition exactly when the value is null; otherwise keeps the rows with a non-NULL cell different from the value |
| `ConditionHelpers.NeComplementsEq` | sportcoach-jooq/src/main/kotlin/com/techsolutions/sportcoach/ConditionHelpers.kt:82 | on a non-NULL cell, `ne` keeps exactly the rows `eq` drops |
| `ConditionHelpers.ILike` | sportcoach-jooq/src/main/kotlin/com/techsolutions/sportcoach/ConditionHelpers.kt:90-91 | no condition exactly when the value is null; otherwise a case-insensitive LIKE with pattern `%` + value + `%` |
| `ConditionHelpers.ILikeContains` | sportcoach-jooq/src/main/kotlin/com/techsolutions/sportcoach/ConditionHelpers.kt:90-91 | for a value without `%` or `_`, keeps exactly the rows whose text contains the value, ignoring case |
| `ConditionHelpers.ILikeKeepsContainingRows` | sportcoach-jooq/src/main/kotlin/com/techsolutions/sportcoach/ConditionHelpers.kt:90-91 | for any value, wildcards included, keeps every row whose text contains the value, ignoring case |
| `ConditionHelpers.ILikeWildcardInValue` | sportcoach-jooq/src/main/kotlin/com/techsolutions/sportcoach/ConditionHelpers.kt:90-91 | the value is not escaped: `a_c` keeps a row holding `abc`, which does not contain `a_c` |
| `ConditionHelpers.InCollection` | sportcoach-jooq/src/main/kotlin/com/techsolutions/sportcoach/ConditionHelpers.kt:101-106 | no condition exactly when the collection is null or empty; otherwise `IN` over exactly those values in order, keeping the rows whose cell is one of them |
| `ConditionHelpers.InValues` | sportcoach-jooq/src/main/kotlin/com/techsolutions/sportcoach/ConditionHelpers.kt:116-121 | no condition exactly when no values are given; otherwise `IN` over exactly those values, keeping the rows whose cell is one of them |
| `ConditionHelpers.NotInCollection` | sportcoach-jooq/src/main/kotlin/com/techsolutions/sportcoach/ConditionHelpers.kt:131-136 | no condition exactly when the collection is null or empty; otherwise `NOT IN` over exactly those values, keeping the rows with a non-NULL cell outside them |
| `ConditionHelpers.NotInValues` | sportcoach-jooq/src/main/kotlin/com/techsolutions/sportcoach/ConditionHelpers.kt:146-151 | no condition exactly when no values are given; otherwise `NOT IN` over exactly those values, keeping the rows with a non-NULL cell outside them |
| `ConditionHelpers.InAndNotInAgree` | sportcoach-jooq/src/main/kotlin/com/techsolutions/sportcoach/ConditionHelpers.kt:101-151 | the collection and vararg forms build the same condition from the same values; on a non-NULL cell and non-empty values, `notIn` keeps exactly what `in` drops |
| `ConditionHelpers.DateBetween` | sportcoach-jooq/src/main/kotlin/com/techsolutions/sportcoach/ConditionHelpers.kt:161 | no condition exactly when the date is null; otherwise `from <= date AND to >= date`, which drops every row missing a bound |
| `ConditionHelpers.DateBetweenInRange` | sportcoach-jooq/src/main/kotlin/com/techsolutions/sportcoach/ConditionHelpers.kt:161 | on date bounds `a` and `b`, keeps the row exactly when `a <= date <= b` |
| `ConditionHelpers.DateNotBetween` | sportcoach-jooq/src/main/kotlin/com/techsolutions/sportcoach/ConditionHelpers.kt:171 | no condition exactly when the date is null; otherwise `from > date OR to < date`, which drops a row missing both bounds |
| `ConditionHelpers.NotBetweenNegatesBetween` | sportcoach-jooq/src/main/kotlin/com/techsolutions/sportcoach/ConditionHelpers.kt:161-171 | on rows with both bounds present, `notBetween` keeps the row exactly when the date is outside `a..b`, the exact negation of `between` |
| `ConditionHelpers.NotBetweenWithOneBound` | sportcoach-jooq/src/main/kotlin/com/techsolutions/sportcoach/ConditionHelpers.kt:161-171 | on a row with exactly one bound present, `between` drops the row; `notBetween` keeps it exactly when that bound alone excludes the date |
| `ConditionHelpers.NegationStopsAtMissingBound` | sportcoach-jooq/src/main/kotlin/com/techsolutions/sportcoach/ConditionHelpers.kt:161-171 | with `from` NULL and `to` = 7, neither `between(5)` nor `notBetween(5)` keeps the row, so the negation does not reach such rows |
| `ConditionHelpers.DateTimeBetween` | sportcoach-jooq/src/main/kotlin/com/techsolutions/sportcoach/ConditionHelpers.kt:181-182 | no condition exactly when the point is null; otherwise `from <= point AND to >= point`, which drops every row missing a bound |
| `ConditionHelpers.DateTimeBetweenInRange` | sportcoach-jooq/src/main/kotlin/com/techsolutions/sportcoach/ConditionHelpers.kt:181-182 | on date-time bounds `a` and `b`, keeps the row exactly when `a <= point <= b` |
| `ConditionHelpers.BetweenDateTimes` | sportcoach-jooq/src/main/kotlin/com/techsolutions/sportcoach/ConditionHelpers.kt:192-197 | no condition exactly when either bound is null; otherwise a range test that drops rows with a NULL field |
| `ConditionHelpers.BetweenDateTimesInRange` | sportcoach-jooq/src/main/kotlin/com/techsolutions/sportcoach/ConditionHelpers.kt:192-197 | keeps a row exactly when `from <= field <= to` |
| `ConditionHelpers.BetweenOffsetDateTimesAsWritten` | sportcoach-jooq/src/main/kotlin/com/techsolutions/sportcoach/ConditionHelpers.kt:207-212 | the code as written: no condition exactly when either bound is null; otherwise `field <= from AND field >= to` |
| `ConditionHelpers.AsWrittenRangeIsSwapped` | sportcoach-jooq/src/main/kotlin/com/techsolutions/sportcoach/ConditionHelpers.kt:207-212 | the code as written keeps a row exactly when `to <= field <= from` |
| `ConditionHelpers.BetweenOffsetDateTimes` | sportcoach-jooq/src/main/kotlin/com/techsolutions/sportcoach/ConditionHelpers.kt:199-206 | the documented behaviour: no condition exactly when either bound is null; otherwise a range test that drops rows with a NULL field |
| `ConditionHelpers.BetweenOffsetDateTimesInRange` | sportcoach-jooq/src/main/kotlin/com/techsolutions/sportcoach/ConditionHelpers.kt:199-206 | the documented form keeps a row exactly when `from <= field <= to` |
| `ConditionHelpers.AsWrittenAgreesOnlyWhenBoundsEqual` | sportcoach-jooq/src/main/kotlin/com/techsolutions/sportcoach/ConditionHelpers.kt:199-212 | code and documentation keep the same rows when `from == to`; for any other bounds, a row holding `from` is kept by exactly one of them |
| `ConditionHelpers.AsWrittenMissesInteriorPoint` | sportcoach-jooq/src/main/kotlin/com/techsolutions/sportcoach/ConditionHelpers.kt:199-212 | with bounds 0 and 10, the documented range keeps a row holding 5 and the code drops it |
| `ConditionHelpers.Goe` | sportcoach-jooq/src/main/kotlin/com/techsolutions/sportcoach/ConditionHelpers.kt:222-227 | no condition exactly when the value is null; otherwise keeps the rows whose non-NULL cell is at least the value |
| `ConditionHelpers.Loe` | sportcoach-jooq/src/main/kotlin/com/techsolutions/sportcoach/ConditionHelpers.kt:237-242 | no condition exactly when the value is null; otherwise keeps the rows whose non-NULL cell is at most the value |
| `ConditionHelpers.GoeAndLoeIsEq` | sportcoach-jooq/src/main/kotlin/com/techsolutions/sportcoach/ConditionHelpers.kt:222-242 | `goe` AND `loe` at one value keep exactly what `eq` keeps; this needs `<=` to be antisymmetric, on text too |
| `ConditionHelpers.OrOf` | sportcoach-jooq/src/main/kotlin/com/techsolutions/sportcoach/ConditionHelpers.kt:256 | combines `left` and `right` directly; keeps what either keeps, and a side built from `noCondition()` alone drops out |
| `ConditionHelpers.OrOfAll` | sportcoach-jooq/src/main/kotlin/com/techsolutions/sportcoach/ConditionHelpers.kt:264-282 | no condition exactly when there are no conditions; otherwise OR over exactly those conditions, keeping every row when none restricts and otherwise the rows some restricting member keeps |
| `ConditionHelpers.AndOf` | sportcoach-jooq/src/main/kotlin/com/techsolutions/sportcoach/ConditionHelpers.kt:291 | combines `left` and `right` directly; keeps the rows both keep |
| `ConditionHelpers.AndOfAll` | sportcoach-jooq/src/main/kotlin/com/techsolutions/sportcoach/ConditionHelpers.kt:299-317 | no condition exactly when there are no conditions; otherwise AND over exactly those conditions, keeping the rows every member keeps |
| `ConditionHelpers.OrWithAbsentFilter` | sportcoach-jooq/src/main/kotlin/com/techsolutions/sportcoach/ConditionHelpers.kt:256 | OR with `noCondition()` on either side keeps exactly what the other side keeps |

## Findings

| source | as written | input that shows it | evidently intended | confidence | as-written member | corrected member |
|---|---|---|---|---|---|---|
| sportcoach-jooq/src/main/kotlin/com/techsolutions/sportcoach/ConditionHelpers.kt:207-212 | the `OffsetDateTime` form of `between(field, from, to)` builds `field <= from AND field >= to` | `from` = 0, `to` = 10, field = 5: the documented range holds it, the condition drops it | `field <= to AND field >= from`, as in the doc comment (lines 199-206) and the `LocalDateTime` form (lines 192-197) | high (not executed) | `ConditionHelpers.BetweenOffsetDateTimesAsWritten` (with `AsWrittenRangeIsSwapped`, `AsWrittenAgreesOnlyWhenBoundsEqual`, `AsWrittenMissesInteriorPoint`) | `ConditionHelpers.BetweenOffsetDateTimes` (with `BetweenOffsetDateTimesInRange`) |

## Left out

- The subquery overload `eq(field, select)` (line 45) is not modelled: what it keeps depends on running a query.
- jOOQ's rendering of conditions to SQL text is not modelled. Conditions are a syntax tree, and `Sem` gives their meaning.
- Real date and time types are not modelled. Dates and times are whole numbers, and time zones and sub-unit precision are not kept.
- Locale-aware case folding is not modelled. `Lower` folds ASCII letters only.
- LIKE escape characters are not modelled. `LikeMatches` has no escape character.
- Text ordering is lexicographic on character codes. Database collations are not modelled.
- Null elements inside `IN` and `NOT IN` lists are not modelled: list values are non-null.
- SQL's three-valued logic is collapsed to two values. The collapse is exact for the conditions modelled here. On a NULL cell every comparison (`=`, `<>`, `lower(f) = lower(v)`, LIKE, `IN`, `NOT IN`, `<=`, `>=`, `<`, `>`) is UNKNOWN, and the model drops the row. `IS NULL` is TRUE or FALSE, and the model reads it the same way. List values are non-null. No helper negates a compound condition.
- Column types other than whole numbers, text and the three date-time types are not modelled. The generic helpers (lines 35, 56, 82, 101-151 and 222-242) accept a field of any type. Decimals, floating point, booleans, UUIDs, enums and the rest are left out, and `Value` has no constructor for them.
- jOOQ's simplification of combined conditions is not modelled. `left.or(right)`, `left.and(right)`, `DSL.or` and `DSL.and` drop `noCondition()` operands when they build the condition. The syntactic `ensures` of `OrOf`, `OrOfAll`, `AndOf` and `AndOfAll` give the shape the helper's own code builds: `OrOfAll([NoCondition])` is `OrAll([NoCondition])`, where jOOQ would give `noCondition()`. `Sem` agrees with the simplified form, because `noCondition()` is neutral (`UnrestrictedMeansNoRestriction`, `OrWithAbsentFilter`).
- `OrOf`, `OrOfAll`, `AndOf` and `AndOfAll` take only conditions of the `Condition` tree. The source's `and`/`or` (lines 256-317) accept any jOOQ `Condition`, `DSL.not(…)` included, and the tree cannot express those. Their lemmas would still hold for such arguments, because AND and OR in three-valued logic keep exactly what their parts say.
- Field types are not checked: a field is a name and a row may hold any value under it. A wrongly typed cell never equals the value and is never ordered against it.
- The rest of the repository is not part of this model: the REST controller, the user service, the JDBC data access and row mapping, the JWT utility and the application bootstrap. These are framework glue, SQL execution and calls into the jjwt library.
