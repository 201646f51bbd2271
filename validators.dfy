/** The per-column integrity checks: presence, date format, ISO 4217 code and
    the controlled occasion vocabulary, each counted over a table column. */
module Validators {
  import opened Frames

  predicate IsMissing(c: Cell) {
    c.None?
  }

  predicate IsEmptyString(c: Cell) {
    c == Some("")
  }

  /** A cell `count_empty` reports: missing, or exactly the empty string. */
  predicate IsEmptyCell(c: Cell) {
    c.None? || c == Some("")
  }

  /** `count_empty(df, column)`: `isna().sum()` plus `(== '').sum()`. It is
      the number of rows whose cell is missing or exactly `""` (nothing is
      stripped), never exceeds the row count, and is zero exactly when every
      cell holds a non-empty string. */
  function CountEmpty<R>(t: Table<R>, col: R -> Cell): (n: nat)
    ensures n == CountWhere(Column(t, col), IsEmptyCell)
    ensures n <= |t|
    ensures n == 0 <==> forall i :: 0 <= i < |t| ==> col(t[i].row).Some? && col(t[i].row).value != ""
  {
    var cells := Column(t, col);
    CountWhereDisjoint(cells, IsMissing, IsEmptyString, IsEmptyCell);
    CountWhereZero(cells, IsEmptyCell);
    CountWhere(cells, IsMissing) + CountWhere(cells, IsEmptyString)
  }

  /** The test every `count_invalid_*` applies to one cell: a missing cell is
      always a violation, a present one is one when `valid` rejects it. */
  predicate Violates(c: Cell, valid: string -> bool) {
    if c.Some? then !valid(c.value) else true
  }

  /** `count_invalid_dates` / `count_invalid_iso_4217`: the number of rows whose
      cell is missing or rejected by the checker. Missing cells are all counted,
      the count is bounded by the row count, and it is zero exactly when every
      cell is present and accepted. */
  function CountInvalid<R>(t: Table<R>, col: R -> Cell, valid: string -> bool): (n: nat)
    ensures n <= |t|
    ensures CountWhere(Column(t, col), IsMissing) <= n
    ensures n == 0 <==> forall i :: 0 <= i < |t| ==> col(t[i].row).Some? && valid(col(t[i].row).value)
  {
    var cells := Column(t, col);
    CountWhereMono(cells, IsMissing, ViolationTest(valid));
    CountWhereZero(cells, ViolationTest(valid));
    CountWhere(cells, ViolationTest(valid))
  }

  /** `Violates` with its checker fixed, as the test `apply` counts. */
  function ViolationTest(valid: string -> bool): (test: Cell -> bool)
    ensures forall c :: test(c) == Violates(c, valid)
  {
    c => Violates(c, valid)
  }

  /** Comparing two tables row by row: if a violation in `a` always comes with
      one in `b` at the same position, `a` has no more violations than `b`. */
  lemma CountInvalidPointwise<R>(a: Table<R>, b: Table<R>, col: R -> Cell, valid: string -> bool)
    requires |a| == |b|
    requires forall i :: 0 <= i < |a| ==> Violates(col(a[i].row), valid) ==> Violates(col(b[i].row), valid)
    ensures CountInvalid(a, col, valid) <= CountInvalid(b, col, valid)
  {
    CountWherePointwise(Column(a, col), Column(b, col), ViolationTest(valid), ViolationTest(valid));
  }

  /** Dropping rows never adds a violation. */
  lemma CountInvalidFilter<R>(t: Table<R>, keep: R -> bool, col: R -> Cell, valid: string -> bool)
    ensures CountInvalid(Filter(t, keep), col, valid) <= CountInvalid(t, col, valid)
  {
    CountWhereFilter(t, keep, col, ViolationTest(valid));
  }

  /** Rewriting rows without touching the column keeps its violations. */
  lemma CountInvalidMapRows<R>(t: Table<R>, f: R -> R, col: R -> Cell, valid: string -> bool)
    requires forall i :: 0 <= i < |t| ==> col(f(t[i].row)) == col(t[i].row)
    ensures CountInvalid(MapRows(t, f), col, valid) == CountInvalid(t, col, valid)
  {
    assert Column(MapRows(t, f), col) == Column(t, col);
  }

  /** The fixed vocabulary of menu occasions. */
  const Occasions: seq<string> := [
    "Anniversary", "Daily", "Complimentary", "Annual", "Farewell",
    "Tour", "Holiday", "Patriotic", "Rite", "Dinner",
    "Breakfast", "Social", "Meeting", "Religious Holiday", "Political",
    "Festival", "Reunion", "Reception", "Lunch", "Graduation"
  ]

  /** `is_valid_occasion`: exact, case-sensitive membership in the vocabulary. */
  predicate IsValidOccasion(s: string) {
    s in Occasions
  }

  /** The vocabulary has twenty distinct words. */
  lemma OccasionsDistinct()
    ensures |Occasions| == 20
    ensures forall i, j :: 0 <= i < j < |Occasions| ==> Occasions[i] != Occasions[j]
  {
  }

  /** Membership is exact: a listed word is accepted, a word outside the list,
      another capitalisation of a listed word or a missing cell is not. */
  lemma OccasionExamples()
    ensures IsValidOccasion("Dinner") && IsValidOccasion("Religious Holiday")
    ensures !IsValidOccasion("Brunch") && !IsValidOccasion("dinner")
    ensures !IsValidOccasion("Religious holiday") && !IsValidOccasion("Dinner ")
    ensures Violates(None, IsValidOccasion)
  {
    assert Occasions[9] == "Dinner";
    assert Occasions[13] == "Religious Holiday";
    UnlistedOccasions();
    MiscapitalisedOccasions();
  }

  lemma UnlistedOccasions()
    ensures !IsValidOccasion("Brunch") && !IsValidOccasion("Dinner ")
  {
  }

  lemma MiscapitalisedOccasions()
    ensures !IsValidOccasion("dinner") && !IsValidOccasion("Religious holiday")
  {
  }

  /** `count_invalid_occasions`: missing occasions and words outside the
      vocabulary; zero exactly when every occasion is one of the twenty words. */
  function CountInvalidOccasions<R>(t: Table<R>, col: R -> Cell): (n: nat)
    ensures n <= |t|
    ensures CountWhere(Column(t, col), IsMissing) <= n
    ensures n == 0 <==> forall i :: 0 <= i < |t| ==> col(t[i].row).Some? && col(t[i].row).value in Occasions
  {
    CountInvalid(t, col, IsValidOccasion)
  }
}
