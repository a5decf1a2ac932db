/**
  Month navigation shared by the main calendar and the date picker: the
  displayed month is a `(year, month)` pair, the "previous" button steps back
  one month and the "next" button steps forward one, carrying into the year at
  January and December. The year is a plain Python `int` and has no bound.
 */
module MonthNav {
  datatype YearMonth = YearMonth(year: int, month: int) {
    predicate Valid() {
      1 <= month <= 12
    }
  }

  /** Months counted from January of year 0: the partner order for both moves. */
  function MonthIndex(ym: YearMonth): int {
    ym.year * 12 + ym.month - 1
  }

  /** The month with a given index; the inverse of `MonthIndex` on valid months. */
  function FromIndex(k: int): (ym: YearMonth)
    ensures ym.Valid() && MonthIndex(ym) == k
  {
    YearMonth(k / 12, k % 12 + 1)
  }

  /** `next_month` / `_next_month`: December rolls over to January of the next year. */
  function NextMonth(ym: YearMonth): (r: YearMonth)
    requires ym.Valid()
    ensures r.Valid()
    ensures MonthIndex(r) == MonthIndex(ym) + 1
  {
    if ym.month == 12 then YearMonth(ym.year + 1, 1) else YearMonth(ym.year, ym.month + 1)
  }

  /** `prev_month` / `_prev_month`: January rolls back to December of the previous year. */
  function PrevMonth(ym: YearMonth): (r: YearMonth)
    requires ym.Valid()
    ensures r.Valid()
    ensures MonthIndex(r) == MonthIndex(ym) - 1
  {
    if ym.month == 1 then YearMonth(ym.year - 1, 12) else YearMonth(ym.year, ym.month - 1)
  }

  /** A valid month is determined by its index. */
  lemma MonthIndexInjective(a: YearMonth, b: YearMonth)
    requires a.Valid() && b.Valid() && MonthIndex(a) == MonthIndex(b)
    ensures a == b
  {
    assert a.year * 12 + (a.month - 1) == b.year * 12 + (b.month - 1);
    assert 0 <= a.month - 1 < 12 && 0 <= b.month - 1 < 12;
  }

  /** Going forward and then back returns to the month shown before. */
  lemma PrevUndoesNext(ym: YearMonth)
    requires ym.Valid()
    ensures PrevMonth(NextMonth(ym)) == ym
  {
    MonthIndexInjective(PrevMonth(NextMonth(ym)), ym);
  }

  /** Going back and then forward returns to the month shown before. */
  lemma NextUndoesPrev(ym: YearMonth)
    requires ym.Valid()
    ensures NextMonth(PrevMonth(ym)) == ym
  {
    MonthIndexInjective(NextMonth(PrevMonth(ym)), ym);
  }

  /** The year changes only at the wrap, and then by exactly one. */
  lemma YearCarry(ym: YearMonth)
    requires ym.Valid()
    ensures NextMonth(ym).year == if ym.month == 12 then ym.year + 1 else ym.year
    ensures PrevMonth(ym).year == if ym.month == 1 then ym.year - 1 else ym.year
  {
  }

  /** `n` presses of "next" land on the month `n` months later. */
  function Forward(ym: YearMonth, n: nat): (r: YearMonth)
    requires ym.Valid()
    ensures r.Valid()
  {
    if n == 0 then ym else NextMonth(Forward(ym, n - 1))
  }

  /** Twelve presses of "next" show the same month of the following year. */
  lemma {:induction false} ForwardIndex(ym: YearMonth, n: nat)
    requires ym.Valid()
    ensures MonthIndex(Forward(ym, n)) == MonthIndex(ym) + n
  {
    if n > 0 {
      ForwardIndex(ym, n - 1);
    }
  }

  lemma TwelveMonthsIsAYear(ym: YearMonth)
    requires ym.Valid()
    ensures Forward(ym, 12) == YearMonth(ym.year + 1, ym.month)
  {
    ForwardIndex(ym, 12);
    MonthIndexInjective(Forward(ym, 12), YearMonth(ym.year + 1, ym.month));
  }
}
