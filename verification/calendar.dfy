/** Month-calendar arithmetic: weekdays, month lengths, the 42-cell month
    grid, month navigation, the month/year picker and ISO date keys. */
module Calendar {
  import opened JsText

  /** A day with a zero-based month (`0` is January), as the grid cells and
      the holiday table store it. */
  datatype Date = Date(y: int, m: int, d: int)

  /** The month on display, zero-based. */
  datatype View = View(y: int, m: int)

  // ---------- Month lengths ----------

  /** The Gregorian leap-year rule. A remainder is zero under JavaScript's
      truncating `%` exactly when it is zero under Dafny's, so `%` serves. */
  predicate IsLeap(y: int) {
    (y % 4 == 0 && y % 100 != 0) || y % 400 == 0
  }

  /** `daysInMonth(y, m)` for a zero-based month. */
  function DaysInMonth(y: int, m: int): (n: int)
    requires 0 <= m < 12
    ensures 28 <= n <= 31
    ensures m == 1 ==> (n == 29 <==> IsLeap(y)) && (n == 28 <==> !IsLeap(y))
    ensures m != 1 ==> (n == 30 <==> m == 3 || m == 5 || m == 8 || m == 10)
  {
    [31, if IsLeap(y) then 29 else 28, 31, 30, 31, 30, 31, 31, 30, 31, 30, 31][m]
  }

  /** Days in the first `m` months of year `y`. */
  function DaysBefore(y: int, m: int): int
    requires 0 <= m <= 12
  {
    if m == 0 then 0 else DaysBefore(y, m - 1) + DaysInMonth(y, m - 1)
  }

  /** The twelve months make a year of 365 days, or 366 in a leap year. */
  lemma YearLength(y: int)
    ensures DaysBefore(y, 12) == if IsLeap(y) then 366 else 365
  {
    assert DaysBefore(y, 1) == 31;
    assert DaysBefore(y, 2) == 31 + DaysInMonth(y, 1);
    assert DaysBefore(y, 3) == DaysBefore(y, 2) + 31;
    assert DaysBefore(y, 4) == DaysBefore(y, 3) + 30;
    assert DaysBefore(y, 5) == DaysBefore(y, 4) + 31;
    assert DaysBefore(y, 6) == DaysBefore(y, 5) + 30;
    assert DaysBefore(y, 7) == DaysBefore(y, 6) + 31;
    assert DaysBefore(y, 8) == DaysBefore(y, 7) + 31;
    assert DaysBefore(y, 9) == DaysBefore(y, 8) + 30;
    assert DaysBefore(y, 10) == DaysBefore(y, 9) + 31;
    assert DaysBefore(y, 11) == DaysBefore(y, 10) + 30;
  }

  const MonthNames: seq<string> :=
    ["JANUARY", "FEBRUARY", "MARCH", "APRIL", "MAY", "JUNE", "JULY",
     "AUGUST", "SEPTEMBER", "OCTOBER", "NOVEMBER", "DECEMBER"]

  /** `monthName(m)`: the upper-case English name of a zero-based month. */
  function MonthName(m: int): (name: string)
    requires 0 <= m < 12
    ensures |name| >= 3
    ensures forall k :: 0 <= k < |name| ==> 'A' <= name[k] <= 'Z'
  {
    MonthNames[m]
  }

  /** No two months share a name. */
  lemma MonthNamesDistinct(a: int, b: int)
    requires 0 <= a < 12 && 0 <= b < 12
    ensures MonthName(a) == MonthName(b) <==> a == b
  {
    if a != b {
      assert MonthName(a)[0] != MonthName(b)[0] || MonthName(a)[1] != MonthName(b)[1] || MonthName(a)[2] != MonthName(b)[2];
    }
  }

  // ---------- Days and weekdays ----------

  predicate Valid(dt: Date) {
    0 <= dt.m < 12 && 1 <= dt.d <= DaysInMonth(dt.y, dt.m)
  }

  /** The following day. */
  function NextDay(dt: Date): (r: Date)
    requires Valid(dt)
    ensures Valid(r)
    ensures r.d == 1 <==> dt.d == DaysInMonth(dt.y, dt.m)
    ensures r.d != 1 ==> r == dt.(d := dt.d + 1)
    ensures r.d == 1 ==> r.y * 12 + r.m == dt.y * 12 + dt.m + 1
  {
    if dt.d < DaysInMonth(dt.y, dt.m) then dt.(d := dt.d + 1)
    else if dt.m < 11 then Date(dt.y, dt.m + 1, 1)
    else Date(dt.y + 1, 0, 1)
  }

  /** The preceding day. */
  function PrevDay(dt: Date): (r: Date)
    requires Valid(dt)
    ensures Valid(r)
    ensures NextDay(r) == dt
  {
    if dt.d > 1 then dt.(d := dt.d - 1)
    else if dt.m > 0 then Date(dt.y, dt.m - 1, DaysInMonth(dt.y, dt.m - 1))
    else Date(dt.y - 1, 11, 31)
  }

  /** Stepping a day forward and back again returns to the same day. */
  lemma PrevOfNext(dt: Date)
    requires Valid(dt)
    ensures PrevDay(NextDay(dt)) == dt
  {
  }

  const Offsets: seq<int> := [0, 3, 2, 5, 0, 3, 5, 1, 4, 6, 2, 4]

  /** The year the weekday formula counts from: January and February are
      counted with the previous year. */
  function FormulaYear(y: int, m: int): int {
    if m < 3 then y - 1 else y
  }

  /** The sum whose remainder mod 7 is the weekday, for a one-based month.
      Dafny's `/` by a positive constant rounds down, as `Math.floor` does. */
  function DowSum(y: int, m: int, d: int): int
    requires 1 <= m <= 12
  {
    var yy := FormulaYear(y, m);
    yy + yy / 4 - yy / 100 + yy / 400 + Offsets[m - 1] + d
  }

  /** The day of the week, `0` for Sunday, in the proleptic Gregorian
      calendar: what `getUTCDay` reports. */
  function Weekday(dt: Date): (w: int)
    requires 0 <= dt.m < 12
    ensures 0 <= w < 7
  {
    DowSum(dt.y, dt.m + 1, dt.d) % 7
  }

  /** `dow(y, m, d)` with a one-based month. JavaScript's `%` keeps the sign
      of the sum, so the result is negative when the sum is. */
  function Dow(y: int, m: int, d: int): (w: int)
    requires 1 <= m <= 12
    ensures -7 < w < 7
    ensures FormulaYear(y, m) >= 0 && d >= 0 ==> 0 <= w < 7 && w == Weekday(Date(y, m - 1, d))
  {
    JsRem(DowSum(y, m, d), 7)
  }

  /** `Math.floor(y / k) - Math.floor((y - 1) / k)` counts whether `k` divides `y`. */
  lemma FloorSteps(y: int)
    ensures y / 4 - (y - 1) / 4 == (if y % 4 == 0 then 1 else 0)
    ensures y / 100 - (y - 1) / 100 == (if y % 100 == 0 then 1 else 0)
    ensures y / 400 - (y - 1) / 400 == (if y % 400 == 0 then 1 else 0)
  {
  }

  /** Within one formula year the weekday sums differ by the month offsets
      and the days. */
  lemma SameFormulaYear(y: int, m1: int, d1: int, m2: int, d2: int)
    requires 1 <= m1 <= 12 && 1 <= m2 <= 12 && FormulaYear(y, m1) == FormulaYear(y, m2)
    ensures DowSum(y, m2, d2) - DowSum(y, m1, d1) == Offsets[m2 - 1] - Offsets[m1 - 1] + d2 - d1
  {
  }

  lemma MultipleMod(k: int)
    ensures (100 * k) % 100 == 0 && (4 * k) % 4 == 0
  {
  }

  /** 400 divides only multiples of 100, and 100 only multiples of 4. */
  lemma DivisibilityChain(y: int)
    ensures y % 400 == 0 ==> y % 100 == 0
    ensures y % 100 == 0 ==> y % 4 == 0
  {
    if y % 400 == 0 {
      MultipleMod(4 * (y / 400));
      assert y == 100 * (4 * (y / 400));
    }
    if y % 100 == 0 {
      MultipleMod(25 * (y / 100));
      assert y == 4 * (25 * (y / 100));
    }
  }

  /** From the end of February to 1 March the formula year changes, and the
      leap day makes up for it. */
  lemma FebruaryTurn(y: int)
    ensures DowSum(y, 3, 1) - DowSum(y, 2, DaysInMonth(y, 1)) == -27
  {
    FloorSteps(y);
    DivisibilityChain(y);
    assert FormulaYear(y, 2) == y - 1 && FormulaYear(y, 3) == y;
  }

  /** The month lengths against the offset table, for months other than February. */
  lemma OffsetStep(y: int, m: int)
    requires 0 <= m < 11 && m != 1
    ensures Offsets[m + 1] - Offsets[m] - DaysInMonth(y, m) == -28
         || Offsets[m + 1] - Offsets[m] - DaysInMonth(y, m) == -35
  {
  }

  /** From the last day of a month before December to the first of the
      next, the weekday sum moves by one less a multiple of 7. */
  lemma MonthTurn(y: int, m: int)
    requires 0 <= m < 11
    ensures var gap := DowSum(y, m + 2, 1) - DowSum(y, m + 1, DaysInMonth(y, m));
            gap == -27 || gap == -34
  {
    if m == 1 {
      FebruaryTurn(y);
    } else {
      SameFormulaYear(y, m + 1, DaysInMonth(y, m), m + 2, 1);
      OffsetStep(y, m);
    }
  }

  /** From 31 December to 1 January the weekday sum moves by one less 35. */
  lemma YearTurn(y: int)
    ensures DowSum(y + 1, 1, 1) - DowSum(y, 12, 31) == -34
  {
    assert FormulaYear(y + 1, 1) == FormulaYear(y, 12);
  }

  /** Two sums that differ by `k` up to a multiple of 7 leave remainders `k` apart. */
  lemma ModSeven(s0: int, s1: int, k: int)
    requires (s1 - s0 - k) % 7 == 0
    ensures s1 % 7 == (s0 % 7 + k) % 7
  {
  }

  /** Moving to the next day adds one to the weekday sum, up to a multiple of 7. */
  lemma NextDaySum(dt: Date)
    requires Valid(dt)
    ensures var n := NextDay(dt);
            var gap := DowSum(n.y, n.m + 1, n.d) - DowSum(dt.y, dt.m + 1, dt.d);
            gap == 1 || gap == -27 || gap == -34
  {
    if dt.d == DaysInMonth(dt.y, dt.m) {
      if dt.m < 11 {
        MonthTurn(dt.y, dt.m);
      } else {
        YearTurn(dt.y);
      }
    }
  }

  /** A gap of one, up to a multiple of 7, moves the remainder by one. */
  lemma GapMod(s0: int, s1: int)
    requires s1 - s0 == 1 || s1 - s0 == -27 || s1 - s0 == -34
    ensures s1 % 7 == (s0 % 7 + 1) % 7
  {
  }

  /** Each day's weekday is one after the previous day's, for every year. */
  lemma WeekdayNext(dt: Date)
    requires Valid(dt)
    ensures Weekday(NextDay(dt)) == (Weekday(dt) + 1) % 7
  {
    NextDaySum(dt);
    var n := NextDay(dt);
    GapMod(DowSum(dt.y, dt.m + 1, dt.d), DowSum(n.y, n.m + 1, n.d));
  }

  /** Each day's weekday is one before the next day's. */
  lemma WeekdayPrev(dt: Date)
    requires Valid(dt)
    ensures (Weekday(PrevDay(dt)) + 1) % 7 == Weekday(dt)
  {
    WeekdayNext(PrevDay(dt));
  }

  /** 1 January 2024 was a Monday. */
  lemma KnownMonday()
    ensures Weekday(Date(2024, 0, 1)) == 1 && Dow(2024, 1, 1) == 1
  {
  }

  /** Days of the same month a week apart share their weekday (`dow(y, m, d + 7) = dow(y, m, d)`). */
  lemma DowWeek(y: int, m: int, d: int)
    requires 1 <= m <= 12 && FormulaYear(y, m) >= 0 && d >= 0
    ensures Dow(y, m, d + 7) == Dow(y, m, d)
  {
    var sum := DowSum(y, m, d);
    SameFormulaYear(y, m, d, m, d + 7);
    assert sum >= 0;
    assert (sum + 7) % 7 == sum % 7;
  }

  /** The first of the next month falls `daysInMonth` weekdays after the first
      of this one: why the grid may put day 1 under the weekday `dow` gives. */
  lemma DowMonthStep(y: int, m: int)
    requires 1 <= m <= 11 && y >= 1
    ensures Dow(y, m + 1, 1) == (Dow(y, m, 1) + DaysInMonth(y, m - 1)) % 7
  {
    var dim := DaysInMonth(y, m - 1);
    MonthTurn(y, m - 1);
    SameFormulaYear(y, m, 1, m, dim);
    ModSeven(DowSum(y, m, 1), DowSum(y, m + 1, 1), dim);
  }

  // ---------- Month navigation and the picker ----------

  /** `gotoPrevMonth`. */
  function GotoPrev(v: View): (r: View)
    requires 0 <= v.m < 12
    ensures 0 <= r.m < 12
    ensures r.y * 12 + r.m == v.y * 12 + v.m - 1
  {
    if v.m == 0 then View(v.y - 1, 11) else View(v.y, v.m - 1)
  }

  /** `gotoNextMonth`. */
  function GotoNext(v: View): (r: View)
    requires 0 <= v.m < 12
    ensures 0 <= r.m < 12
    ensures r.y * 12 + r.m == v.y * 12 + v.m + 1
  {
    if v.m == 11 then View(v.y + 1, 0) else View(v.y, v.m + 1)
  }

  /** Going back a month undoes going forward one, and the other way round. */
  lemma NavigationInverse(v: View)
    requires 0 <= v.m < 12
    ensures GotoPrev(GotoNext(v)) == v
    ensures GotoNext(GotoPrev(v)) == v
  {
  }

  /** `applySelection`: a changed month, a changed year, both or neither. */
  function ApplySelection(view: View, tempYear: int, tempMonth: int): (r: View)
    ensures r == View(tempYear, tempMonth)
  {
    var monthChanged := tempMonth != view.m;
    var yearChanged := tempYear != view.y;
    if monthChanged && yearChanged then View(tempYear, tempMonth)
    else if monthChanged then view.(m := tempMonth)
    else if yearChanged then view.(y := tempYear)
    else view
  }

  /** Applying the same selection twice changes nothing more. */
  lemma ApplyIdempotent(view: View, tempYear: int, tempMonth: int)
    ensures ApplySelection(ApplySelection(view, tempYear, tempMonth), tempYear, tempMonth)
            == ApplySelection(view, tempYear, tempMonth)
  {
  }

  // ---------- The month grid ----------

  /** The weekday column of day 1 of the viewed month. */
  function FirstDow(view: View): (f: int)
    requires 0 <= view.m < 12
    ensures -7 < f < 7
    ensures view.y >= 1 ==> 0 <= f && f == Weekday(Date(view.y, view.m, 1))
  {
    Dow(view.y, view.m + 1, 1)
  }

  /** The date in cell `i` when day 1 sits in column `f`: the grid starts
      `f` days before day 1 and spills into the neighbouring months. */
  function GridCell(view: View, f: int, i: int): (c: Date)
    requires 0 <= view.m < 12 && -7 < f < 7 && 0 <= i < 42
    ensures Valid(c)
  {
    var dim := DaysInMonth(view.y, view.m);
    var d := 1 - f + i;
    if d < 1 then
      var m := (view.m + 11) % 12;
      var y := view.y - (if view.m == 0 then 1 else 0);
      Date(y, m, DaysInMonth(y, m) + d)
    else if d > dim then
      Date(view.y + (if view.m == 11 then 1 else 0), (view.m + 1) % 12, d - dim)
    else Date(view.y, view.m, d)
  }

  /** The date cell `i` of the six-week grid shows. */
  function Cell(view: View, i: int): (c: Date)
    requires 0 <= view.m < 12 && 0 <= i < 42
    ensures Valid(c)
  {
    GridCell(view, FirstDow(view), i)
  }

  lemma GridInMonth(view: View, f: int, i: int)
    requires 0 <= view.m < 12 && -7 < f < 7 && 0 <= i < 42
    ensures f <= i < f + DaysInMonth(view.y, view.m) <==> GridCell(view, f, i).m == view.m
    ensures f <= i < f + DaysInMonth(view.y, view.m) ==> GridCell(view, f, i) == Date(view.y, view.m, i - f + 1)
  {
  }

  /** The cells from column `firstDow` on are days 1 to `daysInMonth` of the
      viewed month, and every other cell is marked as another month's. */
  lemma CellInMonth(view: View, i: int)
    requires 0 <= view.m < 12 && 0 <= i < 42
    ensures var f := FirstDow(view);
            f <= i < f + DaysInMonth(view.y, view.m) <==> Cell(view, i).m == view.m
    ensures var f := FirstDow(view);
            f <= i < f + DaysInMonth(view.y, view.m) ==> Cell(view, i) == Date(view.y, view.m, i - f + 1)
  {
    GridInMonth(view, FirstDow(view), i);
  }

  /** Cells before day 1 count back from the end of the previous month. */
  lemma GridBefore(view: View, f: int, i: int)
    requires 0 <= view.m < 12 && -7 < f < 7 && 0 <= i < 42 && 1 - f + i < 1
    ensures var p := GotoPrev(view);
            GridCell(view, f, i) == Date(p.y, p.m, DaysInMonth(p.y, p.m) + 1 - f + i)
  {
  }

  /** Cells after the last day count on into the next month. */
  lemma GridAfter(view: View, f: int, i: int)
    requires 0 <= view.m < 12 && -7 < f < 7 && 0 <= i < 42
    requires 1 - f + i > DaysInMonth(view.y, view.m)
    ensures var n := GotoNext(view);
            GridCell(view, f, i) == Date(n.y, n.m, 1 - f + i - DaysInMonth(view.y, view.m))
  {
  }

  /** The three parts of the grid in terms of the neighbouring views. */
  lemma GridCellIs(view: View, f: int, i: int)
    requires 0 <= view.m < 12 && -7 < f < 7 && 0 <= i < 42
    ensures var d := 1 - f + i;
            var p := GotoPrev(view);
            d < 1 ==> GridCell(view, f, i) == Date(p.y, p.m, DaysInMonth(p.y, p.m) + d)
    ensures var d := 1 - f + i;
            1 <= d <= DaysInMonth(view.y, view.m) ==> GridCell(view, f, i) == Date(view.y, view.m, d)
    ensures var d := 1 - f + i;
            var n := GotoNext(view);
            d > DaysInMonth(view.y, view.m) ==> GridCell(view, f, i) == Date(n.y, n.m, d - DaysInMonth(view.y, view.m))
  {
    var d := 1 - f + i;
    if d < 1 {
      GridBefore(view, f, i);
    } else if d > DaysInMonth(view.y, view.m) {
      GridAfter(view, f, i);
    }
  }

  lemma GridNeighbours(view: View, f: int, i: int)
    requires 0 <= view.m < 12 && -7 < f < 7 && 0 <= i < 42
    ensures var c := GridCell(view, f, i);
            1 - f + i < 1 ==> View(c.y, c.m) == GotoPrev(view)
    ensures var c := GridCell(view, f, i);
            1 - f + i > DaysInMonth(view.y, view.m) ==> View(c.y, c.m) == GotoNext(view)
  {
    GridCellIs(view, f, i);
  }

  /** Cells before day 1 lie in the previous month and cells after the last
      day in the next one, with the year changing only across December and
      January. */
  lemma CellNeighbours(view: View, i: int)
    requires 0 <= view.m < 12 && 0 <= i < 42
    ensures var c := Cell(view, i);
            1 - FirstDow(view) + i < 1 ==> View(c.y, c.m) == GotoPrev(view)
    ensures var c := Cell(view, i);
            1 - FirstDow(view) + i > DaysInMonth(view.y, view.m) ==> View(c.y, c.m) == GotoNext(view)
  {
    GridNeighbours(view, FirstDow(view), i);
  }

  /** Within one month the next day is the next day number. */
  lemma NextInMonth(dt: Date)
    requires Valid(dt) && dt.d < DaysInMonth(dt.y, dt.m)
    ensures NextDay(dt) == dt.(d := dt.d + 1)
  {
  }

  /** After the last day of the month before the view comes day 1 of the view. */
  lemma NextIntoView(view: View)
    requires 0 <= view.m < 12
    ensures var p := GotoPrev(view);
            NextDay(Date(p.y, p.m, DaysInMonth(p.y, p.m))) == Date(view.y, view.m, 1)
  {
  }

  /** After the last day of the view comes day 1 of the following month. */
  lemma NextOutOfView(view: View)
    requires 0 <= view.m < 12
    ensures var n := GotoNext(view);
            NextDay(Date(view.y, view.m, DaysInMonth(view.y, view.m))) == Date(n.y, n.m, 1)
  {
  }

  lemma GridConsecutive(view: View, f: int, i: int)
    requires 0 <= view.m < 12 && -7 < f < 7 && 0 <= i < 41
    ensures GridCell(view, f, i + 1) == NextDay(GridCell(view, f, i))
  {
    var dim := DaysInMonth(view.y, view.m);
    var d := 1 - f + i;
    var c := GridCell(view, f, i);
    GridCellIs(view, f, i);
    GridCellIs(view, f, i + 1);
    if d < 0 {
      NextInMonth(c);
    } else if d == 0 {
      NextIntoView(view);
    } else if d < dim {
      NextInMonth(c);
    } else if d == dim {
      NextOutOfView(view);
    } else {
      var n := GotoNext(view);
      assert d - dim + 1 <= DaysInMonth(n.y, n.m);
      NextInMonth(c);
    }
  }

  /** Neighbouring cells are consecutive days. */
  lemma CellsConsecutive(view: View, i: int)
    requires 0 <= view.m < 12 && 0 <= i < 41
    ensures Cell(view, i + 1) == NextDay(Cell(view, i))
  {
    GridConsecutive(view, FirstDow(view), i);
  }

  /** Forward from day 1, column `i` holds a day of weekday `i mod 7`. */
  lemma {:induction false} WeekdayColumnsFrom(view: View, f: int, i: int)
    requires 0 <= view.m < 12 && 0 <= f < 7 && Weekday(Date(view.y, view.m, 1)) == f
    requires f <= i < 42
    ensures Weekday(GridCell(view, f, i)) == i % 7
    decreases i
  {
    if i == f {
      GridInMonth(view, f, i);
    } else {
      WeekdayColumnsFrom(view, f, i - 1);
      GridConsecutive(view, f, i - 1);
      ColumnStep(GridCell(view, f, i - 1), GridCell(view, f, i), i);
    }
  }

  /** The day after a day in column `i - 1` is in column `i`. */
  lemma ColumnStep(c: Date, n: Date, i: int)
    requires Valid(c) && n == NextDay(c) && Weekday(c) == (i - 1) % 7
    ensures Weekday(n) == i % 7
  {
    WeekdayNext(c);
    ColumnForward(Weekday(c), i);
  }

  /** A weekday one after column `i - 1`'s is column `i`'s. */
  lemma ColumnForward(w: int, i: int)
    requires w == (i - 1) % 7
    ensures (w + 1) % 7 == i % 7
  {
  }

  /** A weekday one before column `i + 1`'s is column `i`'s. */
  lemma ColumnBack(w: int, i: int)
    requires 0 <= w < 7 && 0 <= i && (w + 1) % 7 == (i + 1) % 7
    ensures w == i % 7
  {
  }

  /** Back from day 1, the leading cells keep the same column rule. */
  lemma {:induction false} WeekdayColumnsBefore(view: View, f: int, i: int)
    requires 0 <= view.m < 12 && 0 <= f < 7 && Weekday(Date(view.y, view.m, 1)) == f
    requires 0 <= i < f
    ensures Weekday(GridCell(view, f, i)) == i % 7
    decreases f - i
  {
    if i + 1 == f {
      WeekdayColumnsFrom(view, f, i + 1);
    } else {
      WeekdayColumnsBefore(view, f, i + 1);
    }
    GridConsecutive(view, f, i);
    var c := GridCell(view, f, i);
    WeekdayNext(c);
    ColumnBack(Weekday(c), i);
  }

  /** Column `i mod 7` of the grid is weekday `i mod 7`; in particular the
      cells with `i % 7 == 0` that get the Sunday style are Sundays. */
  lemma SundayColumn(view: View, i: int)
    requires 0 <= view.m < 12 && view.y >= 1 && 0 <= i < 42
    ensures Weekday(Cell(view, i)) == i % 7
  {
    var f := FirstDow(view);
    if i < f {
      WeekdayColumnsBefore(view, f, i);
    } else {
      WeekdayColumnsFrom(view, f, i);
    }
  }

  // ---------- ISO date keys ----------

  /** `toISO(y, m0, d)`, also the holiday table's `iso`: the year, then the
      one-based month and the day as two digits each. */
  function ToISO(y: int, m0: int, d: int): (r: string)
    ensures |r| >= |IntToString(y)| + 6
    ensures r[..|IntToString(y)|] == IntToString(y) && r[|IntToString(y)|] == '-'
  {
    IntToString(y) + "-" + Pad(m0 + 1) + "-" + Pad(d)
  }

  /** A key is the year's text and two two-digit fields, each after a dash. */
  lemma ISOShape(y: int, m0: int, d: int)
    requires 0 <= m0 + 1 <= 99 && 0 <= d <= 99
    ensures var s := ToISO(y, m0, d);
            |s| == |IntToString(y)| + 6 && s[|s| - 6] == '-' && s[|s| - 3] == '-'
  {
    PadTwoDigits(m0 + 1);
    PadTwoDigits(d);
  }

  /** A year as `String` writes it: an optional minus sign, then digits. */
  predicate IsYearText(t: string) {
    || (|t| > 0 && AllDigits(t))
    || (|t| > 1 && t[0] == '-' && AllDigits(t[1..]))
  }

  function YearValue(t: string): int
    requires IsYearText(t)
  {
    var magnitude: int := if t[0] == '-' then DigitsValue(t[1..]) else DigitsValue(t);
    if t[0] == '-' then -magnitude else magnitude
  }

  /** The fields of a key, split off its end: the year text, a dash, two
      month digits, a dash, two day digits. */
  function FromParts(ys: string, dash1: char, ms: string, dash2: char, ds: string): (r: Option<Date>)
    requires |ms| == 2 && |ds| == 2
    ensures r.Some? ==> 1 <= r.value.m + 1 <= 99 && 0 <= r.value.d <= 99
  {
    if dash1 == '-' && dash2 == '-' && IsYearText(ys) && AllDigits(ms) && AllDigits(ds)
       && DigitsValue(ms) >= 1
    then
      TwoDigitBound(ms);
      TwoDigitBound(ds);
      Some(Date(YearValue(ys), DigitsValue(ms) - 1, DigitsValue(ds)))
    else None
  }

  lemma TwoDigitBound(t: string)
    requires |t| == 2 && AllDigits(t)
    ensures DigitsValue(t) <= 99
  {
    assert t[..1][..0] == [];
    assert DigitsValue(t[..1]) == DigitValue(t[0]);
  }

  /** Reading an ISO key back: a year, a two-digit month and a two-digit day
      separated by `-`. */
  function ParseISO(s: string): (r: Option<Date>)
    ensures r.Some? ==> 1 <= r.value.m + 1 <= 99 && 0 <= r.value.d <= 99
  {
    if |s| < 7 then None
    else FromParts(s[..|s| - 6], s[|s| - 6], s[|s| - 5..|s| - 3], s[|s| - 3], s[|s| - 2..])
  }

  lemma TwoDigitsValue(n: int)
    requires 0 <= n <= 99
    ensures AllDigits(Pad(n)) && |Pad(n)| == 2 && DigitsValue(Pad(n)) == n
  {
    PadTwoDigits(n);
    var p := Pad(n);
    assert p[..1] == [DigitChar(n / 10)];
    assert DigitsValue(p[..1]) == DigitsValue([]) * 10 + DigitValue(p[0]);
    assert p[..1][..0] == [];
    assert DigitValue(p[0]) == n / 10 && DigitValue(p[1]) == n % 10;
  }

  lemma NegativeYearText(n: int)
    requires n > 0
    ensures IsYearText("-" + NatToString(n)) && YearValue("-" + NatToString(n)) == -n
  {
    var t := "-" + NatToString(n);
    assert t[1..] == NatToString(n);
    DigitsRoundTrip(n);
  }

  lemma YearTextRoundTrip(y: int)
    ensures IsYearText(IntToString(y)) && YearValue(IntToString(y)) == y
  {
    if y < 0 {
      NegativeYearText(-y);
    } else {
      DigitsRoundTrip(y);
    }
  }

  /** Where the fields of a key sit, counted from its end. */
  lemma ISOSlices(yt: string, ms: string, ds: string)
    requires |ms| == 2 && |ds| == 2
    ensures var s := yt + "-" + ms + "-" + ds;
            && |s| == |yt| + 6
            && s[..|s| - 6] == yt && s[|s| - 5..|s| - 3] == ms && s[|s| - 2..] == ds
            && s[|s| - 6] == '-' && s[|s| - 3] == '-'
  {
    var s := yt + "-" + ms + "-" + ds;
    assert s[..|s| - 6] == yt;
    assert s[|s| - 5..|s| - 3] == ms;
    assert s[|s| - 2..] == ds;
  }

  /** Parsing a key reads the fields its writer joined. */
  lemma ParseISOSplits(yt: string, ms: string, ds: string)
    requires |ms| == 2 && |ds| == 2
    ensures ParseISO(yt + "-" + ms + "-" + ds) == FromParts(yt, '-', ms, '-', ds)
  {
    ISOSlices(yt, ms, ds);
  }

  /** Well-formed fields read as their values. */
  lemma FromPartsValue(yt: string, ms: string, ds: string)
    requires IsYearText(yt) && |ms| == 2 && |ds| == 2 && AllDigits(ms) && AllDigits(ds)
    requires DigitsValue(ms) >= 1
    ensures FromParts(yt, '-', ms, '-', ds) == Some(Date(YearValue(yt), DigitsValue(ms) - 1, DigitsValue(ds)))
  {
  }

  /** Every key `toISO` writes for a month and day of the calendar reads back
      as the same date. */
  lemma ISORoundTrip(y: int, m0: int, d: int)
    requires 0 <= m0 < 12 && 1 <= d <= 31
    ensures ParseISO(ToISO(y, m0, d)) == Some(Date(y, m0, d))
  {
    TwoDigitsValue(m0 + 1);
    TwoDigitsValue(d);
    YearTextRoundTrip(y);
    ParseISOSplits(IntToString(y), Pad(m0 + 1), Pad(d));
    FromPartsValue(IntToString(y), Pad(m0 + 1), Pad(d));
  }

  /** Different calendar dates get different keys. */
  lemma ISOInjective(a: Date, b: Date)
    requires 0 <= a.m < 12 && 1 <= a.d <= 31
    requires 0 <= b.m < 12 && 1 <= b.d <= 31
    ensures ToISO(a.y, a.m, a.d) == ToISO(b.y, b.m, b.d) <==> a == b
  {
    ISORoundTrip(a.y, a.m, a.d);
    ISORoundTrip(b.y, b.m, b.d);
  }

  /** For four-digit years the key is the extended calendar date of ISO 8601,
      `YYYY-MM-DD`: ten characters, dashes at 4 and 7, digits elsewhere. */
  lemma ISOFourDigitYear(y: int, m0: int, d: int)
    requires 1000 <= y <= 9999 && 0 <= m0 < 12 && 1 <= d <= 31
    ensures var s := ToISO(y, m0, d);
            && |s| == 10 && s[4] == '-' && s[7] == '-'
            && (forall k :: 0 <= k < 10 && k != 4 && k != 7 ==> IsDigit(s[k]))
  {
    NatToStringLength(y);
    TwoDigitsValue(m0 + 1);
    TwoDigitsValue(d);
    var s := ToISO(y, m0, d);
    assert s == NatToString(y) + "-" + Pad(m0 + 1) + "-" + Pad(d);
  }
}
