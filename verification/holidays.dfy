/** The Philippine holiday table: Easter by the anonymous Gregorian computus,
    day shifting and "last Monday of the month" as calendar arithmetic, the
    per-year map from ISO keys to holiday names, and lookup by ISO key. */
module Holidays {
  import opened JsText
  import opened Calendar

  // ---------- Shifting days ----------

  /** The day `n` days after `dt`, or before it when `n` is negative. */
  function AddDays(dt: Date, n: int): (r: Date)
    requires Valid(dt)
    ensures Valid(r)
    decreases if n < 0 then -n else n
  {
    if n == 0 then dt
    else if n > 0 then AddDays(NextDay(dt), n - 1)
    else AddDays(PrevDay(dt), n + 1)
  }

  lemma AddDaysAfterNext(dt: Date, n: int)
    requires Valid(dt)
    ensures AddDays(NextDay(dt), n) == AddDays(dt, n + 1)
  {
    if n < 0 {
      PrevOfNext(dt);
    }
  }

  lemma AddDaysAfterPrev(dt: Date, n: int)
    requires Valid(dt)
    ensures AddDays(PrevDay(dt), n) == AddDays(dt, n - 1)
  {
  }

  /** Shifting by `a` days and then by `b` days is shifting by `a + b`. */
  lemma {:induction false} AddDaysCompose(dt: Date, a: int, b: int)
    requires Valid(dt)
    ensures AddDays(AddDays(dt, a), b) == AddDays(dt, a + b)
    decreases if a < 0 then -a else a
  {
    if a > 0 {
      AddDaysCompose(NextDay(dt), a - 1, b);
      AddDaysAfterNext(dt, a - 1 + b);
    } else if a < 0 {
      AddDaysCompose(PrevDay(dt), a + 1, b);
      AddDaysAfterPrev(dt, a + 1 + b);
    }
  }

  lemma ModSevenAdd(x: int, n: int)
    ensures (x % 7 + n) % 7 == (x + n) % 7
  {
  }

  /** Remainders mod 7 one step apart stay one step apart after adding `n`:
      `w` is `n` days after `w1` exactly when it is `n + 1` days after `w0`. */
  lemma ModSevenStep(w0: int, w1: int, w: int, n: int)
    requires w1 == (w0 + 1) % 7
    ensures w == (w1 + n) % 7 <==> w == (w0 + 1 + n) % 7
  {
    ModSevenAdd(w0 + 1, n);
  }

  /** The step of `WeekdayForward`: one day, then `n - 1` more. */
  lemma {:induction false} WeekdayForwardStep(dt: Date, n: int)
    requires Valid(dt) && n > 0
    ensures Weekday(AddDays(dt, n)) == (Weekday(dt) + n) % 7
    decreases n, 0
  {
    WeekdayForward(NextDay(dt), n - 1);
    AddDaysAfterNext(dt, n - 1);
    WeekdayNext(dt);
    ModSevenStep(Weekday(dt), Weekday(NextDay(dt)), Weekday(AddDays(dt, n)), n - 1);
  }

  lemma {:induction false} WeekdayForward(dt: Date, n: int)
    requires Valid(dt) && n >= 0
    ensures Weekday(AddDays(dt, n)) == (Weekday(dt) + n) % 7
    decreases n, 1
  {
    if n > 0 {
      WeekdayForwardStep(dt, n);
    }
  }

  /** The step of `WeekdayBackward`: one day back, then `n - 1` more. */
  lemma {:induction false} WeekdayBackwardStep(dt: Date, n: int)
    requires Valid(dt) && n > 0
    ensures Weekday(AddDays(dt, -n)) == (Weekday(dt) - n) % 7
    decreases n, 0
  {
    WeekdayBackward(PrevDay(dt), n - 1);
    AddDaysAfterPrev(dt, -(n - 1));
    WeekdayPrev(dt);
    ModSevenStep(Weekday(PrevDay(dt)), Weekday(dt), Weekday(AddDays(dt, -n)), -n);
  }

  lemma {:induction false} WeekdayBackward(dt: Date, n: int)
    requires Valid(dt) && n >= 0
    ensures Weekday(AddDays(dt, -n)) == (Weekday(dt) - n) % 7
    decreases n, 1
  {
    if n > 0 {
      WeekdayBackwardStep(dt, n);
    }
  }

  /** Shifting by `n` days moves the weekday by `n` (mod 7). */
  lemma WeekdayAddDays(dt: Date, n: int)
    requires Valid(dt)
    ensures Weekday(AddDays(dt, n)) == (Weekday(dt) + n) % 7
  {
    if n >= 0 {
      WeekdayForward(dt, n);
    } else {
      WeekdayBackward(dt, -n);
    }
  }

  /** The position of a day within its year, from 1. */
  function DayOfYear(dt: Date): int
    requires 0 <= dt.m < 12
  {
    DaysBefore(dt.y, dt.m) + dt.d
  }

  lemma DaysBeforeBounds(y: int, m: int)
    requires 0 <= m <= 12
    ensures 28 * m <= DaysBefore(y, m) <= 31 * m
  {
  }

  lemma NextDayOfYear(dt: Date)
    requires Valid(dt) && DayOfYear(dt) < DaysBefore(dt.y, 12)
    ensures NextDay(dt).y == dt.y && DayOfYear(NextDay(dt)) == DayOfYear(dt) + 1
  {
  }

  lemma PrevDayOfYear(dt: Date)
    requires Valid(dt) && DayOfYear(dt) > 1
    ensures PrevDay(dt).y == dt.y && DayOfYear(PrevDay(dt)) == DayOfYear(dt) - 1
  {
    DaysBeforeBounds(dt.y, dt.m);
  }

  /** A shift that lands inside the same year moves the day-of-year by `n`. */
  lemma {:induction false} AddDaysWithinYear(dt: Date, n: int)
    requires Valid(dt) && 1 <= DayOfYear(dt) + n <= DaysBefore(dt.y, 12)
    ensures AddDays(dt, n).y == dt.y && DayOfYear(AddDays(dt, n)) == DayOfYear(dt) + n
    decreases if n < 0 then -n else n
  {
    if n > 0 {
      NextDayOfYear(dt);
      AddDaysWithinYear(NextDay(dt), n - 1);
    } else if n < 0 {
      PrevDayOfYear(dt);
      AddDaysWithinYear(PrevDay(dt), n + 1);
    }
  }

  /** A shift that stays inside the month only changes the day number. */
  lemma {:induction false} AddDaysInMonth(dt: Date, n: int)
    requires Valid(dt) && 1 <= dt.d + n <= DaysInMonth(dt.y, dt.m)
    ensures AddDays(dt, n) == dt.(d := dt.d + n)
    decreases if n < 0 then -n else n
  {
    if n > 0 {
      AddDaysInMonth(NextDay(dt), n - 1);
    } else if n < 0 {
      AddDaysInMonth(PrevDay(dt), n + 1);
    }
  }

  /** `Date.UTC` reads a year from 0 to 99 as 1900 plus that year. */
  function UtcYear(y: int): (r: int)
    ensures r == y <==> y < 0 || y > 99
  {
    if 0 <= y <= 99 then 1900 + y else y
  }

  /** `new Date(Date.UTC(y, m, d))` for a month in range: day `d` is counted
      from the first of the month, so a day out of range rolls over into a
      neighbouring month. */
  function UtcDate(y: int, m: int, d: int): (r: Date)
    requires 0 <= m < 12
    ensures Valid(r)
  {
    AddDays(Date(UtcYear(y), m, 1), d - 1)
  }

  /** A day in range is taken as it is. */
  lemma UtcDateInRange(y: int, m: int, d: int)
    requires 0 <= m < 12 && 1 <= d <= DaysInMonth(UtcYear(y), m)
    ensures UtcDate(y, m, d) == Date(UtcYear(y), m, d)
  {
    AddDaysInMonth(Date(UtcYear(y), m, 1), d - 1);
  }

  /** `addDays(y, m, d, delta)`. */
  function ShiftDate(y: int, m: int, d: int, delta: int): (r: Date)
    requires 0 <= m < 12
    ensures Valid(r)
  {
    AddDays(UtcDate(y, m, d), delta)
  }

  // ---------- Easter and the last Monday ----------

  /** The first steps of `easter(y)`, the anonymous Gregorian computus with
      JavaScript's truncating `%` and `Math.floor` division: the number it
      then splits by 31 into month and day. For years from 0 on it is 114
      (22 March) to 148 (25 April). */
  function EasterOffset(y: int): (v: int)
    ensures 70 < v < 165
    ensures y >= 0 ==> 114 <= v <= 148
  {
    var a := JsRem(y, 19);
    var b := y / 100;
    var c := JsRem(y, 100);
    var d := b / 4;
    var e := JsRem(b, 4);
    var f := (b + 8) / 25;
    var g := (b - f + 1) / 3;
    var h := JsRem(19 * a + b - d - g + 15, 30);
    var i := c / 4;
    var k := JsRem(c, 4);
    var l := JsRem(32 + 2 * e + 2 * i - h - k, 7);
    var m := (a + 11 * h + 22 * l) / 451;
    h + l - 7 * m + 114
  }

  /** `easter(y)`: month `floor(v / 31) - 1` and day `v % 31 + 1`. */
  function Easter(y: int): (r: Date)
    ensures r.y == y && 1 <= r.m <= 4 && 1 <= r.d <= 31
    ensures y >= 0 ==> (r.m == 2 && 22 <= r.d <= 31) || (r.m == 3 && 1 <= r.d <= 25)
  {
    var v := EasterOffset(y);
    Date(y, v / 31 - 1, JsRem(v, 31) + 1)
  }

  /** The divisions of a year the computus relies on. */
  lemma YearSplit(y: int)
    requires y >= 0
    ensures y == 100 * (y / 100) + y % 100
    ensures y / 4 == 25 * (y / 100) + (y % 100) / 4
    ensures y / 400 == (y / 100) / 4
  {
  }

  /** The arithmetic core of the computus, over plain integers. */
  lemma ComputusArith(b: int, c: int, d: int, e: int, i: int, k: int, h: int, t: int, m: int)
    requires b == 4 * d + e && c == 4 * i + k
    requires t == 32 + 2 * e + 2 * i - h - k
    ensures (100 * b + c + (25 * b + i) - b + d + (h + t % 7 - 7 * m + 114) - 90) % 7 == 0
  {
    assert t == 7 * (t / 7) + t % 7;
    assert 100 * b + c + (25 * b + i) - b + d + (h + t % 7 - 7 * m + 114) - 90
        == 7 * (71 * d + 18 * e + i + 8 - t / 7 - m);
  }

  /** For a non-negative year every `%` of the computus is Dafny's `%`, and
      the offset splits into the parts `ComputusArith` works on. */
  lemma EasterParts(y: int) returns (b: int, c: int, d: int, e: int, i: int, k: int, h: int, t: int, m: int)
    requires y >= 0
    ensures b == y / 100 && c == y % 100 && d == b / 4 && i == c / 4
    ensures b == 4 * d + e && c == 4 * i + k
    ensures t == 32 + 2 * e + 2 * i - h - k
    ensures EasterOffset(y) == h + t % 7 - 7 * m + 114
  {
    b := y / 100;
    c := y % 100;
    d := b / 4;
    e := b % 4;
    var a := y % 19;
    var f := (b + 8) / 25;
    var g := (b - f + 1) / 3;
    CenturyTermsNonNegative(a, b);
    h := (19 * a + b - d - g + 15) % 30;
    i := c / 4;
    k := c % 4;
    t := 32 + 2 * e + 2 * i - h - k;
    assert t >= 0;
    m := (a + 11 * h + 22 * (t % 7)) / 451;
  }

  /** The argument of the computus's `% 30` is never negative for a
      non-negative year. */
  lemma CenturyTermsNonNegative(a: int, b: int)
    requires a >= 0 && b >= 0
    ensures 19 * a + b - b / 4 - (b - (b + 8) / 25 + 1) / 3 + 15 >= 0
  {
    var f := (b + 8) / 25;
    assert 4 * (b / 4) <= b && 0 <= f && 3 * ((b - f + 1) / 3) <= b - f + 1;
  }

  /** The computus offset, counted from 22 March, puts the date on a Sunday. */
  lemma OffsetOnSunday(y: int)
    requires y >= 0
    ensures (y + y / 4 - y / 100 + y / 400 + EasterOffset(y) - 90) % 7 == 0
  {
    var b, c, d, e, i, k, h, t, m := EasterParts(y);
    YearSplit(y);
    ComputusArith(b, c, d, e, i, k, h, t, m);
  }

  /** The weekday sum of a day in March or April, by its offset from 22 March. */
  lemma SpringSum(y: int, v: int)
    requires 93 <= v < 155
    ensures DowSum(y, v / 31, v % 31 + 1)
         == y + y / 4 - y / 100 + y / 400 + v - 90 - (if v >= 124 then 28 else 0)
  {
  }

  /** The computus lands on a Sunday, by the weekday rule `dow` uses. */
  lemma EasterIsSunday(y: int)
    requires y >= 0
    ensures Weekday(Easter(y)) == 0
    ensures Dow(y, Easter(y).m + 1, Easter(y).d) == 0
  {
    var v := EasterOffset(y);
    var r := Easter(y);
    assert r.m + 1 == v / 31 && r.d == v % 31 + 1;
    SpringSum(y, v);
    OffsetOnSunday(y);
    var x := y + y / 4 - y / 100 + y / 400 + v - 90;
    MultipleOfSeven(DowSum(y, r.m + 1, r.d), x);
  }
  /** The computus for year -1, step by step. */
  lemma OffsetYearMinusOne(y: int)
    requires y == -1
    ensures EasterOffset(y) == 115
  {
    assert JsRem(y, 19) == -1 && y / 100 == -1 && JsRem(y, 100) == -1;
    assert JsRem(-1, 4) == -1 && JsRem(-4, 30) == -4 && JsRem(33, 7) == 5;
  }

  /** The computus for year -1943, step by step. */
  lemma OffsetYearMinus1943(y: int)
    requires y == -1943
    ensures EasterOffset(y) == 92
  {
    assert JsRem(y, 19) == -5 && y / 100 == -20 && JsRem(y, 100) == -43;
    assert JsRem(-20, 4) == 0 && (-12) / 25 == -1 && (-43) / 4 == -11;
    assert JsRem(-89, 30) == -29 && JsRem(-43, 4) == -3 && JsRem(42, 7) == 0;
    assert (-324) / 451 == -1;
  }

  /** Below year 0 the truncating `%` breaks the computus: year -1 gets a
      Tuesday, and year -1943 gets 31 February. */
  lemma EasterBeforeYearZero(y: int, z: int)
    requires y == -1 && z == -1943
    ensures Easter(y) == Date(-1, 2, 23) && Weekday(Easter(y)) == 2
    ensures Easter(z) == Date(-1943, 1, 31) && !Valid(Easter(z))
  {
    OffsetYearMinusOne(y);
    OffsetYearMinus1943(z);
    assert JsRem(115, 31) == 22 && JsRem(92, 31) == 30;
    assert DowSum(-1, 3, 23) == 23;
  }



  lemma MultipleOfSeven(s: int, x: int)
    requires x % 7 == 0 && (s == x || s == x - 28)
    ensures s % 7 == 0
  {
  }

  /** `new Date(Date.UTC(yy, m0 + 1, 0))`: day 0 of the next month is the
      last day of month `m0`. */
  function LastDay(yy: int, m0: int): (r: Date)
    requires 0 <= m0 < 12
    ensures r == Date(yy, m0, DaysInMonth(yy, m0))
  {
    var first := if m0 == 11 then Date(yy + 1, 0, 1) else Date(yy, m0 + 1, 1);
    PrevDay(first)
  }

  /** From the last day of a month back to the nearest Monday, which stays
      within that month's last week. */
  function BackToMonday(last: Date): (r: Date)
    requires Valid(last) && last.d == DaysInMonth(last.y, last.m)
    ensures r.y == last.y && r.m == last.m && last.d - 6 <= r.d <= last.d
    ensures Weekday(r) == 1
  {
    var delta := DaysSinceMonday(Weekday(last));
    StepBack(last, delta);
    AddDays(last, -delta)
  }

  /** How many days back the last Monday is from weekday `w`. */
  function DaysSinceMonday(w: int): (delta: int)
    requires 0 <= w < 7
    ensures 0 <= delta <= 6 && (w - delta) % 7 == 1
  {
    if w >= 1 then w - 1 else 6
  }

  /** Going back `delta` days from a month's last day, within the month. */
  lemma StepBack(last: Date, delta: int)
    requires Valid(last) && last.d == DaysInMonth(last.y, last.m) && 0 <= delta <= 6
    requires (Weekday(last) - delta) % 7 == 1
    ensures AddDays(last, -delta) == last.(d := last.d - delta)
    ensures Weekday(AddDays(last, -delta)) == 1
  {
    AddDaysInMonth(last, -delta);
    WeekdayAddDays(last, -delta);
  }

  /** `lastMonday(y, m0)`: from the month's last day, back to a Monday. The
      day is found in the calendar of `Date.UTC`'s year and returned with the
      year as given. */
  function LastMonday(y: int, m0: int): (r: Date)
    requires 0 <= m0 < 12
    ensures r.y == y && r.m == m0
    ensures DaysInMonth(UtcYear(y), m0) - 6 <= r.d <= DaysInMonth(UtcYear(y), m0)
    ensures Weekday(Date(UtcYear(y), m0, r.d)) == 1
  {
    var back := BackToMonday(LastDay(UtcYear(y), m0));
    Date(y, back.m, back.d)
  }

  // ---------- The holiday map ----------

  type Table = map<string, string>

  /** The keys a run of `map.set` calls writes. */
  function Keys(es: seq<(string, string)>): set<string> {
    set j | 0 <= j < |es| :: es[j].0
  }

  /** Successive `map.set` calls: a later entry for a key replaces the
      value an earlier one set. */
  function SetAll(t: Table, es: seq<(string, string)>): (r: Table)
    ensures forall k :: k in r <==> k in t || k in Keys(es)
    ensures (forall k :: k in t ==> t[k] != "") && (forall j :: 0 <= j < |es| ==> es[j].1 != "")
            ==> forall k :: k in r ==> r[k] != ""
    decreases |es|
  {
    if |es| == 0 then t
    else
      assert Keys(es) == {es[0].0} + Keys(es[1..]);
      SetAll(t[es[0].0 := es[0].1], es[1..])
  }

  /** Reference for the table's contents: the value of the last entry for
      key `k`, if there is one. */
  function LastSet(es: seq<(string, string)>, k: string): Option<string>
    decreases |es|
  {
    if |es| == 0 then None
    else if es[|es| - 1].0 == k then Some(es[|es| - 1].1)
    else LastSet(es[..|es| - 1], k)
  }

  lemma {:induction false} SetAllSnoc(t: Table, es: seq<(string, string)>, e: (string, string))
    ensures SetAll(t, es + [e]) == SetAll(t, es)[e.0 := e.1]
    decreases |es|
  {
    if |es| > 0 {
      assert (es + [e])[1..] == es[1..] + [e];
      SetAllSnoc(t[es[0].0 := es[0].1], es[1..], e);
    }
  }

  /** Later `set` wins: a key's value is the one its last entry gave, and a
      key no entry names keeps the value it had before. */
  lemma {:induction false} SetAllLastWins(t: Table, es: seq<(string, string)>, k: string)
    ensures LastSet(es, k).Some? ==> k in SetAll(t, es) && SetAll(t, es)[k] == LastSet(es, k).value
    ensures LastSet(es, k).None? ==> (k in SetAll(t, es) <==> k in t)
    ensures LastSet(es, k).None? && k in t ==> SetAll(t, es)[k] == t[k]
    decreases |es|
  {
    if |es| > 0 {
      var init := es[..|es| - 1];
      var e := es[|es| - 1];
      assert es == init + [e];
      SetAllSnoc(t, init, e);
      SetAllLastWins(t, init, k);
    }
  }

  /** Built from an empty table, the table holds exactly the keys the
      entries write, each with its last entry's value. */
  lemma SetAllFromEmpty(es: seq<(string, string)>, keys: set<string>)
    requires Keys(es) == keys
    requires forall j :: 0 <= j < |es| ==> es[j].1 != ""
    ensures forall k :: k in SetAll(map[], es) <==> k in keys
    ensures forall k :: k in SetAll(map[], es) ==> SetAll(map[], es)[k] != ""
    ensures forall k :: k in SetAll(map[], es) ==> LastSet(es, k) == Some(SetAll(map[], es)[k])
  {
    forall k | k in SetAll(map[], es)
      ensures LastSet(es, k) == Some(SetAll(map[], es)[k])
    {
      SetAllLastWins(map[], es, k);
    }
  }

  /** The last entry for `k` sits at index `j`. */
  lemma {:induction false} LastSetAt(es: seq<(string, string)>, k: string, j: int)
    requires 0 <= j < |es| && es[j].0 == k
    requires forall i :: j < i < |es| ==> es[i].0 != k
    ensures LastSet(es, k) == Some(es[j].1)
    decreases |es|
  {
    if j < |es| - 1 {
      LastSetAt(es[..|es| - 1], k, j);
    }
  }

  /** `EXTRA_HOLIDAYS`, the per-year proclamations; the table ships empty. */
  const ExtraHolidays: seq<(string, string)> := []

  /** The extras whose key starts with `prefix` (`String(year)`): exactly
      the entries of the table with that prefix. */
  function ExtrasFor(prefix: string, extras: seq<(string, string)>): (r: seq<(string, string)>)
    ensures |r| <= |extras|
    ensures forall e :: e in r <==> e in extras && prefix <= e.0
    decreases |extras|
  {
    if |extras| == 0 then []
    else
      var rest := ExtrasFor(prefix, extras[1..]);
      assert forall e :: e in extras <==> e == extras[0] || e in extras[1..];
      if prefix <= extras[0].0 then [extras[0]] + rest else rest
  }

  /** The extras keep the table's order: filtering a table in two parts
      and joining the results is filtering the whole table. */
  lemma {:induction false} ExtrasForAppend(prefix: string, a: seq<(string, string)>, b: seq<(string, string)>)
    ensures ExtrasFor(prefix, a + b) == ExtrasFor(prefix, a) + ExtrasFor(prefix, b)
    decreases |a|
  {
    if |a| > 0 {
      assert (a + b)[0] == a[0];
      assert (a + b)[1..] == a[1..] + b;
      ExtrasForAppend(prefix, a[1..], b);
      var head := if prefix <= a[0].0 then [a[0]] else [];
      assert ExtrasFor(prefix, a) == head + ExtrasFor(prefix, a[1..]);
      assert ExtrasFor(prefix, a + b) == head + (ExtrasFor(prefix, a[1..]) + ExtrasFor(prefix, b));
    } else {
      assert a + b == b;
    }
  }

  /** Maundy Thursday: three days before Easter, by `addDays`. */
  function Maundy(year: int): (r: Date)
    ensures Valid(r)
  {
    var eas := Easter(year);
    ShiftDate(eas.y, eas.m, eas.d, -3)
  }

  /** Good Friday: two days before Easter, by `addDays`. */
  function GoodFriday(year: int): (r: Date)
    ensures Valid(r)
  {
    var eas := Easter(year);
    ShiftDate(eas.y, eas.m, eas.d, -2)
  }

  /** The twelve fixed `map.set` calls of `phHolidayMap`, in call order,
      on the keys `k0` to `k11`. */
  function FixedEntries(k0: string, k1: string, k2: string, k3: string, k4: string, k5: string,
                        k6: string, k7: string, k8: string, k9: string, k10: string, k11: string)
    : seq<(string, string)>
  {
    [(k0, "New Year's Day"), (k1, "Araw ng Kagitingan"), (k2, "Labor Day"),
     (k3, "Independence Day"), (k4, "Bonifacio Day"), (k5, "Christmas Day"),
     (k6, "Rizal Day"), (k7, "National Heroes' Day"), (k8, "Maundy Thursday"),
     (k9, "Good Friday"), (k10, "Ninoy Aquino Day"), (k11, "All Saints\U{2019} Day")]
  }

  /** The keys the fixed calls write are the twelve keys they name. */
  lemma FixedKeys(k0: string, k1: string, k2: string, k3: string, k4: string, k5: string,
                  k6: string, k7: string, k8: string, k9: string, k10: string, k11: string)
    ensures Keys(FixedEntries(k0, k1, k2, k3, k4, k5, k6, k7, k8, k9, k10, k11))
            == {k0, k1, k2, k3, k4, k5, k6, k7, k8, k9, k10, k11}
  {
    var es := FixedEntries(k0, k1, k2, k3, k4, k5, k6, k7, k8, k9, k10, k11);
    var ks := [k0, k1, k2, k3, k4, k5, k6, k7, k8, k9, k10, k11];
    assert forall j :: 0 <= j < |es| ==> es[j].0 == ks[j];
    forall key | key in Keys(es)
      ensures key in {k0, k1, k2, k3, k4, k5, k6, k7, k8, k9, k10, k11}
    {
      var j :| 0 <= j < |es| && es[j].0 == key;
      if j < 6 {
        assert j == 0 || j == 1 || j == 2 || j == 3 || j == 4 || j == 5;
      } else {
        assert j == 6 || j == 7 || j == 8 || j == 9 || j == 10 || j == 11;
      }
    }
    forall i | 0 <= i < |ks|
      ensures ks[i] in Keys(es)
    {
      assert es[i].0 == ks[i];
    }
    assert k0 == ks[0] && k1 == ks[1] && k2 == ks[2] && k3 == ks[3] && k4 == ks[4] && k5 == ks[5];
    assert k6 == ks[6] && k7 == ks[7] && k8 == ks[8] && k9 == ks[9] && k10 == ks[10] && k11 == ks[11];
  }

  /** The table the fixed calls build: exactly their twelve keys, each
      holding the name of the last call on it. */
  function SetFixed(k0: string, k1: string, k2: string, k3: string, k4: string, k5: string,
                    k6: string, k7: string, k8: string, k9: string, k10: string, k11: string): (r: Table)
    ensures forall key :: key in r <==> key in {k0, k1, k2, k3, k4, k5, k6, k7, k8, k9, k10, k11}
    ensures forall key :: key in r ==> r[key] != ""
    ensures forall key :: key in r
              ==> LastSet(FixedEntries(k0, k1, k2, k3, k4, k5, k6, k7, k8, k9, k10, k11), key) == Some(r[key])
  {
    var es := FixedEntries(k0, k1, k2, k3, k4, k5, k6, k7, k8, k9, k10, k11);
    FixedKeys(k0, k1, k2, k3, k4, k5, k6, k7, k8, k9, k10, k11);
    SetAllFromEmpty(es, {k0, k1, k2, k3, k4, k5, k6, k7, k8, k9, k10, k11});
    SetAll(map[], es)
  }

  /** The fixed calls of `phHolidayMap(year)`, given the National Heroes' Day,
      Maundy Thursday and Good Friday dates. */
  function SetHolidays(year: int, nhd: Date, mt: Date, gf: Date): Table {
    SetFixed(ToISO(year, 0, 1), ToISO(year, 3, 9), ToISO(year, 4, 1), ToISO(year, 5, 12),
             ToISO(year, 10, 30), ToISO(year, 11, 25), ToISO(year, 11, 30), ToISO(nhd.y, nhd.m, nhd.d),
             ToISO(mt.y, mt.m, mt.d), ToISO(gf.y, gf.m, gf.d), ToISO(year, 7, 21), ToISO(year, 10, 1))
  }

  /** `phHolidayMap(year)`: the fixed calls, then the year's extras. */
  function HolidayMap(year: int): (r: Table)
    ensures forall k :: k in r <==> k in SetHolidays(year, LastMonday(year, 7), Maundy(year), GoodFriday(year))
                                    || k in Keys(ExtrasFor(IntToString(year), ExtraHolidays))
    ensures forall k :: k in r ==> r[k] != ""
  {
    SetAll(SetHolidays(year, LastMonday(year, 7), Maundy(year), GoodFriday(year)),
           ExtrasFor(IntToString(year), ExtraHolidays))
  }

  /** How `${y}` writes the year `NaN`, which `parseInt` returns when the
      first four characters hold no number. */
  const NaNText: string := "NaN"

  /** `iso(NaN, m0, d)`: the fixed dates keep their month and day fields. */
  function NaNISO(m0: int, d: int): string {
    NaNText + "-" + Pad(m0 + 1) + "-" + Pad(d)
  }

  /** The key of a date `lastMonday` or `addDays` computes in the year `NaN`:
      the `Date` is invalid, every field reads `NaN`, and `pad(NaN)` is the
      text `NaN` itself. */
  const NaNDateKey: string := NaNText + "-" + NaNText + "-" + NaNText

  /** `phHolidayMap(NaN)`: the same calls, on the keys the year `NaN` gives. */
  function NaNHolidayMap(): Table {
    SetAll(SetFixed(NaNISO(0, 1), NaNISO(3, 9), NaNISO(4, 1), NaNISO(5, 12),
                    NaNISO(10, 30), NaNISO(11, 25), NaNISO(11, 30), NaNDateKey,
                    NaNDateKey, NaNDateKey, NaNISO(7, 21), NaNISO(10, 1)),
           ExtrasFor(NaNText, ExtraHolidays))
  }

  /** `phHolidayNameForISO(s)`: the year is `parseInt` of the first four
      characters, `NaN` when they hold no number; a missing or empty name
      is `null` (`None`). */
  function PhHolidayNameForISO(s: string): (r: Option<string>)
    ensures r.Some? ==> r.value != ""
  {
    var t := match ParseInt(JsSlice(s, 0, 4))
      case None => NaNHolidayMap()
      case Some(y) => HolidayMap(y);
    if s in t && t[s] != "" then Some(t[s]) else None
  }

  // ---------- What the table holds ----------

  /** With no extras proclaimed the table is the twelve fixed calls. */
  lemma NoExtras(year: int)
    ensures HolidayMap(year) == SetHolidays(year, LastMonday(year, 7), Maundy(year), GoodFriday(year))
  {
    assert ExtrasFor(IntToString(year), ExtraHolidays) == [];
  }

  /** Holy Week: Good Friday is the day after Maundy Thursday. */
  lemma GoodFridayAfterMaundy(year: int)
    ensures GoodFriday(year) == NextDay(Maundy(year))
  {
    var eas := Easter(year);
    var u := UtcDate(eas.y, eas.m, eas.d);
    AddDaysCompose(u, -3, 1);
    assert AddDays(Maundy(year), 1) == AddDays(NextDay(Maundy(year)), 0);
  }

  /** From year 100 on, `Date.UTC` takes Easter as it is. */
  lemma EasterUtc(year: int)
    requires year >= 100
    ensures var eas := Easter(year); UtcDate(eas.y, eas.m, eas.d) == eas
  {
    var eas := Easter(year);
    UtcDateInRange(eas.y, eas.m, eas.d);
  }

  /** From year 100 on, Maundy Thursday is three days before Easter. */
  lemma MaundyBeforeEaster(year: int)
    requires year >= 100
    ensures Maundy(year) == AddDays(Easter(year), -3)
  {
    EasterUtc(year);
  }

  /** From year 100 on, Good Friday is two days before Easter. */
  lemma GoodFridayBeforeEaster(year: int)
    requires year >= 100
    ensures GoodFriday(year) == AddDays(Easter(year), -2)
  {
    EasterUtc(year);
  }

  /** A day `n` days before an Easter Sunday falls on weekday `7 - n`. */
  lemma DaysBeforeSunday(eas: Date, n: int)
    requires Valid(eas) && Weekday(eas) == 0 && 1 <= n <= 6
    ensures Weekday(AddDays(eas, -n)) == 7 - n
  {
    WeekdayAddDays(eas, -n);
    BackFromZero(-n);
  }

  lemma BackFromZero(v: int)
    requires -6 <= v <= -1
    ensures (0 + v) % 7 == 7 + v
  {
  }

  /** From year 100 on, Maundy Thursday is a Thursday and Good Friday a Friday. */
  lemma HolyWeekDays(year: int)
    requires year >= 100
    ensures Weekday(Maundy(year)) == 4 && Weekday(GoodFriday(year)) == 5
  {
    var eas := Easter(year);
    EasterIsSunday(year);
    MaundyBeforeEaster(year);
    GoodFridayBeforeEaster(year);
    DaysBeforeSunday(eas, 3);
    DaysBeforeSunday(eas, 2);
  }

  /** A shift of up to three days back from a day of February to May stays
      in `Date.UTC`'s year, no later than June. */
  lemma SpringShift(y: int, m: int, d: int, n: int)
    requires 1 <= m <= 4 && 1 <= d <= 31 && -3 <= n <= 0
    ensures ShiftDate(y, m, d, n).y == UtcYear(y) && ShiftDate(y, m, d, n).m <= 5
  {
    var yy := UtcYear(y);
    var first := Date(yy, m, 1);
    DaysBeforeBounds(yy, m);
    DaysBeforeBounds(yy, 12);
    AddDaysWithinYear(first, d - 1);
    var u := UtcDate(y, m, d);
    AddDaysWithinYear(u, n);
    DaysBeforeBounds(yy, ShiftDate(y, m, d, n).m);
  }

  /** Both Holy Week days fall before June of `Date.UTC`'s year. */
  lemma HolyWeekInSpring(year: int)
    ensures Maundy(year).y == UtcYear(year) && Maundy(year).m <= 5
    ensures GoodFriday(year).y == UtcYear(year) && GoodFriday(year).m <= 5
  {
    var eas := Easter(year);
    SpringShift(eas.y, eas.m, eas.d, -3);
    SpringShift(eas.y, eas.m, eas.d, -2);
  }

  /** Years 0 to 99: `Date.UTC` moves the Holy Week days into 1900 to 1999. */
  lemma HolyWeekCenturyShift(year: int)
    requires 0 <= year <= 99
    ensures Maundy(year).y == 1900 + year && GoodFriday(year).y == 1900 + year
  {
    HolyWeekInSpring(year);
  }

  lemma ISOPrefix(y: int, m0: int, d: int)
    ensures IntToString(y) <= ToISO(y, m0, d)
  {
    PrefixOfKey(IntToString(y), Pad(m0 + 1), Pad(d));
  }

  lemma PrefixOfKey(yt: string, ms: string, ds: string)
    ensures yt <= yt + "-" + ms + "-" + ds
  {
    assert yt + "-" + ms + "-" + ds == yt + ("-" + ms + "-" + ds);
  }

  lemma FixedKeysStartWithYear(year: int, nhd: Date, mt: Date, gf: Date)
    requires nhd.y == year && mt.y == year && gf.y == year
    ensures forall k :: k in SetHolidays(year, nhd, mt, gf) ==> IntToString(year) <= k
  {
    ISOPrefix(year, 0, 1);
    ISOPrefix(year, 3, 9);
    ISOPrefix(year, 4, 1);
    ISOPrefix(year, 5, 12);
    ISOPrefix(year, 10, 30);
    ISOPrefix(year, 11, 25);
    ISOPrefix(year, 11, 30);
    ISOPrefix(year, nhd.m, nhd.d);
    ISOPrefix(year, mt.m, mt.d);
    ISOPrefix(year, gf.m, gf.d);
    ISOPrefix(year, 7, 21);
    ISOPrefix(year, 10, 1);
  }

  /** Outside the years `Date.UTC` moves, every key of `phHolidayMap(year)`
      starts with `String(year)`. */
  lemma KeysStartWithYear(year: int)
    requires year < 0 || year > 99
    ensures forall k :: k in HolidayMap(year) ==> IntToString(year) <= k
  {
    NoExtras(year);
    HolyWeekInSpring(year);
    FixedKeysStartWithYear(year, LastMonday(year, 7), Maundy(year), GoodFriday(year));
  }

  /** The key of a calendar day differs from the key of any other. */
  lemma KeyDiffers(a: Date, b: Date)
    requires 0 <= a.m < 12 && 1 <= a.d <= 31 && 0 <= b.m < 12 && 1 <= b.d <= 31 && a != b
    ensures ToISO(a.y, a.m, a.d) != ToISO(b.y, b.m, b.d)
  {
    ISOInjective(a, b);
  }

  /** The days set after 9 April's own entry, other than Holy Week's, are
      other days, so their keys differ from 9 April's. */
  lemma AprilNinthLaterKeys(year: int, nhd: Date)
    requires nhd.m == 7 && 1 <= nhd.d <= 31
    ensures var key := ToISO(year, 3, 9);
            && ToISO(year, 4, 1) != key && ToISO(year, 5, 12) != key
            && ToISO(year, 10, 30) != key && ToISO(year, 11, 25) != key
            && ToISO(year, 11, 30) != key && ToISO(nhd.y, nhd.m, nhd.d) != key
            && ToISO(year, 7, 21) != key && ToISO(year, 10, 1) != key
  {
    var day := Date(year, 3, 9);
    KeyDiffers(Date(year, 4, 1), day);
    KeyDiffers(Date(year, 5, 12), day);
    KeyDiffers(Date(year, 10, 30), day);
    KeyDiffers(Date(year, 11, 25), day);
    KeyDiffers(Date(year, 11, 30), day);
    KeyDiffers(nhd, day);
    KeyDiffers(Date(year, 7, 21), day);
    KeyDiffers(Date(year, 10, 1), day);
  }

  /** The second call's key keeps its name unless a later call sets it
      again, and only the Holy Week calls may. */
  lemma SetFixedSecond(k0: string, k1: string, k2: string, k3: string, k4: string, k5: string,
                       k6: string, k7: string, k8: string, k9: string, k10: string, k11: string)
    requires k2 != k1 && k3 != k1 && k4 != k1 && k5 != k1
    requires k6 != k1 && k7 != k1 && k10 != k1 && k11 != k1
    ensures var r := SetFixed(k0, k1, k2, k3, k4, k5, k6, k7, k8, k9, k10, k11);
            && k1 in r
            && r[k1] == if k9 == k1 then "Good Friday"
                        else if k8 == k1 then "Maundy Thursday"
                        else "Araw ng Kagitingan"
  {
    var es := FixedEntries(k0, k1, k2, k3, k4, k5, k6, k7, k8, k9, k10, k11);
    if k9 == k1 {
      LastSetAt(es, k1, 9);
    } else if k8 == k1 {
      LastSetAt(es, k1, 8);
    } else {
      LastSetAt(es, k1, 1);
    }
  }

  /** A valid day has the key of 9 April exactly when it is 9 April. */
  lemma AprilNinthKey(year: int, x: Date)
    requires Valid(x)
    ensures ToISO(x.y, x.m, x.d) == ToISO(year, 3, 9) <==> x == Date(year, 3, 9)
  {
    if x != Date(year, 3, 9) {
      KeyDiffers(x, Date(year, 3, 9));
    }
  }

  lemma FixedAprilNinth(year: int, nhd: Date, mt: Date, gf: Date)
    requires nhd.m == 7 && 1 <= nhd.d <= 31 && Valid(mt) && Valid(gf)
    ensures var key := ToISO(year, 3, 9);
            && key in SetHolidays(year, nhd, mt, gf)
            && SetHolidays(year, nhd, mt, gf)[key]
               == if gf == Date(year, 3, 9) then "Good Friday"
                  else if mt == Date(year, 3, 9) then "Maundy Thursday"
                  else "Araw ng Kagitingan"
  {
    AprilNinthLaterKeys(year, nhd);
    AprilNinthKey(year, gf);
    AprilNinthKey(year, mt);
    SetFixedSecond(ToISO(year, 0, 1), ToISO(year, 3, 9), ToISO(year, 4, 1), ToISO(year, 5, 12),
                   ToISO(year, 10, 30), ToISO(year, 11, 25), ToISO(year, 11, 30), ToISO(nhd.y, nhd.m, nhd.d),
                   ToISO(mt.y, mt.m, mt.d), ToISO(gf.y, gf.m, gf.d), ToISO(year, 7, 21), ToISO(year, 10, 1));
  }

  /** 9 April is Araw ng Kagitingan unless a Holy Week day set later lands on
      it, Good Friday last of all. */
  lemma AprilNinth(year: int)
    ensures var key := ToISO(year, 3, 9);
            && key in HolidayMap(year)
            && HolidayMap(year)[key]
               == if GoodFriday(year) == Date(year, 3, 9) then "Good Friday"
                  else if Maundy(year) == Date(year, 3, 9) then "Maundy Thursday"
                  else "Araw ng Kagitingan"
  {
    NoExtras(year);
    FixedAprilNinth(year, LastMonday(year, 7), Maundy(year), GoodFriday(year));
  }

  /** The sixth call's key keeps its name when no later call sets it. */
  lemma SetFixedSixth(k0: string, k1: string, k2: string, k3: string, k4: string, k5: string,
                      k6: string, k7: string, k8: string, k9: string, k10: string, k11: string)
    requires k6 != k5 && k7 != k5 && k8 != k5 && k9 != k5 && k10 != k5 && k11 != k5
    ensures var r := SetFixed(k0, k1, k2, k3, k4, k5, k6, k7, k8, k9, k10, k11);
            k5 in r && r[k5] == "Christmas Day"
  {
    LastSetAt(FixedEntries(k0, k1, k2, k3, k4, k5, k6, k7, k8, k9, k10, k11), k5, 5);
  }

  lemma FixedChristmas(year: int, nhd: Date, mt: Date, gf: Date)
    requires nhd.m == 7 && 1 <= nhd.d <= 31 && Valid(mt) && Valid(gf) && mt.m <= 5 && gf.m <= 5
    ensures var key := ToISO(year, 11, 25);
            key in SetHolidays(year, nhd, mt, gf) && SetHolidays(year, nhd, mt, gf)[key] == "Christmas Day"
  {
    var day := Date(year, 11, 25);
    KeyDiffers(Date(year, 11, 30), day);
    KeyDiffers(nhd, day);
    KeyDiffers(mt, day);
    KeyDiffers(gf, day);
    KeyDiffers(Date(year, 7, 21), day);
    KeyDiffers(Date(year, 10, 1), day);
    SetFixedSixth(ToISO(year, 0, 1), ToISO(year, 3, 9), ToISO(year, 4, 1), ToISO(year, 5, 12),
                  ToISO(year, 10, 30), ToISO(year, 11, 25), ToISO(year, 11, 30), ToISO(nhd.y, nhd.m, nhd.d),
                  ToISO(mt.y, mt.m, mt.d), ToISO(gf.y, gf.m, gf.d), ToISO(year, 7, 21), ToISO(year, 10, 1));
  }

  /** 25 December is always Christmas Day: nothing set later lands on it. */
  lemma ChristmasDay(year: int)
    ensures var key := ToISO(year, 11, 25);
            key in HolidayMap(year) && HolidayMap(year)[key] == "Christmas Day"
  {
    NoExtras(year);
    HolyWeekInSpring(year);
    FixedChristmas(year, LastMonday(year, 7), Maundy(year), GoodFriday(year));
  }

  /** Every name in the table is non-empty, so `|| null` never hides one. */
  lemma NamesNonEmpty(year: int)
    ensures forall k :: k in HolidayMap(year) ==> HolidayMap(year)[k] != ""
  {
    NoExtras(year);
  }

  /** `parseInt` of the first four characters of a string that starts with
      `n` and a dash reads back `n`, for `n` from -999 up to 9999. */
  lemma LeadingYear(n: int, s: string)
    requires -999 <= n <= 9999
    requires |IntToString(n)| < |s| && 4 <= |s|
    requires s[..|IntToString(n)|] == IntToString(n) && s[|IntToString(n)|] == '-'
    ensures ParseInt(JsSlice(s, 0, 4)) == Some(n)
  {
    var ns := IntToString(n);
    if n >= 0 { NatToStringLength(n); } else { NatToStringLength(-n); }
    assert |ns| <= 4;
    JsSliceInside(s, 0, 4);
    var t := s[..4];
    var rest := t[|ns|..];
    assert t == ns + rest;
    assert |rest| == 0 || rest[0] == '-';
    ParseIntOfInt(n, rest);
  }

  /** `parseInt` of the first four characters of a key reads back its year,
      for the years -999 to 9999, whose text is at most four characters. */
  lemma YearOfKey(y: int, m0: int, d: int)
    requires -999 <= y <= 9999
    ensures ParseInt(JsSlice(ToISO(y, m0, d), 0, 4)) == Some(y)
  {
    var ns := IntToString(y);
    var s := ToISO(y, m0, d);
    assert s == ns + "-" + Pad(m0 + 1) + "-" + Pad(d);
    assert s[..|ns|] == ns;
    assert s[|ns|] == '-';
    LeadingYear(y, s);
  }

  /** `iso(NaN, m0, d)` writes two digits for the month and for the day. */
  lemma NaNKeyDigits(m0: int, d: int)
    requires 0 <= m0 + 1 <= 99 && 0 <= d <= 99
    ensures NaNISO(m0, d)
            == "NaN-" + [DigitChar((m0 + 1) / 10), DigitChar((m0 + 1) % 10)]
               + "-" + [DigitChar(d / 10), DigitChar(d % 10)]
  {
    PadTwoDigits(m0 + 1);
    PadTwoDigits(d);
  }

  /** The keys of the fixed dates in the year `NaN`, spelled out. */
  lemma NaNKeysSpelled()
    ensures NaNISO(0, 1) == "NaN-01-01" && NaNISO(3, 9) == "NaN-04-09"
    ensures NaNISO(4, 1) == "NaN-05-01" && NaNISO(5, 12) == "NaN-06-12"
    ensures NaNISO(10, 30) == "NaN-11-30" && NaNISO(11, 25) == "NaN-12-25"
    ensures NaNISO(11, 30) == "NaN-12-30" && NaNISO(7, 21) == "NaN-08-21"
    ensures NaNISO(10, 1) == "NaN-11-01"
  {
    NaNKeyDigits(0, 1);
    NaNKeyDigits(3, 9);
    NaNKeyDigits(4, 1);
    NaNKeyDigits(5, 12);
    NaNKeyDigits(10, 30);
    NaNKeyDigits(11, 25);
    NaNKeyDigits(11, 30);
    NaNKeyDigits(7, 21);
    NaNKeyDigits(10, 1);
  }

  /** When the three computed dates share one key, that key names Good
      Friday, the last of the three calls, unless a later call sets it. */
  lemma SetFixedSharedKey(k0: string, k1: string, k2: string, k3: string, k4: string, k5: string,
                          k6: string, kd: string, k10: string, k11: string)
    requires k10 != kd && k11 != kd
    ensures var r := SetFixed(k0, k1, k2, k3, k4, k5, k6, kd, kd, kd, k10, k11);
            && r.Keys == {k0, k1, k2, k3, k4, k5, k6, kd, k10, k11}
            && r[kd] == "Good Friday"
  {
    LastSetAt(FixedEntries(k0, k1, k2, k3, k4, k5, k6, kd, kd, kd, k10, k11), kd, 9);
  }

  /** The first call's key names New Year's Day when no later call sets it. */
  lemma SetFixedFirst(k0: string, k1: string, k2: string, k3: string, k4: string, k5: string,
                      k6: string, k7: string, k8: string, k9: string, k10: string, k11: string)
    requires k1 != k0 && k2 != k0 && k3 != k0 && k4 != k0 && k5 != k0 && k6 != k0
    requires k7 != k0 && k8 != k0 && k9 != k0 && k10 != k0 && k11 != k0
    ensures var r := SetFixed(k0, k1, k2, k3, k4, k5, k6, k7, k8, k9, k10, k11);
            k0 in r && r[k0] == "New Year's Day"
  {
    LastSetAt(FixedEntries(k0, k1, k2, k3, k4, k5, k6, k7, k8, k9, k10, k11), k0, 0);
  }

  /** No extra is proclaimed for the year `NaN`. */
  lemma NaNMapIsFixed()
    ensures NaNHolidayMap()
            == SetFixed(NaNISO(0, 1), NaNISO(3, 9), NaNISO(4, 1), NaNISO(5, 12),
                        NaNISO(10, 30), NaNISO(11, 25), NaNISO(11, 30), NaNDateKey,
                        NaNDateKey, NaNDateKey, NaNISO(7, 21), NaNISO(10, 1))
  {
    assert ExtrasFor(NaNText, ExtraHolidays) == [];
  }

  /** `phHolidayMap(NaN)`: the three computed dates share the key
      `NaN-NaN-NaN`, which Good Friday sets last, and each fixed date keeps
      its own key, 1 January naming New Year's Day. */
  lemma NaNYearTable()
    ensures NaNHolidayMap().Keys
            == {NaNISO(0, 1), NaNISO(3, 9), NaNISO(4, 1), NaNISO(5, 12), NaNISO(10, 30),
                NaNISO(11, 25), NaNISO(11, 30), NaNDateKey, NaNISO(7, 21), NaNISO(10, 1)}
    ensures NaNHolidayMap()[NaNDateKey] == "Good Friday"
    ensures NaNHolidayMap()[NaNISO(0, 1)] == "New Year's Day"
  {
    NaNMapIsFixed();
    NaNKeysSpelled();
    SetFixedSharedKey(NaNISO(0, 1), NaNISO(3, 9), NaNISO(4, 1), NaNISO(5, 12), NaNISO(10, 30),
                      NaNISO(11, 25), NaNISO(11, 30), NaNDateKey, NaNISO(7, 21), NaNISO(10, 1));
    SetFixedFirst(NaNISO(0, 1), NaNISO(3, 9), NaNISO(4, 1), NaNISO(5, 12), NaNISO(10, 30),
                  NaNISO(11, 25), NaNISO(11, 30), NaNDateKey, NaNDateKey, NaNDateKey,
                  NaNISO(7, 21), NaNISO(10, 1));
  }

  /** A string whose first four characters hold no number is looked up in
      the year `NaN` table. */
  lemma LookupWithoutYear(s: string)
    requires ParseInt(JsSlice(s, 0, 4)) == None
    ensures PhHolidayNameForISO(s) == if s in NaNHolidayMap() then Some(NaNHolidayMap()[s]) else None
  {
    NaNMapIsFixed();
  }

  /** A string that starts with a letter holds no number in its first four
      characters: `parseInt` gives `NaN`. */
  lemma LetterFirstUnparsed(s: string)
    requires |s| >= 4 && 'A' <= s[0] <= 'Z'
    ensures ParseInt(JsSlice(s, 0, 4)) == None
  {
    JsSliceInside(s, 0, 4);
    var t := s[..4];
    assert t[0] == s[0];
    assert !IsJsWhitespace(t[0]);
    assert TrimStart(t) == t;
    assert DigitPrefix(t) == [];
  }

  /** Neither `NaN-NaN-NaN` nor `NaN-01-01` starts with a number. */
  lemma NaNKeysUnparsed()
    ensures ParseInt(JsSlice(NaNDateKey, 0, 4)) == None
    ensures ParseInt(JsSlice("NaN-01-01", 0, 4)) == None
  {
    LetterFirstUnparsed(NaNDateKey);
    LetterFirstUnparsed("NaN-01-01");
  }

  /** The key the three computed dates share looks up Good Friday. */
  lemma NaNDateLookup(s: string)
    requires s == NaNDateKey
    ensures PhHolidayNameForISO(s) == Some("Good Friday")
  {
    NaNKeysUnparsed();
    LookupWithoutYear(s);
    NaNYearTable();
  }

  /** `NaN-01-01` looks up New Year's Day. */
  lemma NaNNewYearLookup(s: string)
    requires s == "NaN-01-01"
    ensures PhHolidayNameForISO(s) == Some("New Year's Day")
  {
    NaNKeysUnparsed();
    LookupWithoutYear(s);
    NaNYearTable();
    NaNKeysSpelled();
  }

  /** Looking a key up finds exactly the entry `phHolidayMap` holds for it. */
  lemma LookupByISO(y: int, m0: int, d: int)
    requires -999 <= y <= 9999
    ensures var key := ToISO(y, m0, d);
            PhHolidayNameForISO(key)
            == if key in HolidayMap(y) then Some(HolidayMap(y)[key]) else None
  {
    YearOfKey(y, m0, d);
    NamesNonEmpty(y);
  }
}
