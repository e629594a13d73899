/**
 * ISO 8601 week keys (`YYYY-Www`), as the server computes them
 * (server/routes.ts:7-40). Weeks start on Monday and belong to the year
 * of their Thursday, so week 01 is the week that contains 4 January
 * (ISO 8601:2004, section 3.2.2); a key is the reduced week-date
 * representation of section 4.1.4, except that the year is printed as
 * JavaScript prints a number.
 *
 * A date is the number of whole UTC days since 1970-01-01 (a Thursday):
 * every `Date` the helpers build is a UTC midnight, so their millisecond
 * arithmetic is arithmetic on this count (one day is 86 400 000 ms).
 * The calendar is the proleptic Gregorian one of JavaScript's `Date`.
 */
module IsoWeek {
  import opened Wrappers
  import opened Numerals

  const MsPerDay := 86_400_000

  predicate IsLeap(y: int) {
    y % 4 == 0 && (y % 100 != 0 || y % 400 == 0)
  }

  function DaysInYear(y: int): int {
    if IsLeap(y) then 366 else 365
  }

  /**
   * The day number of 1 January of year `y`: 365 days a year since 1970,
   * plus one for each leap year from 1970 to `y - 1` (the leap years up to
   * `y - 1`, counted as multiples of 4, less those of 100, plus those of
   * 400, less the 477 leap years up to 1969).
   */
  function YearStart(y: int): int {
    365 * (y - 1970) + (y - 1) / 4 - (y - 1) / 100 + (y - 1) / 400 - 477
  }

  /** `Date.UTC(y, ...)` reads a year from 0 to 99 as 1900 + y. */
  function UtcYear(y: int): int {
    if 0 <= y <= 99 then 1900 + y else y
  }

  /** `getUTCDay()`: 0 for Sunday through 6 for Saturday. */
  function Weekday(t: int): int {
    (t + 4) % 7
  }

  /** `getUTCDay() || 7`: 1 for Monday through 7 for Sunday (see `IsoDayIsWeekdayOrSeven`). */
  function IsoDay(t: int): int {
    (t + 3) % 7 + 1
  }

  /** The Monday of the Monday-to-Sunday week that contains `t`. */
  function MondayOf(t: int): int {
    t - IsoDay(t) + 1
  }

  /** `d.setUTCDate(d.getUTCDate() + 4 - dayNum)`: the Thursday of the week that contains `t`. */
  function ThursdayOf(t: int): int {
    t + 4 - IsoDay(t)
  }

  /** `Math.ceil(x / 7)` for an integer `x` (Dafny's `/` rounds down for a positive divisor). */
  function CeilDiv7(x: int): int {
    (x + 6) / 7
  }

  lemma DivStep(x: int)
    ensures x / 4 - (x - 1) / 4 == if x % 4 == 0 then 1 else 0
    ensures x / 100 - (x - 1) / 100 == if x % 100 == 0 then 1 else 0
    ensures x / 400 - (x - 1) / 400 == if x % 400 == 0 then 1 else 0
  {
  }

  /** A multiple of 400 is a multiple of 100, and a multiple of 100 a multiple of 4. */
  lemma Multiples(y: int)
    ensures y % 400 == 0 ==> y % 100 == 0
    ensures y % 100 == 0 ==> y % 4 == 0
  {
    if y % 400 == 0 {
      assert y / 100 == 4 * (y / 400);
    }
    if y % 100 == 0 {
      assert y / 4 == 25 * (y / 100);
    }
  }

  /** Consecutive years start `DaysInYear` days apart. */
  lemma YearStartStep(y: int)
    ensures YearStart(y + 1) == YearStart(y) + DaysInYear(y)
  {
    DivStep(y);
    Multiples(y);
    var a, b, c := y / 4 - (y - 1) / 4, y / 100 - (y - 1) / 100, y / 400 - (y - 1) / 400;
    assert YearStart(y + 1) - YearStart(y) == 365 + a - b + c;
    assert DaysInYear(y) == 365 + a - b + c;
  }

  lemma {:induction false} YearStartMonotone(a: int, b: int)
    requires a <= b
    ensures YearStart(a) <= YearStart(b)
    ensures a < b ==> YearStart(a + 1) <= YearStart(b)
    decreases b - a
  {
    if a < b {
      YearStartStep(a);
      YearStartMonotone(a + 1, b);
    }
  }

  /** The year whose days include day `t`, found by stepping one year at a time from `y`. */
  function YearFrom(t: int, y: int): (r: int)
    ensures YearStart(r) <= t < YearStart(r + 1)
    decreases if t < YearStart(y) then YearStart(y) - t + 1000 else t - YearStart(y)
  {
    YearStartStep(y);
    YearStartStep(y - 1);
    if t < YearStart(y) then YearFrom(t, y - 1)
    else if t >= YearStart(y + 1) then YearFrom(t, y + 1)
    else y
  }

  /** `getUTCFullYear()` of day `t`. */
  function YearOf(t: int): (y: int)
    ensures YearStart(y) <= t < YearStart(y + 1)
  {
    YearFrom(t, 1970)
  }

  /** No day belongs to two years. */
  lemma YearsDisjoint(t: int, a: int, b: int)
    requires YearStart(a) <= t < YearStart(a + 1)
    requires YearStart(b) <= t < YearStart(b + 1)
    ensures a == b
  {
    if a < b {
      YearStartMonotone(a, b);
    } else if b < a {
      YearStartMonotone(b, a);
    }
  }

  /** A day belongs to exactly one year: `YearOf` does not depend on where the search starts. */
  lemma YearOfUnique(t: int, y: int)
    requires YearStart(y) <= t < YearStart(y + 1)
    ensures YearOf(t) == y
  {
    YearsDisjoint(t, y, YearOf(t));
  }

  /** Later days never fall in earlier years. */
  lemma YearOfMonotone(x: int, y: int)
    requires x <= y
    ensures YearOf(x) <= YearOf(y)
  {
    if YearOf(y) < YearOf(x) {
      YearStartMonotone(YearOf(y), YearOf(x));
    }
  }

  /** The ISO week-numbering year of day `t`: the year of its week's Thursday. */
  function IsoYear(t: int): int {
    YearOf(ThursdayOf(t))
  }

  /**
   * The week number the source computes from a week's Thursday: the
   * Thursday's day of its year, counted from 1, divided by 7 and rounded up.
   * The year start is built with `Date.UTC`, hence `UtcYear`.
   */
  function WeekNumberOfThursday(thursday: int): int {
    CeilDiv7(thursday - YearStart(UtcYear(YearOf(thursday))) + 1)
  }

  /** The week number of the week that contains day `t`. */
  function IsoWeekNumber(t: int): int {
    WeekNumberOfThursday(ThursdayOf(t))
  }

  /** `${year}-W${String(week).padStart(2, '0')}`. */
  function FormatWeekKey(year: int, week: int): string {
    IntToString(year) + "-W" + PadStart2(IntToString(week))
  }

  /** The key both helpers print once the date has been moved to its week's Thursday. */
  function KeyOfThursday(thursday: int): string {
    FormatWeekKey(YearOf(thursday), WeekNumberOfThursday(thursday))
  }

  /** The week key of the week that contains day `t`. */
  function WeekKeyOfDay(t: int): string {
    KeyOfThursday(ThursdayOf(t))
  }

  /**
   * `getCurrentISOWeek()`, given today's calendar date as a day number: the
   * date is first rebuilt with `Date.UTC` from its year, month and day.
   */
  function CurrentIsoWeek(today: int): string {
    WeekKeyOfDay(UtcRebuild(today))
  }

  /**
   * `new Date(Date.UTC(year, month, day))` built from the parts of day `t`:
   * the same day, except that `Date.UTC` reads a year from 0 to 99 as
   * 1900 + year. Year 0 is a leap year and 1900 is not, so from 1 March on a
   * day of year 0 lands one day earlier in its year, and 29 February of year
   * 0 becomes 1 March 1900.
   */
  function UtcRebuild(t: int): int {
    var y := YearOf(t);
    var offset := t - YearStart(y);
    if PlainYear(y) then t
    else YearStart(1900 + y) + (if y == 0 && offset >= 60 then offset - 1 else offset)
  }

  /** The position of the first `-W` at or after `from`. */
  function FindSeparator(k: string, from: nat): (r: Option<nat>)
    requires from <= |k|
    ensures r.Some? ==> from <= r.value && r.value + 2 <= |k| && k[r.value] == '-' && k[r.value + 1] == 'W'
    ensures r.Some? ==> forall j :: from <= j < r.value ==> !(k[j] == '-' && k[j + 1] == 'W')
    ensures r.None? ==> forall j :: from <= j < |k| - 1 ==> !(k[j] == '-' && k[j + 1] == 'W')
    decreases |k| - from
  {
    if from + 2 > |k| then None
    else if k[from] == '-' && k[from + 1] == 'W' then Some(from)
    else FindSeparator(k, from + 1)
  }

  /**
   * `const [yearStr, weekStr] = k.split('-W')`: the text before the first
   * separator, and the text between the first and the second (`None` when
   * there is no separator, so that `weekStr` is `undefined`).
   */
  function SplitWeekKey(k: string): (string, Option<string>) {
    match FindSeparator(k, 0)
    case None => (k, None)
    case Some(p) =>
      var end := match FindSeparator(k, p + 2) case Some(q) => q case None => |k|;
      (k[..p], Some(k[p + 2..end]))
  }

  /**
   * `parseInt(yearStr)` and `parseInt(weekStr)`; `None` stands for `NaN`,
   * which is also what `parseInt(undefined)` gives.
   */
  function ParseWeekKey(k: string): (Option<int>, Option<int>) {
    var (yearStr, weekStr) := SplitWeekKey(k);
    (ParseInt(yearStr), if weekStr.Some? then ParseInt(weekStr.value) else None)
  }

  /** The Monday of week `week` of year `year`, counted from the Monday of the week that contains 4 January. */
  function MondayOfWeek(year: int, week: int): int {
    var jan4 := YearStart(UtcYear(year)) + 3;
    jan4 - IsoDay(jan4) + 1 + (week - 1) * 7
  }

  /** The key `String(NaN)` produces in both places: what `addWeeksToISO` returns for an unreadable key. */
  const InvalidKey := "NaN-WNaN"

  /** `addWeeksToISO(k, n)`. */
  function AddWeeks(k: string, n: int): string {
    var (year, week) := ParseWeekKey(k);
    if year.Some? && week.Some? then KeyAfterWeeks(MondayOfWeek(year.value, week.value), n) else InvalidKey
  }

  /**
   * `monday.setUTCDate(... + n * 7)` from the Monday `monday`, then the
   * `Date.UTC` rebuild of the day reached, then the key of the result.
   */
  function KeyAfterWeeks(monday: int, n: int): string {
    WeekKeyOfDay(UtcRebuild(monday + n * 7))
  }

  // ----- Facts about the calendar -----

  /** `IsoDay` is `getUTCDay()` with Sunday's 0 read as 7. */
  lemma IsoDayIsWeekdayOrSeven(t: int)
    ensures 1 <= IsoDay(t) <= 7
    ensures IsoDay(t) == if Weekday(t) == 0 then 7 else Weekday(t)
  {
    var q := (t + 3) / 7;
    var r := (t + 3) % 7;
    assert t + 3 == 7 * q + r;
    assert t + 4 == 7 * q + (r + 1);
    if r == 6 {
      assert t + 4 == 7 * (q + 1);
      assert Weekday(t) == 0;
    } else {
      assert Weekday(t) == r + 1;
    }
  }

  /** The Thursday of a day's week is the multiple of 7 at most three days away (day 0 is a Thursday). */
  lemma ThursdayFacts(t: int)
    ensures ThursdayOf(t) == 7 * ((t + 3) / 7)
    ensures t - 3 <= ThursdayOf(t) <= t + 3
    ensures ThursdayOf(t) == MondayOf(t) + 3
  {
    assert t + 3 == 7 * ((t + 3) / 7) + (t + 3) % 7;
  }

  /** Moving by whole weeks moves the week's Thursday and Monday by as much. */
  lemma ShiftByWeeks(t: int, n: int)
    ensures ThursdayOf(t + 7 * n) == ThursdayOf(t) + 7 * n
    ensures MondayOf(t + 7 * n) == MondayOf(t) + 7 * n
    ensures ThursdayOf(ThursdayOf(t + 7 * n)) == ThursdayOf(t + 7 * n)
  {
    assert (t + 7 * n + 3) % 7 == (t + 3) % 7;
    ThursdayFacts(t);
    ThursdayOfMonday(t);
  }

  /** All days of a Monday-to-Sunday week have the same Thursday. */
  lemma ThursdayOfMonday(t: int)
    ensures ThursdayOf(MondayOf(t)) == ThursdayOf(t)
    ensures MondayOf(MondayOf(t)) == MondayOf(t)
  {
    ThursdayFacts(t);
    assert IsoDay(MondayOf(t)) == 1;
  }

  /** The first Thursday of year `y` is among its first seven days. */
  lemma FirstThursday(y: int)
    ensures var t := ThursdayOf(YearStart(y) + 3); YearStart(y) <= t <= YearStart(y) + 6
  {
    ThursdayFacts(YearStart(y) + 3);
  }

  /** Years the source reads back unchanged: `Date.UTC` shifts 0 .. 99 by 1900. */
  predicate PlainYear(y: int) {
    !(0 <= y <= 99)
  }

  /**
   * The week number is 1 to 53 and counts the Thursdays of the ISO year up to
   * and including this week's: the week's Thursday is the first Thursday of
   * the year plus `7 * (week - 1)` days.
   */
  lemma WeekNumberFacts(t: int)
    requires PlainYear(IsoYear(t))
    ensures 1 <= IsoWeekNumber(t) <= 53
    ensures ThursdayOf(t) == ThursdayOf(YearStart(IsoYear(t)) + 3) + 7 * (IsoWeekNumber(t) - 1)
  {
    var thu := ThursdayOf(t);
    var y := YearOf(thu);
    var ys := YearStart(y);
    YearStartStep(y);
    ThursdayFacts(t);
    ThursdayFacts(ys + 3);
    assert UtcYear(y) == y;
    WeekCount(ys, ThursdayOf(ys + 3), thu, (ys + 6) / 7, (t + 3) / 7);
  }

  /** Counting Thursdays: the `Math.ceil` formula applied to a Thursday of the year. */
  lemma WeekCount(ys: int, first: int, thu: int, a: int, b: int)
    requires ys <= first <= ys + 6 && ys <= thu <= ys + 365
    requires first == 7 * a && thu == 7 * b
    ensures 1 <= CeilDiv7(thu - ys + 1) <= 53
    ensures thu == first + 7 * (CeilDiv7(thu - ys + 1) - 1)
  {
    var k := b - a;
    assert k >= 0;
    assert thu - ys + 1 + 6 == 7 * (k + 1) + (first - ys);
    assert CeilDiv7(thu - ys + 1) == k + 1;
  }

  /** The Monday that `MondayOfWeek` rebuilds from a day's year and week number is that day's Monday. */
  lemma MondayOfWeekOfDay(t: int)
    requires PlainYear(IsoYear(t))
    ensures MondayOfWeek(IsoYear(t), IsoWeekNumber(t)) == MondayOf(t)
  {
    WeekNumberFacts(t);
    ThursdayFacts(t);
    var ys := YearStart(IsoYear(t));
    ThursdayFacts(ys + 3);
  }

  /** In `year + "-W" + week`, the first separator is the one after the year. */
  lemma FirstSeparator(ys: string, ws: string)
    requires 1 <= |ys| && forall i :: 1 <= i < |ys| ==> IsDigit(ys[i])
    ensures FindSeparator(ys + "-W" + ws, 0) == Some(|ys|)
  {
    var k := ys + "-W" + ws;
    forall j | 0 <= j < |ys| ensures !(k[j] == '-' && k[j + 1] == 'W') {
      if j + 1 < |ys| {
        assert k[j + 1] == ys[j + 1];
      } else {
        assert k[j + 1] == '-';
      }
    }
    SeparatorAt(k, 0, |ys|);
  }

  /** ... and there is no second one among the week's digits. */
  lemma NoSecondSeparator(ys: string, ws: string)
    requires forall i :: 0 <= i < |ws| ==> IsDigit(ws[i])
    ensures FindSeparator(ys + "-W" + ws, |ys| + 2) == None
  {
    var k := ys + "-W" + ws;
    forall j | |ys| + 2 <= j < |k| ensures IsDigit(k[j]) {
      assert k[j] == ws[j - |ys| - 2];
    }
    NoSeparatorInDigits(k, |ys| + 2);
  }

  /** The separator search of `split('-W')` on a formatted key finds the one after the year, and no other. */
  lemma SplitFormattedKey(year: int, week: nat)
    ensures var k := FormatWeekKey(year, week);
            var ys := IntToString(year);
            FindSeparator(k, 0) == Some(|ys|) && FindSeparator(k, |ys| + 2) == None
  {
    var ws := PadStart2(NatToString(week));
    assert IntToString(week) == NatToString(week);
    forall i | 0 <= i < |ws| ensures IsDigit(ws[i]) {
      var s := NatToString(week);
      if i >= |ws| - |s| {
        assert ws[i] == ws[|ws| - |s|..][i - (|ws| - |s|)];
      }
    }
    FirstSeparator(IntToString(year), ws);
    NoSecondSeparator(IntToString(year), ws);
  }

  lemma {:induction false} SeparatorAt(k: string, from: nat, p: nat)
    requires from <= p && p + 2 <= |k| && k[p] == '-' && k[p + 1] == 'W'
    requires forall j :: from <= j < p ==> !(k[j] == '-' && k[j + 1] == 'W')
    ensures FindSeparator(k, from) == Some(p)
    decreases p - from
  {
    if from < p {
      SeparatorAt(k, from + 1, p);
    }
  }

  lemma {:induction false} NoSeparatorInDigits(k: string, from: nat)
    requires from <= |k|
    requires forall j :: from <= j < |k| ==> IsDigit(k[j])
    ensures FindSeparator(k, from) == None
    decreases |k| - from
  {
    if from + 2 <= |k| {
      assert IsDigit(k[from]);
      NoSeparatorInDigits(k, from + 1);
    }
  }

  /** A key with exactly one separator splits into the texts on either side of it. */
  lemma SplitOneSeparator(k: string, p: nat)
    requires p + 2 <= |k|
    requires FindSeparator(k, 0) == Some(p) && FindSeparator(k, p + 2) == None
    ensures SplitWeekKey(k) == (k[..p], Some(k[p + 2..]))
  {
    assert k[p + 2..|k|] == k[p + 2..];
  }

  /** A year text and a week text joined by the one separator parse back as what each text parses to. */
  lemma ParseJoined(ys: string, ws: string)
    requires FindSeparator(ys + "-W" + ws, 0) == Some(|ys|)
    requires FindSeparator(ys + "-W" + ws, |ys| + 2) == None
    ensures ParseWeekKey(ys + "-W" + ws) == (ParseInt(ys), ParseInt(ws))
  {
    var k := ys + "-W" + ws;
    assert k[..|ys|] == ys;
    assert k[|ys| + 2..] == ws;
    SplitOneSeparator(k, |ys|);
  }

  /** `split('-W')` and `parseInt` read back the year and the week of a formatted key. */
  lemma ParseFormattedKey(year: int, week: nat)
    ensures ParseWeekKey(FormatWeekKey(year, week)) == (Some(year), Some(week))
  {
    var ys := IntToString(year);
    var ws := PadStart2(NatToString(week));
    assert IntToString(week) == NatToString(week);
    assert FormatWeekKey(year, week) == ys + "-W" + ws;
    SplitFormattedKey(year, week);
    ParseJoined(ys, ws);
    ParseIntOfIntToString(year);
    ParseIntOfPadded(week);
  }

  /** Days with the same Thursday have the same key. */
  lemma KeyByThursday(a: int, b: int)
    requires ThursdayOf(a) == ThursdayOf(b)
    ensures WeekKeyOfDay(a) == WeekKeyOfDay(b)
  {
  }

  lemma AddWeeksOfParsed(k: string, year: int, week: int, n: int)
    requires ParseWeekKey(k) == (Some(year), Some(week))
    ensures AddWeeks(k, n) == KeyAfterWeeks(MondayOfWeek(year, week), n)
  {
  }

  /** The key of a day reads back as its ISO year and week number. */
  lemma ParseDayKey(t: int)
    requires PlainYear(IsoYear(t))
    ensures ParseWeekKey(WeekKeyOfDay(t)) == (Some(IsoYear(t)), Some(IsoWeekNumber(t)))
  {
    WeekNumberFacts(t);
    ParseFormattedKey(IsoYear(t), IsoWeekNumber(t));
    assert WeekKeyOfDay(t) == FormatWeekKey(IsoYear(t), IsoWeekNumber(t));
  }

  /** Moving `n` weeks from the Monday of a day's week lands in the week `n` weeks after that day's. */
  lemma KeyAfterWeeksFromMonday(t: int, n: int)
    requires PlainYear(YearOf(MondayOf(t) + n * 7))
    ensures KeyAfterWeeks(MondayOf(t), n) == WeekKeyOfDay(t + 7 * n)
  {
    UtcRebuildSpec(MondayOf(t) + n * 7);
    ShiftedThursday(t, n);
  }

  lemma ShiftedThursday(t: int, n: int)
    ensures ThursdayOf(MondayOf(t) + n * 7) == ThursdayOf(t + 7 * n)
  {
    var m := MondayOf(t);
    ThursdayOfMonday(t);
    ShiftByWeeks(m, n);
    ShiftByWeeks(t, n);
    assert m + n * 7 == m + 7 * n;
  }

  /**
   * `UtcRebuild` leaves a day of a year outside 0..99 alone, and moves a day
   * of a year from 0 to 99 into the year 1900 + year.
   */
  lemma UtcRebuildSpec(t: int)
    ensures PlainYear(YearOf(t)) ==> UtcRebuild(t) == t
    ensures !PlainYear(YearOf(t)) ==> YearOf(UtcRebuild(t)) == UtcYear(YearOf(t))
  {
    var y := YearOf(t);
    if !PlainYear(y) {
      var r := UtcRebuild(t);
      YearStartStep(y);
      YearStartStep(1900 + y);
      if y != 0 {
        assert (1900 + y) % 4 == y % 4;
        assert (1900 + y) % 100 == y;
        assert DaysInYear(1900 + y) == DaysInYear(y);
      } else {
        assert DaysInYear(1900) == 365;
      }
      assert YearStart(1900 + y) <= r < YearStart(1900 + y + 1);
      YearOfUnique(r, 1900 + y);
    }
  }

  /**
   * The Monday of a week whose ISO year is outside 0..99 lies in a year
   * outside 0..99 too: 1 January 100 is a Friday, so ISO year 100 starts on
   * Monday 4 January 100.
   */
  lemma MondayYear(t: int)
    requires PlainYear(IsoYear(t))
    ensures PlainYear(YearOf(MondayOf(t)))
    ensures IsoYear(t) >= 100 ==> YearOf(MondayOf(t)) >= 100
  {
    ThursdayFacts(t);
    if IsoYear(t) < 0 {
      YearOfMonotone(MondayOf(t), ThursdayOf(t));
    } else {
      YearStartMonotone(100, IsoYear(t));
      assert YearStart(100) == -683003;
      var q := (t + 3) / 7;
      assert 7 * q >= -683003;
      assert q >= -97571;
      YearStartStep(100);
      YearOfUnique(YearStart(100), 100);
      YearOfMonotone(YearStart(100), MondayOf(t));
    }
  }

  /** From ISO year 100 on, today lies in year 100 or later and `getCurrentISOWeek()` is today's key. */
  lemma CurrentWeekOfDay(today: int)
    requires IsoYear(today) >= 100
    ensures YearOf(today) >= 100
    ensures CurrentIsoWeek(today) == WeekKeyOfDay(today)
  {
    MondayYear(today);
    YearOfMonotone(MondayOf(today), today);
    UtcRebuildSpec(today);
  }

  /**
   * Adding `n` weeks to the key of day `t` moves `n` weeks from the Monday
   * of `t`'s week (and then rebuilds the day reached with `Date.UTC`).
   */
  lemma AddWeeksRebuilt(t: int, n: int)
    requires PlainYear(IsoYear(t))
    ensures AddWeeks(WeekKeyOfDay(t), n) == KeyAfterWeeks(MondayOf(t), n)
  {
    ParseDayKey(t);
    AddWeeksOfParsed(WeekKeyOfDay(t), IsoYear(t), IsoWeekNumber(t), n);
    MondayOfWeekOfDay(t);
  }

  /**
   * Adding `n` weeks to the key of day `t` gives the key of the day `7 * n`
   * days later, when neither week lies in ISO years 0..99.
   */
  lemma AddWeeksToDayKey(t: int, n: int)
    requires PlainYear(IsoYear(t)) && PlainYear(IsoYear(t + 7 * n))
    ensures AddWeeks(WeekKeyOfDay(t), n) == WeekKeyOfDay(t + 7 * n)
  {
    ShiftedMondayYear(t, n, t + 7 * n);
    KeyAfterWeeksFromMonday(t, n);
    AddWeeksRebuilt(t, n);
  }

  /** The Monday `n` weeks after `t`'s is the Monday of `u == t + 7 * n`, so it lies outside years 0..99 when `u`'s ISO year does. */
  lemma ShiftedMondayYear(t: int, n: int, u: int)
    requires u == t + 7 * n && PlainYear(IsoYear(u))
    ensures PlainYear(YearOf(MondayOf(t) + n * 7))
  {
    MondayShift(t, n, u);
    MondayYear(u);
  }

  /** Moving the Monday of `t`'s week by `n` weeks gives the Monday of `u`, `n` weeks after `t`. */
  lemma MondayShift(t: int, n: int, u: int)
    requires u == t + 7 * n
    ensures YearOf(MondayOf(t) + n * 7) == YearOf(MondayOf(u))
  {
    ShiftByWeeks(t, n);
    assert MondayOf(t) + n * 7 == MondayOf(u);
  }

  /** `addWeeksToISO(k, 0) == k` for every key the server itself produces. */
  lemma AddZeroWeeks(t: int)
    requires PlainYear(IsoYear(t))
    ensures AddWeeks(WeekKeyOfDay(t), 0) == WeekKeyOfDay(t)
  {
    assert t + 7 * 0 == t;
    AddWeeksToDayKey(t, 0);
  }

  /** Two days have the same key only if they lie in the same Monday-to-Sunday week. */
  lemma SameKeySameWeek(a: int, b: int)
    requires PlainYear(IsoYear(a)) && PlainYear(IsoYear(b))
    ensures WeekKeyOfDay(a) == WeekKeyOfDay(b) ==> MondayOf(a) == MondayOf(b)
  {
    WeekNumberFacts(a);
    WeekNumberFacts(b);
    ParseFormattedKey(IsoYear(a), IsoWeekNumber(a));
    ParseFormattedKey(IsoYear(b), IsoWeekNumber(b));
    MondayOfWeekOfDay(a);
    MondayOfWeekOfDay(b);
  }

  /** The ISO year never decreases from one week to a later one. */
  lemma IsoYearMonotone(t: int, n: nat)
    ensures IsoYear(t) <= IsoYear(t + 7 * n)
  {
    ShiftByWeeks(t, n);
    YearOfMonotone(ThursdayOf(t), ThursdayOf(t + 7 * n));
  }

  /** Key `n` of the window is the key of the day `7 * n` days after today. */
  lemma WindowKey(today: int, n: nat)
    requires IsoYear(today) >= 100
    ensures AddWeeks(CurrentIsoWeek(today), n) == WeekKeyOfDay(today + 7 * n)
    ensures PlainYear(IsoYear(today + 7 * n))
  {
    IsoYearMonotone(today, n);
    CurrentWeekOfDay(today);
    AddWeeksToDayKey(today, n);
  }

  /** Days in different weeks have different keys. */
  lemma DistinctWeeks(t: int, m: nat, n: nat)
    requires PlainYear(IsoYear(t + 7 * m)) && PlainYear(IsoYear(t + 7 * n))
    requires m < n
    ensures WeekKeyOfDay(t + 7 * m) != WeekKeyOfDay(t + 7 * n)
  {
    ShiftByWeeks(t, m);
    ShiftByWeeks(t, n);
    DifferentThursdayKeys(ThursdayOf(t + 7 * m), ThursdayOf(t + 7 * n));
  }

  /** Different Thursdays give different keys. */
  lemma DifferentThursdayKeys(x: int, y: int)
    requires ThursdayOf(x) == x && ThursdayOf(y) == y
    requires PlainYear(YearOf(x)) && PlainYear(YearOf(y))
    requires x != y
    ensures KeyOfThursday(x) != KeyOfThursday(y)
  {
    ThursdayFacts(x);
    ThursdayFacts(y);
    SameKeySameWeek(x, y);
  }

  /**
   * `getExpectedWeekKeys()`: the current week and the eight after it. From
   * ISO year 100 on, these are the keys of the nine consecutive weeks that
   * start with today's, each the week after the one before, all different.
   */
  method ExpectedWeekKeys(today: int) returns (keys: seq<string>)
    ensures |keys| == 9
    ensures forall i :: 0 <= i < 9 ==> keys[i] == AddWeeks(CurrentIsoWeek(today), i)
    ensures IsoYear(today) >= 100 ==> forall i :: 0 <= i < 9 ==> keys[i] == WeekKeyOfDay(today + 7 * i)
    ensures IsoYear(today) >= 100 ==> forall i, j :: 0 <= i < j < 9 ==> keys[i] != keys[j]
    ensures IsoYear(today) >= 100 ==> keys[0] == CurrentIsoWeek(today)
    ensures IsoYear(today) >= 100 ==> forall i :: 0 <= i < 8 ==> keys[i + 1] == AddWeeks(keys[i], 1)
  {
    var current := CurrentIsoWeek(today);
    keys := [];
    for i := 0 to 9
      invariant |keys| == i
      invariant forall j :: 0 <= j < i ==> keys[j] == AddWeeks(current, j)
    {
      var next := keys + [AddWeeks(current, i)];
      forall j | 0 <= j < i + 1 ensures next[j] == AddWeeks(current, j) {
        if j == i {
          assert next[j] == AddWeeks(current, i);
        } else {
          assert next[j] == keys[j];
        }
      }
      keys := next;
    }
    WindowFacts(today, keys);
  }

  /** What the nine keys of the window are, from ISO year 100 on. */
  lemma WindowFacts(today: int, keys: seq<string>)
    requires |keys| == 9
    requires forall i :: 0 <= i < 9 ==> keys[i] == AddWeeks(CurrentIsoWeek(today), i)
    ensures IsoYear(today) >= 100 ==> forall i :: 0 <= i < 9 ==> keys[i] == WeekKeyOfDay(today + 7 * i)
    ensures IsoYear(today) >= 100 ==> forall i, j :: 0 <= i < j < 9 ==> keys[i] != keys[j]
    ensures IsoYear(today) >= 100 ==> keys[0] == CurrentIsoWeek(today)
    ensures IsoYear(today) >= 100 ==> forall i :: 0 <= i < 8 ==> keys[i + 1] == AddWeeks(keys[i], 1)
  {
    if IsoYear(today) >= 100 {
      WindowDays(today, keys);
      WindowFirst(today, keys[0]);
      WindowDistinct(today, keys);
      WindowSuccessor(today, keys);
    }
  }

  /** From ISO year 100 on, key `i` of the window is the key of the day `7 * i` days after today. */
  lemma WindowDays(today: int, keys: seq<string>)
    requires |keys| == 9 && IsoYear(today) >= 100
    requires forall i :: 0 <= i < 9 ==> keys[i] == AddWeeks(CurrentIsoWeek(today), i)
    ensures forall i :: 0 <= i < 9 ==> keys[i] == WeekKeyOfDay(today + 7 * i) && PlainYear(IsoYear(today + 7 * i))
  {
    forall i | 0 <= i < 9 ensures keys[i] == WeekKeyOfDay(today + 7 * i) && PlainYear(IsoYear(today + 7 * i)) {
      WindowKey(today, i);
    }
  }

  /** The keys of nine days a week apart are all different. */
  lemma WindowDistinct(today: int, keys: seq<string>)
    requires |keys| == 9
    requires forall i :: 0 <= i < 9 ==> keys[i] == WeekKeyOfDay(today + 7 * i) && PlainYear(IsoYear(today + 7 * i))
    ensures forall i, j :: 0 <= i < j < 9 ==> keys[i] != keys[j]
  {
    forall i, j | 0 <= i < j < 9 ensures keys[i] != keys[j] {
      DistinctWeeks(today, i, j);
    }
  }

  /** The window starts with today's key. */
  lemma WindowFirst(today: int, first: string)
    requires IsoYear(today) >= 100 && first == AddWeeks(CurrentIsoWeek(today), 0)
    ensures first == CurrentIsoWeek(today)
  {
    CurrentWeekOfDay(today);
    AddZeroWeeks(today);
  }

  /** In a window of day keys a week apart, each key after the first is the week after the one before. */
  lemma WindowSuccessor(today: int, keys: seq<string>)
    requires |keys| == 9
    requires forall i :: 0 <= i < 9 ==> keys[i] == WeekKeyOfDay(today + 7 * i) && PlainYear(IsoYear(today + 7 * i))
    ensures forall i :: 0 <= i < 8 ==> keys[i + 1] == AddWeeks(keys[i], 1)
  {
    forall i | 0 <= i < 8 ensures keys[i + 1] == AddWeeks(keys[i], 1) {
      NextWeekKey(today + 7 * i, today + 7 * (i + 1));
    }
  }

  /** The key one week after day `t`'s is the key of the day a week later, when neither week lies in ISO years 0..99. */
  lemma NextWeekKey(t: int, u: int)
    requires PlainYear(IsoYear(t)) && PlainYear(IsoYear(u)) && u == t + 7
    ensures AddWeeks(WeekKeyOfDay(t), 1) == WeekKeyOfDay(u)
  {
    AddWeeksToDayKey(t, 1);
  }
}
