/**
 * Calendar dates and times as Python's `datetime` keeps them, subtraction
 * of whole days, `isoformat()`, and the reporting-period labels turned into
 * ISO ranges.
 */
module Dates {
  import opened PyStr
  import opened PyFloat

  // ---------------------------------------------------------------------
  // The proleptic Gregorian calendar, years 1 to 9999
  // ---------------------------------------------------------------------

  datatype Date = Date(year: int, month: int, day: int)

  predicate IsLeap(y: int)
  {
    y % 4 == 0 && (y % 100 != 0 || y % 400 == 0)
  }

  function DaysIn(y: int, m: int): (n: int)
    requires 1 <= m <= 12
    ensures 28 <= n <= 31
  {
    if m == 2 then (if IsLeap(y) then 29 else 28)
    else if m == 4 || m == 6 || m == 9 || m == 11 then 30
    else 31
  }

  /** A date `datetime` accepts: `MINYEAR` 1 to `MAXYEAR` 9999, a real day of the month. */
  predicate ValidDate(d: Date)
  {
    1 <= d.year <= 9999 && 1 <= d.month <= 12 && 1 <= d.day <= DaysIn(d.year, d.month)
  }

  const FirstDate := Date(1, 1, 1)
  const LastDate := Date(9999, 12, 31)

  /** Chronological order. */
  predicate DateLt(a: Date, b: Date)
  {
    a.year < b.year
    || (a.year == b.year && a.month < b.month)
    || (a.year == b.year && a.month == b.month && a.day < b.day)
  }

  /** The day before. */
  function PrevDay(d: Date): (r: Date)
    requires ValidDate(d) && d != FirstDate
    ensures ValidDate(r) && DateLt(r, d)
  {
    if d.day > 1 then Date(d.year, d.month, d.day - 1)
    else if d.month > 1 then Date(d.year, d.month - 1, DaysIn(d.year, d.month - 1))
    else Date(d.year - 1, 12, 31)
  }

  /** The day after. */
  function NextDay(d: Date): (r: Date)
    requires ValidDate(d) && d != LastDate
    ensures ValidDate(r) && DateLt(d, r)
  {
    if d.day < DaysIn(d.year, d.month) then Date(d.year, d.month, d.day + 1)
    else if d.month < 12 then Date(d.year, d.month + 1, 1)
    else Date(d.year + 1, 1, 1)
  }

  /** Going back a day and then forward a day returns to the same date, and conversely. */
  lemma PrevNextInverse(d: Date)
    requires ValidDate(d)
    ensures d != FirstDate ==> PrevDay(d) != LastDate && NextDay(PrevDay(d)) == d
    ensures d != LastDate ==> NextDay(d) != FirstDate && PrevDay(NextDay(d)) == d
  {
  }

  /**
   * `d - timedelta(days=n)`: the date `n` days earlier, or nothing where
   * Python raises `OverflowError` because that falls before 0001-01-01.
   */
  function MinusDays(d: Date, n: nat): (r: Option<Date>)
    requires ValidDate(d)
    ensures r.Some? ==> ValidDate(r.value)
    ensures r.Some? && n > 0 ==> DateLt(r.value, d)
    decreases n
  {
    if n == 0 then Some(d)
    else if d == FirstDate then None
    else MinusDays(PrevDay(d), n - 1)
  }

  /** Counting forward `n` days from the result lands back on the day started from. */
  function PlusDays(d: Date, n: nat): Option<Date>
    requires ValidDate(d)
    decreases n
  {
    if n == 0 then Some(d)
    else if d == LastDate then None
    else PlusDays(NextDay(d), n - 1)
  }

  /** Subtracting `n` days is undone by adding `n` days. */
  lemma {:induction false} MinusThenPlus(d: Date, n: nat)
    requires ValidDate(d)
    ensures MinusDays(d, n).Some? ==> PlusDays(MinusDays(d, n).value, n) == Some(d)
    decreases n
  {
    if n > 0 && d != FirstDate {
      var p := PrevDay(d);
      MinusThenPlus(p, n - 1);
      if MinusDays(d, n).Some? {
        PlusDaysLast(MinusDays(p, n - 1).value, n - 1, p);
        PrevNextInverse(d);
      }
    }
  }

  /** Adding one day more than a chain that reaches `p` reaches the day after `p`. */
  lemma {:induction false} PlusDaysLast(e: Date, k: nat, p: Date)
    requires ValidDate(e) && ValidDate(p) && p != LastDate
    requires PlusDays(e, k) == Some(p)
    ensures PlusDays(e, k + 1) == Some(NextDay(p))
    decreases k
  {
    if k > 0 {
      PlusDaysLast(NextDay(e), k - 1, p);
    }
  }

  /** Subtracting `a` days and then `b` days is subtracting `a + b` days. */
  lemma {:induction false} MinusDaysAdds(d: Date, a: nat, b: nat)
    requires ValidDate(d)
    ensures MinusDays(d, a + b) ==
      (if MinusDays(d, a).Some? then MinusDays(MinusDays(d, a).value, b) else None)
    decreases a
  {
    if a > 0 && d != FirstDate {
      MinusDaysAdds(PrevDay(d), a - 1, b);
    } else if a > 0 {
      MinusFromFirst(a + b);
    }
  }

  lemma MinusFromFirst(n: nat)
    requires n > 0
    ensures MinusDays(FirstDate, n) == None
  {
  }

  // ---------------------------------------------------------------------
  // datetime and isoformat()
  // ---------------------------------------------------------------------

  /** A `datetime`; `offset` is the UTC offset of an aware value in minutes, `None` when naive. */
  datatype DateTime = DateTime(date: Date, hour: int, minute: int, second: int, micro: int,
                               offset: Option<int>)

  predicate ValidDateTime(t: DateTime)
  {
    ValidDate(t.date) && 0 <= t.hour < 24 && 0 <= t.minute < 60 && 0 <= t.second < 60
    && 0 <= t.micro < 1000000 && (t.offset.Some? ==> -1440 < t.offset.value < 1440)
  }

  /** `t - timedelta(days=n)`: same wall-clock time and zone, `n` calendar days earlier. */
  function MinusDaysAt(t: DateTime, n: nat): (r: Option<DateTime>)
    requires ValidDateTime(t)
    ensures r.Some? ==> ValidDateTime(r.value)
  {
    var d := MinusDays(t.date, n);
    if d.None? then None else Some(t.(date := d.value))
  }

  /** `YYYY-MM-DD` */
  function IsoDate(d: Date): string
    requires ValidDate(d)
  {
    PadZeros(d.year, 4) + "-" + PadZeros(d.month, 2) + "-" + PadZeros(d.day, 2)
  }

  /** `HH:MM:SS`, with `.ffffff` when there are microseconds. */
  function IsoTime(t: DateTime): string
    requires ValidDateTime(t)
  {
    PadZeros(t.hour, 2) + ":" + PadZeros(t.minute, 2) + ":" + PadZeros(t.second, 2)
    + (if t.micro != 0 then "." + PadZeros(t.micro, 6) else "")
  }

  /** `+HH:MM` or `-HH:MM` for an aware value, nothing for a naive one. */
  function IsoOffset(o: Option<int>): string
    requires o.Some? ==> -1440 < o.value < 1440
  {
    if o.None? then ""
    else
      var m := if o.value < 0 then -o.value else o.value;
      (if o.value < 0 then "-" else "+") + PadZeros(m / 60, 2) + ":" + PadZeros(m % 60, 2)
  }

  /** `datetime.isoformat()` */
  function IsoFormat(t: DateTime): string
    requires ValidDateTime(t)
  {
    IsoDate(t.date) + "T" + IsoTime(t) + IsoOffset(t.offset)
  }

  /** A number below 10^w takes at most `w` digits. */
  lemma {:induction false} NatToStrShort(n: nat, w: nat)
    requires w >= 1 && n < Pow10(w)
    ensures |NatToStr(n)| <= w
    decreases n
  {
    if n >= 10 {
      assert w >= 2;
      assert Pow10(w) == 10 * Pow10(w - 1);
      assert n / 10 < Pow10(w - 1);
      NatToStrShort(n / 10, w - 1);
    }
  }

  lemma {:induction false} ZerosValue(k: nat)
    ensures DigitsValue(seq(k, _ => '0')) == 0
    decreases k
  {
    if k > 0 {
      assert seq(k, _ => '0')[..k - 1] == seq(k - 1, _ => '0');
      ZerosValue(k - 1);
    }
  }

  /** A number below 10^w is padded to exactly `w` digits that read back as it. */
  lemma PadZerosExact(n: nat, w: nat)
    requires w >= 1 && n < Pow10(w)
    ensures |PadZeros(n, w)| == w && DigitsValue(PadZeros(n, w)) == n
  {
    var s := NatToStr(n);
    NatToStrShort(n, w);
    DigitsOfNatToStr(n);
    if |s| < w {
      var z: string := seq(w - |s|, _ => '0');
      ZerosValue(w - |s|);
      DigitsValueConcat(z, s);
    }
  }

  /**
   * The ISO date is ten characters, `YYYY-MM-DD`, whose three digit groups
   * read back as the year, the month and the day.
   */
  lemma IsoDateShape(d: Date)
    requires ValidDate(d)
    ensures |IsoDate(d)| == 10 && IsoDate(d)[4] == '-' && IsoDate(d)[7] == '-'
    ensures DigitsValue(IsoDate(d)[..4]) == d.year
    ensures DigitsValue(IsoDate(d)[5..7]) == d.month
    ensures DigitsValue(IsoDate(d)[8..10]) == d.day
  {
    assert Pow10(2) == 100 && Pow10(4) == 10000 by {
      assert Pow10(1) == 10 && Pow10(3) == 1000;
    }
    PadZerosExact(d.year, 4);
    PadZerosExact(d.month, 2);
    PadZerosExact(d.day, 2);
    var s := IsoDate(d);
    assert s[..4] == PadZeros(d.year, 4);
    assert s[5..7] == PadZeros(d.month, 2);
    assert s[8..10] == PadZeros(d.day, 2);
  }

  /** Different valid dates have different ISO texts. */
  lemma IsoDateInjective(a: Date, b: Date)
    requires ValidDate(a) && ValidDate(b) && IsoDate(a) == IsoDate(b)
    ensures a == b
  {
    IsoDateShape(a);
    IsoDateShape(b);
  }

  /** `isoformat()` starts with the ISO date and a `T`: what `s[:10]` reads. */
  lemma IsoFormatDate(t: DateTime)
    requires ValidDateTime(t)
    ensures |IsoFormat(t)| > 10 && IsoFormat(t)[..10] == IsoDate(t.date) && IsoFormat(t)[10] == 'T'
  {
    IsoDateShape(t.date);
    var a := IsoDate(t.date);
    assert IsoFormat(t) == a + ("T" + IsoTime(t) + IsoOffset(t.offset));
  }

  // ---------------------------------------------------------------------
  // period_label_to_range_iso
  // ---------------------------------------------------------------------

  /** The window a period label names: the first of `7`, `30`, `90` found in it. */
  function PeriodDays(l: string): (r: Option<nat>)
    ensures r.Some? ==> r.value == 7 || r.value == 30 || r.value == 90
  {
    if Contains(l, "7") then Some(7)
    else if Contains(l, "30") then Some(30)
    else if Contains(l, "90") then Some(90)
    else None
  }

  /** A range of ISO texts; both ends are absent for the whole history (`Tudo`). */
  datatype Range = Range(start: Option<string>, end: Option<string>)

  /** `now or utcnow()`: the moment given, else the clock reading. */
  function Moment(now: Option<DateTime>, clock: DateTime): DateTime
  {
    if now.Some? then now.value else clock
  }

  /** The window of `(label or "").strip().lower()`. */
  function PeriodOf(text: Option<string>): Option<nat>
  {
    PeriodDays(Lower(Strip(if text.Some? then text.value else "")))
  }

  /**
   * `period_label_to_range_iso(text, now)`, with the clock reading as a
   * parameter; nothing where the subtraction overflows.
   */
  function PeriodRange(text: Option<string>, now: Option<DateTime>, clock: DateTime): Option<Range>
    requires ValidDateTime(clock) && (now.Some? ==> ValidDateTime(now.value))
  {
    var n := Moment(now, clock);
    var k := PeriodOf(text);
    if k.None? then Some(Range(None, None))
    else
      var s := MinusDaysAt(n, k.value);
      if s.None? then None else Some(Range(Some(IsoFormat(s.value)), Some(IsoFormat(n))))
  }

  /** A label naming no window (`Tudo`) gives the open range. */
  lemma PeriodRangeOpen(text: Option<string>, now: Option<DateTime>, clock: DateTime)
    requires ValidDateTime(clock) && (now.Some? ==> ValidDateTime(now.value))
    requires PeriodOf(text).None?
    ensures PeriodRange(text, now, clock) == Some(Range(None, None))
  {
  }

  /** A label naming a window fails exactly when `now` minus the window falls before year 1. */
  lemma PeriodRangeOverflow(text: Option<string>, now: Option<DateTime>, clock: DateTime, k: nat)
    requires ValidDateTime(clock) && (now.Some? ==> ValidDateTime(now.value))
    requires PeriodOf(text) == Some(k) && ValidDate(Moment(now, clock).date)
    ensures PeriodRange(text, now, clock).None? <==> MinusDays(Moment(now, clock).date, k).None?
  {
  }

  /**
   * Otherwise the range is the ISO texts of a start and of `now`, the start
   * at the same time of day and `k` calendar days before.
   */
  lemma PeriodRangeWindow(text: Option<string>, now: Option<DateTime>, clock: DateTime, k: nat, m: Date)
    requires ValidDateTime(clock) && (now.Some? ==> ValidDateTime(now.value))
    requires PeriodOf(text) == Some(k)
    requires ValidDate(Moment(now, clock).date) && MinusDays(Moment(now, clock).date, k) == Some(m)
    ensures var n := Moment(now, clock);
      && PeriodRange(text, now, clock) == Some(Range(Some(IsoFormat(n.(date := m))), Some(IsoFormat(n))))
      && PlusDays(m, k) == Some(n.date) && DateLt(m, n.date)
  {
    MinusThenPlus(Moment(now, clock).date, k);
  }

  /** A text holding `7` names the week, whatever surrounds it. */
  lemma PeriodOfWeek(a: string, b: string)
    requires IsStripped(a + "7" + b)
    ensures PeriodOf(Some(a + "7" + b)) == Some(7)
  {
    var t := a + "7" + b;
    var l := Lower(a) + "7" + Lower(b);
    assert Lower(Strip(t)) == l by {
      StripOfStripped(t);
      LowerConcat(a, "7" + b);
      LowerConcat("7", b);
    }
    assert Contains(l, "7") by {
      assert StartsAt(l, |a|, "7");
    }
  }

  lemma TudoText()
    ensures Strip("Tudo") == "Tudo" && Lower("Tudo") == "tudo"
  {
    StripOfStripped("Tudo");
  }

  /** `Tudo` names no window, and neither does a missing label. */
  lemma PeriodOfAll()
    ensures PeriodOf(Some("Tudo")) == None
    ensures PeriodOf(None) == None
  {
    TudoText();
    assert !Contains("tudo", "7") && !Contains("tudo", "30") && !Contains("tudo", "90") by {
      NoDigitNoMatch("tudo", "7");
      NoDigitNoMatch("tudo", "30");
      NoDigitNoMatch("tudo", "90");
    }
    assert !Contains("", "7") && !Contains("", "30") && !Contains("", "90");
  }

  /** A text without digits contains no text that starts with a digit. */
  lemma NoDigitNoMatch(l: string, w: string)
    requires |w| > 0 && IsDigit(w[0]) && forall i :: 0 <= i < |l| ==> !IsDigit(l[i])
    ensures !Contains(l, w)
  {
    forall i | 0 <= i <= |l| ensures !StartsAt(l, i, w) {
      if i + |w| <= |l| {
        assert l[i..i + |w|][0] == l[i];
      }
    }
  }

  /** The moment of the test suite: 2025-08-29 12:00 UTC. */
  const TestNow := DateTime(Date(2025, 8, 29), 12, 0, 0, 0, Some(0))

  lemma WeekBeforeTestNow()
    ensures MinusDays(TestNow.date, 7) == Some(Date(2025, 8, 22))
  {
    assert MinusDays(Date(2025, 8, 23), 1) == Some(Date(2025, 8, 22));
    assert MinusDays(Date(2025, 8, 24), 2) == Some(Date(2025, 8, 22));
    assert MinusDays(Date(2025, 8, 25), 3) == Some(Date(2025, 8, 22));
    assert MinusDays(Date(2025, 8, 26), 4) == Some(Date(2025, 8, 22));
    assert MinusDays(Date(2025, 8, 27), 5) == Some(Date(2025, 8, 22));
    assert MinusDays(Date(2025, 8, 28), 6) == Some(Date(2025, 8, 22));
  }

  /**
   * "Últimos 7 dias" at 2025-08-29 12:00 UTC starts at 2025-08-22 12:00 UTC
   * and ends at `now`, so both dates are the ones `s7[:10]` and `e7[:10]`
   * read; "Tudo" gives `(None, None)`.
   */
  lemma PeriodExamples(week: string)
    requires week == "\U{00DA}ltimos " + "7" + " dias"
    ensures PeriodRange(Some(week), Some(TestNow), TestNow) ==
      Some(Range(Some(IsoFormat(TestNow.(date := Date(2025, 8, 22)))), Some(IsoFormat(TestNow))))
    ensures PeriodRange(Some("Tudo"), Some(TestNow), TestNow) == Some(Range(None, None))
  {
    PeriodOfWeek("\U{00DA}ltimos ", " dias");
    WeekBeforeTestNow();
    PeriodRangeWindow(Some(week), Some(TestNow), TestNow, 7, Date(2025, 8, 22));
    PeriodOfAll();
    PeriodRangeOpen(Some("Tudo"), Some(TestNow), TestNow);
  }
}
