/**
 * The closed-season (defeso) spreadsheets turned into a tidy table: dates
 * normalised to ISO, the federative-unit cells split into one code each,
 * the yearly windows parsed into (start, end) pairs, one output row per
 * unit and period, then the consolidated table deduplicated and sorted.
 * Spreadsheet reading is left out; a sheet is given as its rows.
 */
module EtlDefesos {
  import opened PyStr
  import opened PyFloat
  import opened Seqs
  import opened Dates
  import opened Frames

  /** A day `pandas` can hold in a `Timestamp` is a valid calendar day. */
  type Day = d: Date | ValidDate(d) witness Date(1, 1, 1)

  /**
   * A spreadsheet cell: `None`, the float NaN, `NaT`, a timestamp at
   * midnight, or anything else as its `str` text.
   */
  datatype Cell = Null | NaN | NaT | Stamp(date: Day) | Text(s: string)

  /** `str(cell)` */
  function CellStr(c: Cell): string
  {
    match c
    case Null => "None"
    case NaN => "nan"
    case NaT => "NaT"
    case Stamp(d) => IsoDate(d) + " 00:00:00"
    case Text(s) => s
  }

  /** A missing value for `pd.isna`. */
  predicate IsNa(c: Cell)
  {
    c.Null? || c.NaN? || c.NaT?
  }

  /** `if s_iso and e_iso`: a present, non-empty text. */
  predicate Truthy(o: Option<string>)
  {
    o.Some? && o.value != ""
  }

  // ---------------------------------------------------------------------
  // norm_date: the four explicit formats
  // ---------------------------------------------------------------------

  /** A `strptime` format of three numeric fields: the separator and the field order. */
  datatype DateFormat = DateFormat(sep: char, yearFirst: bool)

  /** `%Y-%m-%d`, `%d/%m/%Y`, `%d-%m-%Y`, `%Y/%m/%d`, in the order they are tried. */
  const DateFormats: seq<DateFormat> := [
    DateFormat('-', true), DateFormat('/', false), DateFormat('-', false), DateFormat('/', true)]

  /** What `%Y` accepts: exactly four digits. */
  predicate YearText(t: string)
  {
    |t| == 4 && AllDigits(t)
  }

  /** What `%m` accepts: `1[0-2]`, `0[1-9]` or `[1-9]`. */
  predicate MonthText(t: string)
  {
    (|t| == 2 && t[0] == '1' && '0' <= t[1] <= '2')
    || (|t| == 2 && t[0] == '0' && '1' <= t[1] <= '9')
    || (|t| == 1 && '1' <= t[0] <= '9')
  }

  /** What `%d` accepts: `3[01]`, `[12]\d`, `0[1-9]`, `[1-9]` or a blank and `[1-9]`. */
  predicate DayText(t: string)
  {
    (|t| == 2 && t[0] == '3' && '0' <= t[1] <= '1')
    || (|t| == 2 && '1' <= t[0] <= '2' && IsDigit(t[1]))
    || (|t| == 2 && t[0] == '0' && '1' <= t[1] <= '9')
    || (|t| == 1 && '1' <= t[0] <= '9')
    || (|t| == 2 && t[0] == ' ' && '1' <= t[1] <= '9')
  }

  /** The day a `%d` field names. */
  function DayValue(t: string): nat
  {
    if |t| == 2 && t[0] == ' ' then DigitValue(t[1]) else DigitsValue(t)
  }

  /**
   * `datetime.strptime(s, fmt).date()`: three fields separated by the
   * format's separator, each matching its directive and the whole text
   * consumed, naming a real day of years 1 to 9999.
   */
  function Strptime(s: string, f: DateFormat): (r: Option<Date>)
    ensures r.Some? ==> ValidDate(r.value)
  {
    var p := SplitChars(s, {f.sep});
    if |p| != 3 then None
    else
      var y := if f.yearFirst then p[0] else p[2];
      var d := if f.yearFirst then p[2] else p[0];
      if !(YearText(y) && MonthText(p[1]) && DayText(d)) then None
      else
        var date := Date(DigitsValue(y), DigitsValue(p[1]), DayValue(d));
        if ValidDate(date) then Some(date) else None
  }

  /** The first format that parses `s`. */
  function FirstParse(s: string, fmts: seq<DateFormat>): (r: Option<Date>)
    ensures r.Some? ==> ValidDate(r.value)
    decreases |fmts|
  {
    if |fmts| == 0 then None
    else
      var d := Strptime(s, fmts[0]);
      if d.Some? then d else FirstParse(s, fmts[1..])
  }

  /**
   * `norm_date(val)`. `fallback` stands for the tolerant
   * `pd.to_datetime(s, dayfirst=True, errors="coerce")`: the day it reads,
   * or `None` for `NaT`. `NaT` itself goes through the timestamp branch,
   * whose `.date().isoformat()` is the text `"NaT"`.
   */
  function NormDate(val: Cell, fallback: string -> Option<Date>): Option<string>
  {
    match val
    case Null => None
    case NaN => None
    case NaT => Some("NaT")
    case Stamp(d) => Some(IsoDate(d))
    case Text(t) => NormText(t, fallback)
  }

  /** The text branch of `norm_date`. */
  function NormText(t: string, fallback: string -> Option<Date>): Option<string>
  {
    var s := Strip(t);
    if s == "" then None
    else
      var d := FirstParse(s, DateFormats);
      if d.Some? then Some(IsoDate(d.value))
      else
        var e := fallback(s);
        if e.Some? && ValidDate(e.value) then Some(IsoDate(e.value)) else None
  }

  /** The fallback that reads nothing: only the explicit formats are used. */
  function NoFallback(s: string): Option<Date>
  {
    None
  }

  /** `None`, NaN and blank texts have no date. */
  lemma NormDateMissing(val: Cell, fallback: string -> Option<Date>)
    requires val.Null? || val.NaN? || (val.Text? && Strip(val.s) == "")
    ensures NormDate(val, fallback) == None
  {
  }

  /** Every date produced is the ISO text of a valid day, except for the `NaT` cell. */
  lemma NormDateShape(val: Cell, fallback: string -> Option<Date>)
    ensures NormDate(val, fallback).Some? && !val.NaT? ==>
      exists d :: ValidDate(d) && NormDate(val, fallback).value == IsoDate(d)
    ensures val.NaT? ==> NormDate(val, fallback) == Some("NaT")
  {
    var r := NormDate(val, fallback);
    if r.Some? && val.Stamp? {
      assert ValidDate(val.date) && r.value == IsoDate(val.date);
    } else if r.Some? && val.Text? {
      var s := Strip(val.s);
      var d := FirstParse(s, DateFormats);
      if d.Some? {
        assert ValidDate(d.value) && r.value == IsoDate(d.value);
      } else {
        assert ValidDate(fallback(s).value) && r.value == IsoDate(fallback(s).value);
      }
    }
  }

  /** A two-character field reads as its tens and units digits. */
  lemma TwoDigits(t: string)
    requires |t| == 2
    ensures DigitsValue(t) == 10 * DigitValue(t[0]) + DigitValue(t[1])
  {
    var h := t[..1];
    assert h[..0] == [] && h[0] == t[0];
    assert DigitsValue(h) == DigitsValue(h[..0]) * 10 + DigitValue(h[0]);
    assert t[..|t| - 1] == h;
  }

  /** The three zero-padded pieces of a valid day and what they read as. */
  lemma DayPieces(d: Date)
    requires ValidDate(d)
    ensures YearText(PadZeros(d.year, 4)) && DigitsValue(PadZeros(d.year, 4)) == d.year
    ensures MonthText(PadZeros(d.month, 2)) && DigitsValue(PadZeros(d.month, 2)) == d.month
    ensures DayText(PadZeros(d.day, 2)) && DayValue(PadZeros(d.day, 2)) == d.day
  {
    assert Pow10(2) == 100 && Pow10(4) == 10000 by {
      assert Pow10(1) == 10 && Pow10(3) == 1000;
    }
    PadZerosExact(d.year, 4);
    PadZerosExact(d.month, 2);
    PadZerosExact(d.day, 2);
    TwoDigits(PadZeros(d.month, 2));
    TwoDigits(PadZeros(d.day, 2));
  }

  /** Digits and `-` only: no blank, no `/`, no `;`, no `,`. */
  predicate DateChars(s: string)
  {
    forall j :: 0 <= j < |s| ==> IsDigit(s[j]) || s[j] == '-' || s[j] == '/'
  }

  lemma DateCharsFree(s: string, seps: set<char>)
    requires DateChars(s) && forall c :: c in seps ==> !IsDigit(c) && c != '-' && c != '/'
    ensures FreeOf(s, seps)
  {
  }

  lemma DigitsFree(s: string, seps: set<char>)
    requires AllDigits(s) && forall c :: c in seps ==> !IsDigit(c)
    ensures FreeOf(s, seps)
  {
  }

  /** The ISO text of a day is digits and `-`. */
  lemma IsoDateChars(d: Date)
    requires ValidDate(d)
    ensures DateChars(IsoDate(d)) && IsoDate(d) != ""
    ensures !IsSpace(IsoDate(d)[0]) && !IsSpace(IsoDate(d)[|IsoDate(d)| - 1])
  {
    var y := PadZeros(d.year, 4);
    var m := PadZeros(d.month, 2);
    var t := PadZeros(d.day, 2);
    var s := IsoDate(d);
    assert s == y + "-" + m + "-" + t;
    forall j | 0 <= j < |s| ensures IsDigit(s[j]) || s[j] == '-' || s[j] == '/' {
      if j < |y| {
        assert s[j] == y[j];
      } else if j == |y| || j == |y| + 1 + |m| {
      } else if j < |y| + 1 + |m| {
        assert s[j] == m[j - |y| - 1];
      } else {
        assert s[j] == t[j - |y| - 2 - |m|];
      }
    }
  }

  /** `dd/mm/yyyy`, the Brazilian way of writing a day. */
  function BrDate(d: Date): string
    requires ValidDate(d)
  {
    PadZeros(d.day, 2) + "/" + PadZeros(d.month, 2) + "/" + PadZeros(d.year, 4)
  }

  /** Splitting the three pieces of a day text at their separator. */
  lemma SplitThree(a: string, c: char, b: string, e: string)
    requires FreeOf(a, {c}) && FreeOf(b, {c}) && FreeOf(e, {c})
    ensures SplitChars(a + [c] + b + [c] + e, {c}) == [a, b, e]
  {
    assert a + [c] + b + [c] + e == a + [c] + (b + [c] + e);
    SplitCharsAt(a, c, b + [c] + e, {c});
    SplitCharsAt(b, c, e, {c});
    SplitCharsFree(e, {c});
  }

  /** `%Y-%m-%d` reads the ISO text of a day back as that day. */
  lemma StrptimeIso(d: Date)
    requires ValidDate(d)
    ensures Strptime(IsoDate(d), DateFormat('-', true)) == Some(d)
  {
    var y := PadZeros(d.year, 4);
    var m := PadZeros(d.month, 2);
    var t := PadZeros(d.day, 2);
    DayPieces(d);
    DigitsFree(y, {'-'});
    DigitsFree(m, {'-'});
    DigitsFree(t, {'-'});
    SplitThree(y, '-', m, t);
  }

  /** `%d/%m/%Y` reads the Brazilian text of a day as that day. */
  lemma StrptimeBr(d: Date)
    requires ValidDate(d)
    ensures Strptime(BrDate(d), DateFormat('/', false)) == Some(d)
  {
    var y := PadZeros(d.year, 4);
    var m := PadZeros(d.month, 2);
    var t := PadZeros(d.day, 2);
    DayPieces(d);
    DigitsFree(y, {'/'});
    DigitsFree(m, {'/'});
    DigitsFree(t, {'/'});
    SplitThree(t, '/', m, y);
  }

  /** `%Y-%m-%d` and `%d-%m-%Y` fail on a text without `-`. */
  lemma StrptimeNoDash(s: string, yearFirst: bool)
    requires FreeOf(s, {'-'})
    ensures Strptime(s, DateFormat('-', yearFirst)) == None
  {
    SplitCharsFree(s, {'-'});
  }

  /** A text with only digits and whitespace never reaches a format: one piece each. */
  lemma StrptimeOnePiece(s: string, f: DateFormat)
    requires FreeOf(s, {f.sep})
    ensures Strptime(s, f) == None
  {
    SplitCharsFree(s, {f.sep});
  }

  /** An ISO day already normalised normalises to itself, whatever the fallback. */
  lemma NormDateIso(d: Date, fallback: string -> Option<Date>)
    requires ValidDate(d)
    ensures NormDate(Text(IsoDate(d)), fallback) == Some(IsoDate(d))
  {
    IsoDateChars(d);
    StrptimeIso(d);
    NormTextParsed(IsoDate(d), fallback, d);
  }

  /** A `dd/mm/yyyy` day normalises to its ISO text, whatever the fallback. */
  lemma NormDateBr(d: Date, fallback: string -> Option<Date>)
    requires ValidDate(d)
    ensures NormDate(Text(BrDate(d)), fallback) == Some(IsoDate(d))
  {
    BrDateChars(d);
    StrptimeBr(d);
    NormTextSecond(BrDate(d), fallback, d);
  }

  /** A stripped text without `-` that `%d/%m/%Y` parses normalises to that day. */
  lemma NormTextSecond(s: string, fallback: string -> Option<Date>, d: Date)
    requires s != "" && IsStripped(s) && FreeOf(s, {'-'}) && Strptime(s, DateFormat('/', false)) == Some(d)
    ensures NormDate(Text(s), fallback) == Some(IsoDate(d))
  {
    StrptimeNoDash(s, true);
    FirstParseSecond(s);
    NormTextParsed(s, fallback, d);
  }

  /** A stripped text that a format parses normalises to the ISO text of that day. */
  lemma NormTextParsed(t: string, fallback: string -> Option<Date>, d: Date)
    requires t != "" && IsStripped(t) && FirstParse(t, DateFormats) == Some(d)
    ensures NormDate(Text(t), fallback) == Some(IsoDate(d))
  {
    StripOfStripped(t);
    assert NormText(t, fallback) == Some(IsoDate(d));
  }

  /** The Brazilian text of a day: digits and `/`, so no blank and no `-`. */
  lemma BrDateChars(d: Date)
    requires ValidDate(d)
    ensures BrDate(d) != "" && IsStripped(BrDate(d)) && FreeOf(BrDate(d), {'-'})
  {
    var s := BrDate(d);
    var y := PadZeros(d.year, 4);
    var m := PadZeros(d.month, 2);
    var t := PadZeros(d.day, 2);
    assert s == t + "/" + m + "/" + y;
    forall j | 0 <= j < |s| ensures IsDigit(s[j]) || s[j] == '/' {
      if j < |t| {
        assert s[j] == t[j];
      } else if j == |t| || j == |t| + 1 + |m| {
      } else if j < |t| + 1 + |m| {
        assert s[j] == m[j - |t| - 1];
      } else {
        assert s[j] == y[j - |t| - 2 - |m|];
      }
    }
  }

  /** When `%Y-%m-%d` fails and `%d/%m/%Y` succeeds, the second format decides. */
  lemma FirstParseSecond(s: string)
    requires Strptime(s, DateFormat('-', true)) == None && Strptime(s, DateFormat('/', false)).Some?
    ensures FirstParse(s, DateFormats) == Strptime(s, DateFormat('/', false))
  {
    var rest := DateFormats[1..];
    assert DateFormats[0] == DateFormat('-', true) && rest[0] == DateFormat('/', false);
    assert FirstParse(s, rest) == Strptime(s, DateFormat('/', false));
  }

  /**
   * Normalising is idempotent: a date it produced from a timestamp or a
   * text reads back as itself.
   */
  lemma NormDateIdempotent(val: Cell, fallback: string -> Option<Date>, other: string -> Option<Date>)
    requires NormDate(val, fallback).Some? && !val.NaT?
    ensures NormDate(Text(NormDate(val, fallback).value), other) == NormDate(val, fallback)
  {
    NormDateShape(val, fallback);
    var d :| ValidDate(d) && NormDate(val, fallback).value == IsoDate(d);
    NormDateIso(d, other);
  }

  /** `norm_date` with a missing timestamp treated as missing. */
  function NormDateFixed(val: Cell, fallback: string -> Option<Date>): (r: Option<string>)
    ensures r.Some? ==> exists d :: ValidDate(d) && r.value == IsoDate(d)
  {
    NormDateShape(val, fallback);
    if val.NaT? then None else NormDate(val, fallback)
  }

  /** Every missing value, `NaT` included, has no date under the corrected rule. */
  lemma NormDateFixedMissing(val: Cell, fallback: string -> Option<Date>)
    ensures IsNa(val) ==> NormDateFixed(val, fallback) == None
    ensures !val.NaT? ==> NormDateFixed(val, fallback) == NormDate(val, fallback)
    ensures NormDate(NaT, fallback) == Some("NaT")
  {
  }

  // ---------------------------------------------------------------------
  // split_ufs
  // ---------------------------------------------------------------------

  const UfSeps: set<char> := {';', ','}

  function SomeText(p: string): Option<string>
  {
    Some(p)
  }

  /**
   * `split_ufs(cell)`: the stripped non-blank pieces between `;` and `,`,
   * or `[None]` when the cell is missing or holds none.
   */
  function SplitUfs(c: Cell): seq<Option<string>>
  {
    if c.Null? || c.NaN? then [None]
    else
      var parts := StripNonEmpty(SplitChars(CellStr(c), UfSeps));
      if |parts| == 0 then [None] else Map(parts, SomeText)
  }

  lemma {:induction false} MapSomeText(parts: seq<string>)
    ensures forall k :: 0 <= k < |parts| ==> Map(parts, SomeText)[k] == Some(parts[k])
    decreases |parts|
  {
    if |parts| > 0 {
      MapSomeText(parts[1..]);
    }
  }

  /**
   * The list is never empty, so no input row is lost; `None` stands alone
   * and exactly when the cell is missing or has no unit; every unit is
   * non-blank, stripped and free of separators.
   */
  lemma SplitUfsShape(c: Cell)
    ensures |SplitUfs(c)| >= 1
    ensures (exists k :: 0 <= k < |SplitUfs(c)| && SplitUfs(c)[k].None?) ==> SplitUfs(c) == [None]
    ensures SplitUfs(c) == [None] <==>
      c.Null? || c.NaN? || StripNonEmpty(SplitChars(CellStr(c), UfSeps)) == []
    ensures forall k :: 0 <= k < |SplitUfs(c)| && SplitUfs(c)[k].Some? ==>
      SplitUfs(c)[k].value != "" && IsStripped(SplitUfs(c)[k].value) && FreeOf(SplitUfs(c)[k].value, UfSeps)
  {
    if !(c.Null? || c.NaN?) {
      var parts := StripNonEmpty(SplitChars(CellStr(c), UfSeps));
      assert SplitUfs(c) == if |parts| == 0 then [None] else Map(parts, SomeText);
      if |parts| > 0 {
        UfPartsClean(CellStr(c), parts);
        SomeTextsShape(parts);
      }
    }
  }

  /** Wrapping clean parts gives one present value per part, never `[None]`. */
  lemma SomeTextsShape(parts: seq<string>)
    requires |parts| > 0
    requires forall k :: 0 <= k < |parts| ==> parts[k] != "" && IsStripped(parts[k]) && FreeOf(parts[k], UfSeps)
    ensures var r := Map(parts, SomeText);
      && |r| >= 1 && r != [None]
      && !(exists k :: 0 <= k < |r| && r[k].None?)
      && forall k :: 0 <= k < |r| && r[k].Some? ==> r[k].value != "" && IsStripped(r[k].value) && FreeOf(r[k].value, UfSeps)
  {
    var r := Map(parts, SomeText);
    MapSomeText(parts);
    assert r[0].Some?;
  }

  /** The stripped non-empty pieces of a text cut at the UF separators are clean. */
  lemma UfPartsClean(s: string, parts: seq<string>)
    requires parts == StripNonEmpty(SplitChars(s, UfSeps))
    ensures forall k :: 0 <= k < |parts| ==> parts[k] != "" && IsStripped(parts[k]) && FreeOf(parts[k], UfSeps)
  {
    var pieces := SplitChars(s, UfSeps);
    StripNonEmptyItems(pieces);
    SplitCharsPieces(s, UfSeps);
    StripNonEmptyAvoids(pieces, UfSeps);
    forall k | 0 <= k < |parts| ensures parts[k] != "" && IsStripped(parts[k]) && FreeOf(parts[k], UfSeps) {
      assert parts[k] in parts;
    }
  }

  /** Units joined with `,` split back into themselves. */
  lemma SplitUfsJoin(ufs: seq<string>)
    requires |ufs| >= 1 && AllClean(ufs)
    requires forall k :: 0 <= k < |ufs| ==> FreeOf(ufs[k], UfSeps)
    ensures SplitUfs(Text(Join(ufs, ","))) == Map(ufs, SomeText)
  {
    SplitJoin(ufs, ',', UfSeps);
    StripNonEmptyClean(ufs);
  }

  // ---------------------------------------------------------------------
  // parse_windows
  // ---------------------------------------------------------------------

  /** The characters `RANGE_SPLIT` cuts at: `a`, `-`, the en dash and the em dash. */
  const RangeSeps: set<char> := {'a', '-', '\U{2013}', '\U{2014}'}

  /**
   * `RANGE_SPLIT.split(chunk)`, up to the blanks around each cut, which the
   * caller strips anyway.
   */
  function RangeParts(chunk: string): seq<string>
  {
    SplitChars(chunk, RangeSeps)
  }

  /** `norm_date` applied to a text, as `parse_windows` calls it. */
  function DateText(fallback: string -> Option<Date>): string -> Option<string>
  {
    (s: string) => NormDate(Text(s), fallback)
  }

  /** A text normaliser whose every result is the ISO text of a valid day. */
  ghost predicate IsoValued(norm: string -> Option<string>)
  {
    forall s :: norm(s).Some? ==> exists d :: ValidDate(d) && norm(s).value == IsoDate(d)
  }

  /** `norm_date` on texts only ever yields ISO days. */
  lemma DateTextIso(fallback: string -> Option<Date>)
    ensures IsoValued(DateText(fallback))
  {
    forall s | DateText(fallback)(s).Some?
      ensures exists d :: ValidDate(d) && DateText(fallback)(s).value == IsoDate(d)
    {
      NormDateShape(Text(s), fallback);
    }
  }

  /** The pair a non-blank chunk yields, if both normalised ends are truthy. */
  function ChunkPair(chunk: string, split: string -> seq<string>, norm: string -> Option<string>): Option<(string, string)>
  {
    var parts := split(chunk);
    if |parts| < 2 then None
    else PairOf(norm(Strip(parts[0])), norm(Strip(parts[1])))
  }

  function PairOf(s: Option<string>, e: Option<string>): Option<(string, string)>
  {
    if Truthy(s) && Truthy(e) then Some((s.value, e.value)) else None
  }

  /** What one chunk contributes: nothing for a blank chunk, else its pair if any. */
  function ChunkWindows(chunk: string, split: string -> seq<string>, norm: string -> Option<string>): (r: seq<(string, string)>)
  {
    if chunk == "" then []
    else
      var p := ChunkPair(chunk, split, norm);
      if p.Some? then [p.value] else []
  }

  function ChunkFn(split: string -> seq<string>, norm: string -> Option<string>): string -> seq<(string, string)>
  {
    (chunk: string) => ChunkWindows(chunk, split, norm)
  }

  /** The pairs of the chunks, in order. */
  function WindowsOf(chunks: seq<string>, split: string -> seq<string>, norm: string -> Option<string>): seq<(string, string)>
  {
    FlatMap(chunks, ChunkFn(split, norm))
  }

  /**
   * `WIN_PAIR_SPLIT.split(s)` with each chunk stripped: the blanks the
   * pattern takes around each `;` are the ones `strip` removes.
   */
  function Chunks(s: string): seq<string>
  {
    Map(SplitChars(s, {';'}), Strip)
  }

  /** `parse_windows(cell)` with `split` cutting a chunk into its two ends. */
  function ParseWindowsOf(c: Cell, split: string -> seq<string>, norm: string -> Option<string>): seq<(string, string)>
  {
    if c.Null? || c.NaN? then []
    else
      var s := Strip(CellStr(c));
      if s == "" then [] else WindowsOf(Chunks(s), split, norm)
  }

  /** The loop of `parse_windows`. */
  method ParseWindows(c: Cell, split: string -> seq<string>, norm: string -> Option<string>)
    returns (pairs: seq<(string, string)>)
    ensures pairs == ParseWindowsOf(c, split, norm)
  {
    if c.Null? || c.NaN? {
      return [];
    }
    var s := Strip(CellStr(c));
    if s == "" {
      return [];
    }
    pairs := ChunkLoop(Chunks(s), split, norm);
  }

  /** `for chunk in ...`: the pairs of every chunk, appended in order. */
  method ChunkLoop(chunks: seq<string>, split: string -> seq<string>, norm: string -> Option<string>)
    returns (pairs: seq<(string, string)>)
    ensures pairs == WindowsOf(chunks, split, norm)
  {
    pairs := [];
    for i := 0 to |chunks|
      invariant pairs == FlatMap(chunks[..i], ChunkFn(split, norm))
    {
      var w := ChunkStep(chunks[i], split, norm);
      PrefixSnoc(chunks, i);
      FlatMapSnoc(chunks[..i], chunks[i], ChunkFn(split, norm));
      pairs := pairs + w;
    }
    assert chunks[..|chunks|] == chunks;
  }

  /** The body of the loop: skip a blank chunk, else keep its pair if both ends normalise. */
  method ChunkStep(chunk: string, split: string -> seq<string>, norm: string -> Option<string>)
    returns (w: seq<(string, string)>)
    ensures w == ChunkWindows(chunk, split, norm)
  {
    w := [];
    if chunk == "" {
      return;
    }
    var parts := split(chunk);
    if |parts| >= 2 {
      var sIso := norm(Strip(parts[0]));
      var eIso := norm(Strip(parts[1]));
      if Truthy(sIso) && Truthy(eIso) {
        w := [(sIso.value, eIso.value)];
      }
    }
  }

  /** A missing or blank cell has no windows. */
  lemma ParseWindowsMissing(c: Cell, split: string -> seq<string>, norm: string -> Option<string>)
    requires c.Null? || c.NaN? || Strip(CellStr(c)) == ""
    ensures ParseWindowsOf(c, split, norm) == []
  {
  }

  /** The chunks contribute in order, each at most one pair. */
  lemma WindowsOfConcat(a: seq<string>, b: seq<string>, split: string -> seq<string>, norm: string -> Option<string>)
    ensures WindowsOf(a + b, split, norm) == WindowsOf(a, split, norm) + WindowsOf(b, split, norm)
    ensures WindowsOf([], split, norm) == []
    ensures forall chunk :: WindowsOf([chunk], split, norm) == ChunkWindows(chunk, split, norm)
    ensures forall chunk :: |ChunkWindows(chunk, split, norm)| <= 1
    ensures |WindowsOf(b, split, norm)| <= |b|
  {
    FlatMapConcat(a, b, ChunkFn(split, norm));
    forall chunk ensures WindowsOf([chunk], split, norm) == ChunkWindows(chunk, split, norm) {
      FlatMapOne(chunk, ChunkFn(split, norm));
    }
    FlatMapBound(b, ChunkFn(split, norm), 1);
  }

  /** Both ends are ISO texts of valid days. */
  ghost predicate IsoPair(p: (string, string))
  {
    (exists d :: ValidDate(d) && p.0 == IsoDate(d)) && (exists d :: ValidDate(d) && p.1 == IsoDate(d))
  }

  /** With an ISO-valued normaliser both ends of every pair are ISO days. */
  lemma {:induction false} WindowsOfIso(chunks: seq<string>, split: string -> seq<string>, norm: string -> Option<string>)
    requires IsoValued(norm)
    ensures forall k :: 0 <= k < |WindowsOf(chunks, split, norm)| ==> IsoPair(WindowsOf(chunks, split, norm)[k])
    decreases |chunks|
  {
    if |chunks| > 0 {
      var n := |chunks| - 1;
      WindowsOfIso(chunks[..n], split, norm);
      var chunk := chunks[n];
      SplitLast(chunks);
      FlatMapSnoc(chunks[..n], chunk, ChunkFn(split, norm));
      ChunkIso(chunk, split, norm);
      var pre := WindowsOf(chunks[..n], split, norm);
      var last := ChunkWindows(chunk, split, norm);
      assert WindowsOf(chunks, split, norm) == pre + last;
      forall k | 0 <= k < |pre + last| ensures IsoPair((pre + last)[k]) {
        if k < |pre| {
          assert (pre + last)[k] == pre[k];
        } else {
          assert (pre + last)[k] == last[k - |pre|];
        }
      }
    }
  }

  lemma ChunkIso(chunk: string, split: string -> seq<string>, norm: string -> Option<string>)
    requires IsoValued(norm)
    ensures forall k :: 0 <= k < |ChunkWindows(chunk, split, norm)| ==> IsoPair(ChunkWindows(chunk, split, norm)[k])
  {
    var p := ChunkPair(chunk, split, norm);
    if chunk != "" && p.Some? {
      var parts := split(chunk);
      assert norm(Strip(parts[0])).Some? && norm(Strip(parts[1])).Some?;
      assert IsoPair(p.value);
    }
  }

  /** Both ends of every window `parse_windows` returns are ISO days. */
  lemma ParseWindowsIso(c: Cell, split: string -> seq<string>, fallback: string -> Option<Date>)
    ensures forall k :: 0 <= k < |ParseWindowsOf(c, split, DateText(fallback))| ==>
      IsoPair(ParseWindowsOf(c, split, DateText(fallback))[k])
  {
    DateTextIso(fallback);
    if !(c.Null? || c.NaN?) && Strip(CellStr(c)) != "" {
      WindowsOfIso(Chunks(Strip(CellStr(c))), split, DateText(fallback));
    }
  }

  // ---------------------------------------------------------------------
  // The range separator: as written and as intended
  // ---------------------------------------------------------------------

  /** The words the range separator is meant to be: `a`, `-`, the en dash and the em dash. */
  const RangeWords: set<string> := {"a", "-", "\U{2013}", "\U{2014}"}

  predicate IsRangeWord(w: string)
  {
    w in RangeWords
  }

  /** The runs of words between separator words, in order. */
  function Groups(ws: seq<string>): (r: seq<seq<string>>)
    ensures |r| >= 1
    decreases |ws|
  {
    if |ws| == 0 then [[]]
    else
      var rest := Groups(ws[1..]);
      if IsRangeWord(ws[0]) then [[]] + rest
      else [[ws[0]] + rest[0]] + rest[1..]
  }

  /**
   * There is one group more than there are separator words, no group holds
   * a separator, and the groups hold every other word, in order.
   */
  lemma {:induction false} GroupsShape(ws: seq<string>)
    ensures |Groups(ws)| == |Filter(ws, IsRangeWord)| + 1
    ensures forall k, w :: 0 <= k < |Groups(ws)| && w in Groups(ws)[k] ==> !IsRangeWord(w)
    ensures FlatMap(Groups(ws), Same) == Filter(ws, NotRangeWord)
    decreases |ws|
  {
    if |ws| > 0 {
      var t := ws[1..];
      var rest := Groups(t);
      GroupsShape(t);
      FilterCons(ws[0], t, IsRangeWord);
      FilterCons(ws[0], t, NotRangeWord);
      ConsSplit(ws);
      FlatMapFront(rest);
      var g := Groups(ws);
      if IsRangeWord(ws[0]) {
        assert g == [[]] + rest;
        FlatMapFront(g);
        assert g[1..] == rest;
        forall k, w | 0 <= k < |g| && w in g[k] ensures !IsRangeWord(w) {
          assert k > 0 ==> g[k] == rest[k - 1];
        }
      } else {
        assert g == [[ws[0]] + rest[0]] + rest[1..];
        FlatMapFront(g);
        assert g[1..] == rest[1..];
        assert Same(g[0]) == [ws[0]] + Same(rest[0]);
        forall k, w | 0 <= k < |g| && w in g[k] ensures !IsRangeWord(w) {
          if k > 0 {
            assert g[k] == rest[k];
          } else if w != ws[0] {
            assert w in rest[0];
          }
        }
      }
    }
  }

  predicate NotRangeWord(w: string)
  {
    !IsRangeWord(w)
  }

  function Same(g: seq<string>): seq<string>
  {
    g
  }

  /** The pieces of a non-empty list of groups: the first group's, then the rest's. */
  lemma FlatMapFront(g: seq<seq<string>>)
    requires |g| > 0
    ensures FlatMap(g, Same) == g[0] + FlatMap(g[1..], Same)
  {
    var h := [g[0]] + g[1..];
    assert h == g;
    FlatMapConcat([g[0]], g[1..], Same);
    FlatMapOne(g[0], Same);
    assert FlatMap(h, Same) == Same(g[0]) + FlatMap(g[1..], Same);
  }

  /** The words of a group, joined with a single blank. */
  function JoinSpaced(g: seq<string>): string
  {
    Join(g, " ")
  }

  /**
   * The split `RANGE_SPLIT` is evidently meant to make: cut a chunk where a
   * separator stands as a word of its own, so that the `-` inside an ISO
   * day stays in place.
   */
  function RangePartsFixed(chunk: string): (r: seq<string>)
    ensures |r| >= 1
  {
    Map(Groups(Words(chunk)), JoinSpaced)
  }

  /** A word which is not a separator is one group. */
  lemma GroupsOne(y: string)
    requires !IsRangeWord(y)
    ensures Groups([y]) == [[y]]
  {
    var ys: seq<string> := [y];
    assert ys[1..] == [];
    var rest := Groups(ys[1..]);
    assert rest == [[]];
    assert [ys[0]] + rest[0] == [y];
    assert rest[1..] == [];
  }

  /** Two non-separator words around a separator word cut into the two words. */
  lemma GroupsPair(x: string, w: string, y: string)
    requires !IsRangeWord(x) && IsRangeWord(w) && !IsRangeWord(y)
    ensures Groups([x, w, y]) == [[x], [y]]
  {
    GroupsOne(y);
    var wy: seq<string> := [w, y];
    assert wy[1..] == [y];
    assert Groups(wy) == [[]] + [[y]];
    var xwy: seq<string> := [x, w, y];
    assert xwy[1..] == wy;
    var rest := Groups(wy);
    assert [xwy[0]] + rest[0] == [x];
    assert rest[1..] == [[y]];
  }

  /** A separator word is one character and no blank. */
  lemma RangeWordShape(w: string)
    requires IsRangeWord(w)
    ensures |w| == 1 && !IsSpace(w[0]) && w[0] in RangeSeps && w[0] != ';'
  {
  }

  /** Three blank-free words joined with single blanks are those three words. */
  lemma WordsTriple(x: string, w: string, y: string)
    requires x != "" && forall j :: 0 <= j < |x| ==> !IsSpace(x[j])
    requires w != "" && forall j :: 0 <= j < |w| ==> !IsSpace(w[j])
    requires y != "" && forall j :: 0 <= j < |y| ==> !IsSpace(y[j])
    ensures Words(x + " " + w + " " + y) == [x, w, y]
  {
    WordsOfWord(y);
    WordsCons(w, y);
    WordsCons(x, w + " " + y);
    assert x + " " + w + " " + y == x + " " + (w + " " + y);
  }

  /** Joining two one-word groups gives the two words. */
  lemma JoinSpacedPair(x: string, y: string)
    ensures Map([[x], [y]], JoinSpaced) == [x, y]
  {
    assert Join([x], " ") == x && Join([y], " ") == y;
    var g: seq<seq<string>> := [[x], [y]];
    assert g[1..] == [[y]];
    assert Map(g, JoinSpaced) == [JoinSpaced([x])] + Map(g[1..], JoinSpaced);
  }

  /** Two words around a separator word, with single blanks, give the two words. */
  lemma RangePartsFixedPair(x: string, w: string, y: string)
    requires x != "" && forall j :: 0 <= j < |x| ==> !IsSpace(x[j])
    requires y != "" && forall j :: 0 <= j < |y| ==> !IsSpace(y[j])
    requires !IsRangeWord(x) && IsRangeWord(w) && !IsRangeWord(y)
    ensures RangePartsFixed(x + " " + w + " " + y) == [x, y]
  {
    RangeWordShape(w);
    WordsTriple(x, w, y);
    GroupsPair(x, w, y);
    JoinSpacedPair(x, y);
  }

  /** The ISO text of a day is one word without blanks, and no separator. */
  lemma IsoWord(d: Date)
    requires ValidDate(d)
    ensures IsoDate(d) != "" && (forall j :: 0 <= j < |IsoDate(d)| ==> !IsSpace(IsoDate(d)[j]))
    ensures !IsRangeWord(IsoDate(d)) && IsStripped(IsoDate(d)) && FreeOf(IsoDate(d), {';'})
  {
    IsoDateChars(d);
    IsoDateShape(d);
    DateCharsFree(IsoDate(d), {';'});
  }

  /** `<day> <separator> <day>`: one window written with ISO days. */
  function WindowText(a: Date, w: string, b: Date): string
    requires ValidDate(a) && ValidDate(b)
  {
    IsoDate(a) + " " + w + " " + IsoDate(b)
  }

  /** A window text has no blank at either end and no `;`. */
  lemma WindowTextFacts(a: Date, w: string, b: Date)
    requires ValidDate(a) && ValidDate(b) && IsRangeWord(w)
    ensures WindowText(a, w, b) != "" && IsStripped(WindowText(a, w, b)) && FreeOf(WindowText(a, w, b), {';'})
  {
    IsoWord(a);
    IsoWord(b);
    RangeWordShape(w);
    var x := IsoDate(a);
    var y := IsoDate(b);
    var s := WindowText(a, w, b);
    assert |s| == |x| + |y| + 3;
    assert s[0] == x[0] && s[|s| - 1] == y[|y| - 1];
    forall j | 0 <= j < |s| ensures s[j] != ';' {
      if j < |x| {
        assert s[j] == x[j];
      } else if j == |x| + 1 {
        assert s[j] == w[0];
      } else if j >= |x| + 3 {
        assert s[j] == y[j - |x| - 3];
      }
    }
  }

  /** A cell that is one stripped chunk without `;` yields that chunk's windows. */
  lemma SingleChunk(t: string, split: string -> seq<string>, norm: string -> Option<string>)
    requires t != "" && IsStripped(t) && FreeOf(t, {';'})
    ensures ParseWindowsOf(Text(t), split, norm) == ChunkWindows(t, split, norm)
  {
    ParseWindowsStripped(t, split, norm);
    assert Chunks(t) == [t] by {
      ChunksOne(t);
    }
    assert WindowsOf([t], split, norm) == ChunkWindows(t, split, norm) by {
      FlatMapOne(t, ChunkFn(split, norm));
    }
  }

  /** A stripped text without `;` is one chunk. */
  lemma ChunksOne(t: string)
    requires IsStripped(t) && FreeOf(t, {';'})
    ensures Chunks(t) == [t]
  {
    assert SplitChars(t, {';'}) == [t] by {
      SplitCharsFree(t, {';'});
    }
    assert Strip(t) == t by {
      StripOfStripped(t);
    }
    MapOne(t, Strip);
  }

  /** An ISO day text reaches the window's normaliser unchanged and reads as itself. */
  lemma DateTextIsoDay(d: Date, fallback: string -> Option<Date>)
    requires ValidDate(d)
    ensures DateText(fallback)(Strip(IsoDate(d))) == Some(IsoDate(d)) && Truthy(Some(IsoDate(d)))
  {
    IsoWord(d);
    StripOfStripped(IsoDate(d));
    NormDateIso(d, fallback);
  }

  /** With the intended separator, one ISO window yields exactly its two days. */
  lemma ParseWindowsFixedIso(a: Date, w: string, b: Date, fallback: string -> Option<Date>)
    requires ValidDate(a) && ValidDate(b) && IsRangeWord(w)
    ensures ParseWindowsOf(Text(WindowText(a, w, b)), RangePartsFixed, DateText(fallback)) == [(IsoDate(a), IsoDate(b))]
  {
    WindowTextFacts(a, w, b);
    SingleChunk(WindowText(a, w, b), RangePartsFixed, DateText(fallback));
    IsoWord(a);
    IsoWord(b);
    RangePartsFixedPair(IsoDate(a), w, IsoDate(b));
    DateTextIsoDay(a, fallback);
    DateTextIsoDay(b, fallback);
  }

  /** A text with neither `-` nor `/` matches none of the four formats. */
  lemma FirstParseNone(s: string)
    requires FreeOf(s, {'-'}) && FreeOf(s, {'/'})
    ensures FirstParse(s, DateFormats) == None
  {
    StrptimeOnePiece(s, DateFormat('-', true));
    StrptimeOnePiece(s, DateFormat('/', false));
    StrptimeOnePiece(s, DateFormat('-', false));
    StrptimeOnePiece(s, DateFormat('/', true));
    var f := DateFormats;
    assert f[1..][1..] == f[2..] && f[2..][1..] == f[3..] && f[3..][1..] == [];
    assert FirstParse(s, f[3..]) == None;
    assert FirstParse(s, f[2..]) == None;
    assert FirstParse(s, f[1..]) == None;
  }

  /**
   * `RANGE_SPLIT` also cuts at the `-` inside an ISO day, so the two ends
   * it hands on are the year and the month of the first day, whatever the
   * second day is.
   */
  lemma RangePartsIso(a: Date, w: string, b: Date)
    requires ValidDate(a) && ValidDate(b)
    ensures |RangeParts(WindowText(a, w, b))| >= 2
    ensures RangeParts(WindowText(a, w, b))[0] == PadZeros(a.year, 4)
    ensures RangeParts(WindowText(a, w, b))[1] == PadZeros(a.month, 2)
  {
    var y := PadZeros(a.year, 4);
    var m := PadZeros(a.month, 2);
    var rest := PadZeros(a.day, 2) + " " + w + " " + IsoDate(b);
    assert WindowText(a, w, b) == y + "-" + m + "-" + rest;
    DigitsFree(y, RangeSeps);
    DigitsFree(m, RangeSeps);
    RangePartsDash(y, m, rest);
  }

  /** Two fields free of the range separators, each followed by `-`, are the first two parts. */
  lemma RangePartsDash(y: string, m: string, rest: string)
    requires FreeOf(y, RangeSeps) && FreeOf(m, RangeSeps)
    ensures |RangeParts(y + "-" + m + "-" + rest)| >= 2
    ensures RangeParts(y + "-" + m + "-" + rest)[0] == y && RangeParts(y + "-" + m + "-" + rest)[1] == m
  {
    assert y + "-" + m + "-" + rest == y + ['-'] + (m + ['-'] + rest);
    SplitCharsAt(y, '-', m + ['-'] + rest, RangeSeps);
    SplitCharsAt(m, '-', rest, RangeSeps);
  }

  /** A chunk whose first two parts are stripped yields the pair of their dates, if both are truthy. */
  lemma ChunkWindowsEnds(t: string, split: string -> seq<string>, norm: string -> Option<string>, y: string, m: string)
    requires t != "" && |split(t)| >= 2 && split(t)[0] == y && split(t)[1] == m
    requires Strip(y) == y && Strip(m) == m
    ensures ChunkWindows(t, split, norm) == (if Truthy(norm(y)) && Truthy(norm(m)) then [(norm(y).value, norm(m).value)] else [])
  {
  }

  /** A field of digits is its own strip and free of both date separators. */
  lemma DigitsField(t: string)
    requires AllDigits(t)
    ensures Strip(t) == t && FreeOf(t, {'-'}) && FreeOf(t, {'/'})
  {
    DigitsFree(t, {'-'});
    DigitsFree(t, {'/'});
    StripDigits(t);
  }

  /**
   * As written, one ISO window yields whatever the normaliser makes of its
   * first day's year and month: the second day never reaches it.
   */
  lemma ParseWindowsAsWrittenIso(a: Date, w: string, b: Date, fallback: string -> Option<Date>)
    requires ValidDate(a) && ValidDate(b) && IsRangeWord(w)
    ensures var y := DateText(fallback)(PadZeros(a.year, 4));
            var m := DateText(fallback)(PadZeros(a.month, 2));
            ParseWindowsOf(Text(WindowText(a, w, b)), RangeParts, DateText(fallback))
            == (if Truthy(y) && Truthy(m) then [(y.value, m.value)] else [])
  {
    WindowTextFacts(a, w, b);
    RangePartsIso(a, w, b);
    StripDigits(PadZeros(a.year, 4));
    StripDigits(PadZeros(a.month, 2));
    FirstTwoParts(WindowText(a, w, b), RangeParts, DateText(fallback), PadZeros(a.year, 4), PadZeros(a.month, 2));
  }

  /** A one-chunk cell whose first two parts are stripped yields the pair of their dates, if both are truthy. */
  lemma FirstTwoParts(t: string, split: string -> seq<string>, norm: string -> Option<string>, y: string, m: string)
    requires t != "" && IsStripped(t) && FreeOf(t, {';'})
    requires |split(t)| >= 2 && split(t)[0] == y && split(t)[1] == m && Strip(y) == y && Strip(m) == m
    ensures ParseWindowsOf(Text(t), split, norm) == (if Truthy(norm(y)) && Truthy(norm(m)) then [(norm(y).value, norm(m).value)] else [])
  {
    SingleChunk(t, split, norm);
    ChunkWindowsEnds(t, split, norm, y, m);
  }

  /** Without a fallback, a non-empty run of digits is no date. */
  lemma NoFallbackDigits(t: string)
    requires t != "" && AllDigits(t)
    ensures DateText(NoFallback)(t) == None
  {
    assert Strip(t) == t by {
      StripDigits(t);
    }
    assert FirstParse(t, DateFormats) == None by {
      DigitsField(t);
      FirstParseNone(t);
    }
    assert NormText(t, NoFallback) == None;
  }

  /**
   * With only the explicit formats, a window written with ISO days, as in
   * the docstring of `parse_windows`, yields no pair at all.
   */
  lemma ParseWindowsAsWrittenStrict(a: Date, w: string, b: Date)
    requires ValidDate(a) && ValidDate(b) && IsRangeWord(w)
    ensures ParseWindowsOf(Text(WindowText(a, w, b)), RangeParts, DateText(NoFallback)) == []
  {
    ParseWindowsAsWrittenIso(a, w, b, NoFallback);
    NoFallbackDigits(PadZeros(a.year, 4));
  }

  /** A non-empty stripped cell is parsed chunk by chunk. */
  lemma ParseWindowsStripped(t: string, split: string -> seq<string>, norm: string -> Option<string>)
    requires t != "" && IsStripped(t)
    ensures ParseWindowsOf(Text(t), split, norm) == WindowsOf(Chunks(t), split, norm)
  {
    StripOfStripped(t);
    ParseWindowsText(t, t, split, norm);
  }

  /** A text cell whose strip `s` is non-blank is parsed chunk by chunk. */
  lemma ParseWindowsText(t: string, s: string, split: string -> seq<string>, norm: string -> Option<string>)
    requires s == Strip(t) && s != ""
    ensures ParseWindowsOf(Text(t), split, norm) == WindowsOf(Chunks(s), split, norm)
  {
    var c := Text(t);
    assert CellStr(c) == t;
    assert !c.Null? && !c.NaN?;
  }

  /** Two non-empty stripped texts joined by `; ` are stripped. */
  lemma JoinedStripped(x: string, y: string)
    requires x != "" && IsStripped(x) && y != "" && IsStripped(y)
    ensures IsStripped(x + "; " + y)
  {
    var t := x + "; " + y;
    assert t[0] == x[0] && t[|t| - 1] == y[|y| - 1];
  }

  /**
   * The docstring's cell, two ISO windows joined by `; `: with the intended
   * separator both pairs come out, in order.
   */
  lemma ParseWindowsFixedTwo(a: Date, b: Date, c: Date, d: Date, w: string, fallback: string -> Option<Date>)
    requires ValidDate(a) && ValidDate(b) && ValidDate(c) && ValidDate(d) && IsRangeWord(w)
    ensures ParseWindowsOf(Text(WindowText(a, w, b) + "; " + WindowText(c, w, d)), RangePartsFixed, DateText(fallback))
      == [(IsoDate(a), IsoDate(b)), (IsoDate(c), IsoDate(d))]
  {
    var x := WindowText(a, w, b);
    var y := WindowText(c, w, d);
    var norm := DateText(fallback);
    WindowTextFacts(a, w, b);
    WindowTextFacts(c, w, d);
    JoinedStripped(x, y);
    ParseWindowsStripped(x + "; " + y, RangePartsFixed, norm);
    TwoChunks(x, y);
    WindowsOfTwo(x, y, RangePartsFixed, norm);
    SingleChunk(x, RangePartsFixed, norm);
    ParseWindowsFixedIso(a, w, b, fallback);
    SingleChunk(y, RangePartsFixed, norm);
    ParseWindowsFixedIso(c, w, d, fallback);
  }

  /** Two chunks contribute their windows in order. */
  lemma WindowsOfTwo(x: string, y: string, split: string -> seq<string>, norm: string -> Option<string>)
    ensures WindowsOf([x, y], split, norm) == ChunkWindows(x, split, norm) + ChunkWindows(y, split, norm)
  {
    var f := ChunkFn(split, norm);
    assert [x, y] == [x] + [y];
    FlatMapConcat([x], [y], f);
    FlatMapOne(x, f);
    FlatMapOne(y, f);
  }

  /** Two stripped chunks without `;` joined by `; ` are those two chunks. */
  lemma TwoChunks(x: string, y: string)
    requires x != "" && IsStripped(x) && FreeOf(x, {';'})
    requires y != "" && IsStripped(y) && FreeOf(y, {';'})
    ensures Chunks(x + "; " + y) == [x, y]
  {
    var z := " " + y;
    assert SplitChars(x + "; " + y, {';'}) == [x, z] by {
      assert x + "; " + y == x + [';'] + z;
      assert FreeOf(z, {';'});
      SplitCharsAt(x, ';', z, {';'});
      SplitCharsFree(z, {';'});
    }
    assert Strip(x) == x by {
      StripOfStripped(x);
    }
    assert Strip(z) == y by {
      StripLeadingSpace(y);
      StripOfStripped(y);
    }
    MapTwo(x, z, Strip);
  }

  // ---------------------------------------------------------------------
  // The sort key: several columns, missing values last
  // ---------------------------------------------------------------------

  /** `a < b` in one key column with `na_position="last"`: any text before a missing value. */
  predicate OptLt(a: Option<string>, b: Option<string>)
  {
    (a.Some? && b.None?) || (a.Some? && b.Some? && StrLe(a.value, b.value) && a.value != b.value)
  }

  /** Key columns compared in order, the first difference deciding. */
  predicate KeyLe(a: seq<Option<string>>, b: seq<Option<string>>)
    decreases |a|
  {
    |a| == 0 || (|b| > 0 && (OptLt(a[0], b[0]) || (a[0] == b[0] && KeyLe(a[1..], b[1..]))))
  }

  /** Two key values are ordered one way or the other, or equal. */
  lemma OptTrichotomy(a: Option<string>, b: Option<string>)
    ensures OptLt(a, b) || a == b || OptLt(b, a)
  {
    if a.Some? && b.Some? {
      StrLeTotal(a.value, b.value);
    }
  }

  lemma OptLtTrans(a: Option<string>, b: Option<string>, c: Option<string>)
    requires OptLt(a, b) && OptLt(b, c)
    ensures OptLt(a, c)
  {
    if c.Some? {
      StrLeTrans(a.value, b.value, c.value);
      if a.value == c.value {
        StrLeAntisym(a.value, b.value);
      }
    }
  }

  lemma {:induction false} KeyLeTotal(a: seq<Option<string>>, b: seq<Option<string>>)
    ensures KeyLe(a, b) || KeyLe(b, a)
    decreases |a|
  {
    if |a| > 0 && |b| > 0 {
      OptTrichotomy(a[0], b[0]);
      if a[0] == b[0] {
        KeyLeTotal(a[1..], b[1..]);
      }
    }
  }

  lemma {:induction false} KeyLeTrans(a: seq<Option<string>>, b: seq<Option<string>>, c: seq<Option<string>>)
    requires KeyLe(a, b) && KeyLe(b, c)
    ensures KeyLe(a, c)
    decreases |a|
  {
    if |a| > 0 {
      if OptLt(a[0], b[0]) && OptLt(b[0], c[0]) {
        OptLtTrans(a[0], b[0], c[0]);
      } else if a[0] == b[0] && b[0] == c[0] {
        KeyLeTrans(a[1..], b[1..], c[1..]);
      }
    }
  }

  /** A cell as a key value: missing for `None` and NaN, else its text. */
  function CellKey(c: Cell): Option<string>
  {
    if IsNa(c) then None else Some(CellStr(c))
  }

  // ---------------------------------------------------------------------
  // explode_periods_and_ufs
  // ---------------------------------------------------------------------

  /** The columns `explode_periods_and_ufs` keeps, in order. */
  const KeepCols: seq<string> := [
    "resource_common", "gear_category", "uf", "start_date", "end_date", "windows_per_year", "legal_act_number"]

  /** `row.get(col)`: the cell, or `None` when the frame lacks the column. */
  function Get(row: Row<Cell>, col: string): Cell
  {
    if col in row then row[col] else Null
  }

  /** The row cut to the given columns. */
  function Restrict(row: Row<Cell>, cols: seq<string>): Row<Cell>
  {
    map c | c in row && c in cols :: row[c]
  }

  function InFrame(df: Frame<Cell>): string -> bool
  {
    (c: string) => c in df.columns
  }

  function RestrictFn(cols: seq<string>): Row<Cell> -> Row<Cell>
  {
    (row: Row<Cell>) => Restrict(row, cols)
  }

  /** `df[keep_cols]`: the kept columns the frame has, in their listed order, and every row cut to them. */
  function KeepColumns(df: Frame<Cell>): (r: Frame<Cell>)
    ensures |r.rows| == |df.rows|
  {
    var cols := Filter(KeepCols, InFrame(df));
    Frame(cols, Map(df.rows, RestrictFn(cols)))
  }

  /** Where an output row came from: the file name and the sheet name. */
  datatype Source = Source(file: string, sheet: Option<string>)

  /** One output row of `explode_periods_and_ufs`. */
  datatype OutRow = OutRow(resource: Cell, gear: Cell, uf: Option<string>, start: Option<string>, end: Option<string>,
                           act: Cell, periodSource: string, sourceFile: string, sourceSheet: Option<string>)

  /** The periods of one input row and the label of where they came from. */
  datatype Periods = Periods(pairs: seq<(string, string)>, source: string)

  /**
   * The two parsers a row goes through: `norm_date` for the start and end
   * cells, `parse_windows` for the windows cell.
   */
  datatype Parsers = Parsers(date: Cell -> Option<string>, windows: Cell -> seq<(string, string)>)

  /** The parsers as written. */
  function AsWritten(fallback: string -> Option<Date>): Parsers
  {
    Parsers((c: Cell) => NormDate(c, fallback), (c: Cell) => ParseWindowsOf(c, RangeParts, DateText(fallback)))
  }

  /** The parsers with both corrections: `NaT` has no date, and a window is cut at a separator word. */
  function Fixed(fallback: string -> Option<Date>): Parsers
  {
    Parsers((c: Cell) => NormDateFixed(c, fallback), (c: Cell) => ParseWindowsOf(c, RangePartsFixed, DateText(fallback)))
  }

  /** Windows first, then the start and end dates, else no period. */
  function PeriodsOf(row: Row<Cell>, p: Parsers): Periods
  {
    var windows := p.windows(Get(row, "windows_per_year"));
    var s := p.date(Get(row, "start_date"));
    var e := p.date(Get(row, "end_date"));
    if |windows| > 0 then Periods(windows, "windows_per_year")
    else if Truthy(s) && Truthy(e) then Periods([(s.value, e.value)], "start_end")
    else Periods([], "none")
  }

  /**
   * The window pairs win when there are any, the start and end dates when
   * both are truthy, and otherwise there is no period; the label says which.
   */
  lemma PeriodsPrecedence(row: Row<Cell>, p: Parsers)
    ensures var per := PeriodsOf(row, p);
            var windows := p.windows(Get(row, "windows_per_year"));
            var s := p.date(Get(row, "start_date"));
            var e := p.date(Get(row, "end_date"));
            && (per.source == "windows_per_year" <==> |windows| > 0)
            && (per.source == "windows_per_year" ==> per.pairs == windows)
            && (per.source == "start_end" <==> |windows| == 0 && Truthy(s) && Truthy(e))
            && (per.source == "start_end" ==> per.pairs == [(s.value, e.value)])
            && (per.source == "none" <==> per.pairs == [])
  {
  }

  /** One output row for a unit and, when there is one, a period. */
  function Emit(row: Row<Cell>, uf: Option<string>, period: Option<(string, string)>, tag: string, src: Source): OutRow
  {
    OutRow(Get(row, "resource_common"), Get(row, "gear_category"), uf,
           if period.Some? then Some(period.value.0) else None,
           if period.Some? then Some(period.value.1) else None,
           Get(row, "legal_act_number"), tag, src.file, src.sheet)
  }

  function PeriodFn(row: Row<Cell>, uf: Option<string>, tag: string, src: Source): ((string, string)) -> OutRow
  {
    (d: (string, string)) => Emit(row, uf, Some(d), tag, src)
  }

  /** The rows one unit gets: one per period, or a single one without dates. */
  function UfBlock(row: Row<Cell>, per: Periods, src: Source, uf: Option<string>): seq<OutRow>
  {
    if |per.pairs| == 0 then [Emit(row, uf, None, per.source, src)]
    else Map(per.pairs, PeriodFn(row, uf, per.source, src))
  }

  function UfFn(row: Row<Cell>, per: Periods, src: Source): Option<string> -> seq<OutRow>
  {
    (uf: Option<string>) => UfBlock(row, per, src, uf)
  }

  /** The output rows of one input row: unit by unit, period by period. */
  function RowsOf(row: Row<Cell>, p: Parsers, src: Source): seq<OutRow>
  {
    FlatMap(SplitUfs(Get(row, "uf")), UfFn(row, PeriodsOf(row, p), src))
  }

  function RowFn(p: Parsers, src: Source): Row<Cell> -> seq<OutRow>
  {
    (row: Row<Cell>) => RowsOf(row, p, src)
  }

  /** The output rows of the whole frame, before sorting. */
  function Exploded(df: Frame<Cell>, p: Parsers, src: Source): seq<OutRow>
  {
    FlatMap(KeepColumns(df).rows, RowFn(p, src))
  }

  /** The sort key `(resource_common, gear_category, uf, start_date)`. */
  function RowKey(r: OutRow): seq<Option<string>>
  {
    [CellKey(r.resource), CellKey(r.gear), r.uf, r.start]
  }

  predicate ByRowKey(a: OutRow, b: OutRow)
  {
    KeyLe(RowKey(a), RowKey(b))
  }

  /** `explode_periods_and_ufs(df, source_file, source_sheet)` */
  function ExplodeOf(df: Frame<Cell>, p: Parsers, src: Source): seq<OutRow>
  {
    var rows := Exploded(df, p, src);
    if |rows| == 0 then [] else SortBy(rows, ByRowKey)
  }

  /** The row order is a total preorder, so the stable sort really sorts. */
  lemma ByRowKeyPreorder()
    ensures TotalPreorder(ByRowKey)
  {
    forall a: OutRow, b: OutRow ensures ByRowKey(a, b) || ByRowKey(b, a) {
      KeyLeTotal(RowKey(a), RowKey(b));
    }
    forall a: OutRow, b: OutRow, c: OutRow | ByRowKey(a, b) && ByRowKey(b, c) ensures ByRowKey(a, c) {
      KeyLeTrans(RowKey(a), RowKey(b), RowKey(c));
    }
  }

  /** How many rows each unit gets: one per period, or one when there is none. */
  function Width(per: Periods): nat
  {
    if |per.pairs| == 0 then 1 else |per.pairs|
  }

  /** The period of row `j` of a unit's block: none when there are no periods. */
  function Slot(per: Periods, j: nat): Option<(string, string)>
  {
    if j < |per.pairs| then Some(per.pairs[j]) else None
  }

  /**
   * `rows` holds `Width` rows for every unit, one per period or one
   * without dates: row `i * Width + j` is unit `i` with period `j`.
   */
  ghost predicate InBlocks(rows: seq<OutRow>, ufs: seq<Option<string>>, per: Periods, row: Row<Cell>, src: Source)
  {
    |rows| == |ufs| * Width(per) && BlockRows(rows, ufs, per, row, src)
  }

  /** Row `j` of unit `i`'s block is at `i * Width + j` and carries that unit and period. */
  ghost predicate BlockRows(rows: seq<OutRow>, ufs: seq<Option<string>>, per: Periods, row: Row<Cell>, src: Source)
  {
    forall i, j :: 0 <= i < |ufs| && 0 <= j < Width(per) ==> BlockAt(rows, ufs, per, row, src, i, j)
  }

  ghost predicate BlockAt(rows: seq<OutRow>, ufs: seq<Option<string>>, per: Periods, row: Row<Cell>, src: Source, i: int, j: int)
    requires 0 <= i < |ufs| && 0 <= j < Width(per)
  {
    i * Width(per) + j < |rows| && rows[i * Width(per) + j] == Emit(row, ufs[i], Slot(per, j), per.source, src)
  }

  /**
   * The rows of an input row come unit by unit, in the order `split_ufs`
   * gives the units, and period by period within a unit; there is at
   * least one, so no input row is lost.
   */
  lemma RowsOfShape(row: Row<Cell>, p: Parsers, src: Source)
    ensures InBlocks(RowsOf(row, p, src), SplitUfs(Get(row, "uf")), PeriodsOf(row, p), row, src)
    ensures |RowsOf(row, p, src)| >= 1
  {
    SplitUfsShape(Get(row, "uf"));
    BlocksShape(SplitUfs(Get(row, "uf")), PeriodsOf(row, p), row, src);
  }

  /** Every unit's block has `Width` rows. */
  lemma UfFnWidth(ufs: seq<Option<string>>, per: Periods, row: Row<Cell>, src: Source)
    ensures forall uf :: uf in ufs ==> |UfFn(row, per, src)(uf)| == Width(per)
  {
  }

  /** Row `j` of unit `i`'s block. */
  lemma BlockEntry(ufs: seq<Option<string>>, per: Periods, row: Row<Cell>, src: Source, i: int, j: int)
    requires 0 <= i < |ufs| && 0 <= j < Width(per)
    ensures i * Width(per) + j < |FlatMap(ufs, UfFn(row, per, src))|
    ensures FlatMap(ufs, UfFn(row, per, src))[i * Width(per) + j] == Emit(row, ufs[i], Slot(per, j), per.source, src)
  {
    var f := UfFn(row, per, src);
    UfFnWidth(ufs, per, row, src);
    FlatMapUniformAt(ufs, f, Width(per), i, j);
    if |per.pairs| > 0 {
      MapAt(per.pairs, PeriodFn(row, ufs[i], per.source, src), j);
    }
  }

  /** The blocks of a non-empty list of units. */
  lemma BlocksShape(ufs: seq<Option<string>>, per: Periods, row: Row<Cell>, src: Source)
    requires |ufs| >= 1
    ensures InBlocks(FlatMap(ufs, UfFn(row, per, src)), ufs, per, row, src)
    ensures |FlatMap(ufs, UfFn(row, per, src))| >= 1
  {
    BlocksLength(ufs, per, row, src);
    BlocksEntries(ufs, per, row, src);
  }

  lemma BlocksLength(ufs: seq<Option<string>>, per: Periods, row: Row<Cell>, src: Source)
    requires |ufs| >= 1
    ensures |FlatMap(ufs, UfFn(row, per, src))| == |ufs| * Width(per) >= 1
  {
    var m := Width(per);
    UfFnWidth(ufs, per, row, src);
    FlatMapUniformLen(ufs, UfFn(row, per, src), m);
    BlockBefore(0, 0, |ufs|, m);
  }

  lemma BlocksEntries(ufs: seq<Option<string>>, per: Periods, row: Row<Cell>, src: Source)
    ensures BlockRows(FlatMap(ufs, UfFn(row, per, src)), ufs, per, row, src)
  {
    var rows := FlatMap(ufs, UfFn(row, per, src));
    forall i, j | 0 <= i < |ufs| && 0 <= j < Width(per)
      ensures BlockAt(rows, ufs, per, row, src, i, j)
    {
      BlockEntry(ufs, per, row, src, i, j);
    }
  }

  /** The inner loops for one unit: a row per period, or one row without dates. */
  method EmitUnit(row: Row<Cell>, per: Periods, src: Source, uf: Option<string>) returns (out: seq<OutRow>)
    ensures out == UfBlock(row, per, src, uf)
  {
    if |per.pairs| == 0 {
      return [Emit(row, uf, None, per.source, src)];
    }
    var f := PeriodFn(row, uf, per.source, src);
    out := [];
    for j := 0 to |per.pairs|
      invariant out == Map(per.pairs[..j], f)
    {
      PrefixSnoc(per.pairs, j);
      MapSnoc(per.pairs[..j], per.pairs[j], f);
      out := out + [Emit(row, uf, Some(per.pairs[j]), per.source, src)];
    }
    assert per.pairs[..|per.pairs|] == per.pairs;
  }

  /** The body of the row loop: pick the periods, then emit unit by unit. */
  method ExplodeRow(row: Row<Cell>, p: Parsers, src: Source) returns (out: seq<OutRow>)
    ensures out == RowsOf(row, p, src)
  {
    var ufs := SplitUfs(Get(row, "uf"));
    var s := p.date(Get(row, "start_date"));
    var e := p.date(Get(row, "end_date"));
    var windows := p.windows(Get(row, "windows_per_year"));
    var per: Periods;
    if |windows| > 0 {
      per := Periods(windows, "windows_per_year");
    } else if Truthy(s) && Truthy(e) {
      per := Periods([(s.value, e.value)], "start_end");
    } else {
      per := Periods([], "none");
    }
    var f := UfFn(row, per, src);
    out := [];
    for i := 0 to |ufs|
      invariant out == FlatMap(ufs[..i], f)
    {
      var block := EmitUnit(row, per, src, ufs[i]);
      PrefixSnoc(ufs, i);
      FlatMapSnoc(ufs[..i], ufs[i], f);
      out := out + block;
    }
    assert ufs[..|ufs|] == ufs;
  }

  /** `explode_periods_and_ufs`: the row loop over the kept columns, then the sort when there are rows. */
  method ExplodePeriodsAndUfs(df: Frame<Cell>, p: Parsers, src: Source) returns (out: seq<OutRow>)
    ensures out == ExplodeOf(df, p, src)
  {
    var kept := KeepColumns(df);
    var f := RowFn(p, src);
    var rows: seq<OutRow> := [];
    for i := 0 to |kept.rows|
      invariant rows == FlatMap(kept.rows[..i], f)
    {
      var more := ExplodeRow(kept.rows[i], p, src);
      PrefixSnoc(kept.rows, i);
      FlatMapSnoc(kept.rows[..i], kept.rows[i], f);
      rows := rows + more;
    }
    assert kept.rows[..|kept.rows|] == kept.rows;
    if |rows| == 0 {
      out := [];
    } else {
      out := SortBy(rows, ByRowKey);
    }
  }

  /**
   * The result is ordered by `(resource_common, gear_category, uf,
   * start_date)` with missing values last, holds exactly the exploded
   * rows, and has at least one row per input row; it is empty exactly
   * when the input frame is.
   */
  lemma ExplodeSpec(df: Frame<Cell>, p: Parsers, src: Source)
    ensures SortedBy(ExplodeOf(df, p, src), ByRowKey)
    ensures multiset(ExplodeOf(df, p, src)) == multiset(Exploded(df, p, src))
    ensures |ExplodeOf(df, p, src)| >= |df.rows|
    ensures |ExplodeOf(df, p, src)| == 0 <==> |df.rows| == 0
  {
    var rows := Exploded(df, p, src);
    var kept := KeepColumns(df).rows;
    forall r | r in kept ensures |RowFn(p, src)(r)| >= 1 {
      RowsOfShape(r, p, src);
    }
    FlatMapAtLeast(kept, RowFn(p, src));
    if |rows| > 0 {
      ByRowKeyPreorder();
      SortBySorted(rows, ByRowKey);
      SortByPerm(rows, ByRowKey);
    }
  }

  /** The rows of an input row depend only on its cells in the kept columns. */
  lemma RowsOfSameCells(r1: Row<Cell>, r2: Row<Cell>, p: Parsers, src: Source)
    requires forall c :: c in KeepCols ==> Get(r1, c) == Get(r2, c)
    ensures RowsOf(r1, p, src) == RowsOf(r2, p, src)
  {
    assert KeepCols[0] in KeepCols && KeepCols[1] in KeepCols && KeepCols[2] in KeepCols;
    assert KeepCols[3] in KeepCols && KeepCols[4] in KeepCols && KeepCols[5] in KeepCols && KeepCols[6] in KeepCols;
    var per := PeriodsOf(r1, p);
    assert per == PeriodsOf(r2, p);
    forall uf ensures UfFn(r1, per, src)(uf) == UfFn(r2, per, src)(uf) {
      MapSame(per.pairs, PeriodFn(r1, uf, per.source, src), PeriodFn(r2, uf, per.source, src));
    }
    FlatMapSame(SplitUfs(Get(r1, "uf")), UfFn(r1, per, src), UfFn(r2, per, src));
  }

  /**
   * `df[keep_cols]` changes no output: on a frame whose rows have its
   * columns, exploding the cut rows is exploding the rows themselves.
   */
  lemma KeepColumnsSame(df: Frame<Cell>, p: Parsers, src: Source)
    requires WellFormed(df)
    ensures Exploded(df, p, src) == FlatMap(df.rows, RowFn(p, src))
  {
    var cols := Filter(KeepCols, InFrame(df));
    forall r | r in df.rows ensures RowFn(p, src)(RestrictFn(cols)(r)) == RowFn(p, src)(r) {
      forall c | c in KeepCols ensures Get(Restrict(r, cols), c) == Get(r, c) {
        FilterMember(KeepCols, InFrame(df), c);
      }
      RowsOfSameCells(Restrict(r, cols), r, p, src);
    }
    FlatMapAfterMap(df.rows, RestrictFn(cols), RowFn(p, src));
  }

  /** Every output row was emitted for some input row of the frame. */
  lemma ExplodeOrigin(df: Frame<Cell>, p: Parsers, src: Source, o: OutRow)
    requires WellFormed(df) && o in ExplodeOf(df, p, src)
    ensures exists row :: row in df.rows && o in RowsOf(row, p, src)
  {
    var rows := Exploded(df, p, src);
    ExplodeSpec(df, p, src);
    assert o in multiset(rows);
    KeepColumnsSame(df, p, src);
    FlatMapMember(df.rows, RowFn(p, src), o);
  }

  // ---------------------------------------------------------------------
  // NaT start and end dates: as written and corrected
  // ---------------------------------------------------------------------

  /** No date, or the ISO text of a valid day. */
  ghost predicate IsoOpt(o: Option<string>)
  {
    o.None? || exists d :: ValidDate(d) && o.value == IsoDate(d)
  }

  /** `"NaT"` is not the text of any day. */
  lemma NaTNotIso()
    ensures !IsoOpt(Some("NaT"))
  {
    forall d | ValidDate(d) ensures IsoDate(d) != "NaT" {
      assert |IsoDate(d)| >= 10;
    }
  }

  /**
   * As written, a row whose start and end are `NaT` and whose windows cell
   * is empty gets the period `("NaT", "NaT")` labelled `start_end`, and its
   * first output row has the start date `"NaT"`, which is no day.
   */
  lemma NaTRowAsWritten(row: Row<Cell>, fallback: string -> Option<Date>, src: Source)
    requires Get(row, "start_date") == NaT && Get(row, "end_date") == NaT && Get(row, "windows_per_year") == Null
    ensures PeriodsOf(row, AsWritten(fallback)) == Periods([("NaT", "NaT")], "start_end")
    ensures |RowsOf(row, AsWritten(fallback), src)| >= 1
    ensures RowsOf(row, AsWritten(fallback), src)[0].start == Some("NaT")
    ensures !IsoOpt(RowsOf(row, AsWritten(fallback), src)[0].start)
  {
    var p := AsWritten(fallback);
    var per := PeriodsOf(row, p);
    assert per == Periods([("NaT", "NaT")], "start_end") by {
      assert p.windows(Null) == [] && p.date(NaT) == Some("NaT");
    }
    var ufs := SplitUfs(Get(row, "uf"));
    var rows := RowsOf(row, p, src);
    assert InBlocks(rows, ufs, per, row, src) by {
      RowsOfShape(row, p, src);
    }
    assert |ufs| >= 1 by {
      SplitUfsShape(Get(row, "uf"));
    }
    assert Width(per) == 1 && Slot(per, 0) == Some(("NaT", "NaT"));
    assert BlockAt(rows, ufs, per, row, src, 0, 0);
    assert 0 * Width(per) + 0 == 0;
    assert rows[0] == Emit(row, ufs[0], Slot(per, 0), per.source, src);
    NaTNotIso();
  }

  /** Corrected, the same row has no period and keeps one dateless row per unit. */
  lemma NaTRowFixed(row: Row<Cell>, fallback: string -> Option<Date>, src: Source)
    requires Get(row, "start_date") == NaT && Get(row, "end_date") == NaT && Get(row, "windows_per_year") == Null
    ensures PeriodsOf(row, Fixed(fallback)) == Periods([], "none")
    ensures |RowsOf(row, Fixed(fallback), src)| == |SplitUfs(Get(row, "uf"))|
    ensures forall k :: 0 <= k < |RowsOf(row, Fixed(fallback), src)| ==>
      RowsOf(row, Fixed(fallback), src)[k].start == None && RowsOf(row, Fixed(fallback), src)[k].end == None
  {
    var p := Fixed(fallback);
    var per := PeriodsOf(row, p);
    assert per == Periods([], "none") by {
      assert p.windows(Null) == [] && p.date(NaT) == None;
    }
    var ufs := SplitUfs(Get(row, "uf"));
    var rows := RowsOf(row, p, src);
    assert InBlocks(rows, ufs, per, row, src) by {
      RowsOfShape(row, p, src);
    }
    DatelessBlocks(rows, ufs, per, row, src);
  }

  /** Without periods every unit has one row, and no row has dates. */
  lemma DatelessBlocks(rows: seq<OutRow>, ufs: seq<Option<string>>, per: Periods, row: Row<Cell>, src: Source)
    requires InBlocks(rows, ufs, per, row, src) && per.pairs == []
    ensures |rows| == |ufs|
    ensures forall k :: 0 <= k < |rows| ==> rows[k].start == None && rows[k].end == None
  {
    assert Width(per) == 1;
    forall k | 0 <= k < |rows| ensures rows[k].start == None && rows[k].end == None {
      assert k < |ufs|;
      assert BlockAt(rows, ufs, per, row, src, k, 0);
      assert k * Width(per) + 0 == k;
      assert rows[k] == Emit(row, ufs[k], Slot(per, 0), per.source, src);
    }
  }

  /** With the corrected parsers both ends of every period of a row are ISO days. */
  lemma PeriodsFixedIso(row: Row<Cell>, fallback: string -> Option<Date>)
    ensures forall k :: 0 <= k < |PeriodsOf(row, Fixed(fallback)).pairs| ==> IsoPair(PeriodsOf(row, Fixed(fallback)).pairs[k])
  {
    var p := Fixed(fallback);
    var per := PeriodsOf(row, p);
    var windows := p.windows(Get(row, "windows_per_year"));
    if |windows| > 0 {
      assert per.pairs == windows;
      ParseWindowsIso(Get(row, "windows_per_year"), RangePartsFixed, fallback);
    } else if |per.pairs| > 0 {
      var s := p.date(Get(row, "start_date"));
      var e := p.date(Get(row, "end_date"));
      assert per.pairs == [(s.value, e.value)];
      assert IsoPair(per.pairs[0]);
    }
  }

  /** A unit's rows have ISO dates or none when its periods are ISO pairs. */
  lemma UfBlockIso(row: Row<Cell>, per: Periods, src: Source, uf: Option<string>, o: OutRow)
    requires forall k :: 0 <= k < |per.pairs| ==> IsoPair(per.pairs[k])
    requires o in UfBlock(row, per, src, uf)
    ensures IsoOpt(o.start) && IsoOpt(o.end)
  {
    if |per.pairs| > 0 {
      var f := PeriodFn(row, uf, per.source, src);
      MapMember(per.pairs, f, o);
      var d :| d in per.pairs && f(d) == o;
      IsoMember(per.pairs, d);
      assert o.start == Some(d.0) && o.end == Some(d.1);
    } else {
      assert o.start == None && o.end == None;
    }
  }

  lemma IsoMember(pairs: seq<(string, string)>, d: (string, string))
    requires forall k :: 0 <= k < |pairs| ==> IsoPair(pairs[k])
    requires d in pairs
    ensures IsoPair(d)
  {
    var k :| 0 <= k < |pairs| && pairs[k] == d;
  }

  /**
   * With the corrected parsers every start and end date of the result is
   * missing or the ISO text of a valid day.
   */
  lemma ExplodeFixedIso(df: Frame<Cell>, fallback: string -> Option<Date>, src: Source, o: OutRow)
    requires o in ExplodeOf(df, Fixed(fallback), src)
    ensures IsoOpt(o.start) && IsoOpt(o.end)
  {
    var p := Fixed(fallback);
    var rows := Exploded(df, p, src);
    assert o in rows by {
      ExplodeSpec(df, p, src);
      assert o in multiset(ExplodeOf(df, p, src));
    }
    FlatMapMember(KeepColumns(df).rows, RowFn(p, src), o);
    var row :| row in KeepColumns(df).rows && o in RowsOf(row, p, src);
    var per := PeriodsOf(row, p);
    FlatMapMember(SplitUfs(Get(row, "uf")), UfFn(row, per, src), o);
    var uf :| uf in SplitUfs(Get(row, "uf")) && o in UfBlock(row, per, src, uf);
    PeriodsFixedIso(row, fallback);
    UfBlockIso(row, per, src, uf, o);
  }

  // ---------------------------------------------------------------------
  // run: combine, check the columns, drop duplicates, sort
  // ---------------------------------------------------------------------

  /** A row of the final CSV. */
  datatype FinalRow = FinalRow(resource: Cell, gear: Cell, uf: Option<string>, start: Option<string>, end: Option<string>,
                               act: Cell)

  /** `df[final_cols]` on one row. */
  function Project(o: OutRow): FinalRow
  {
    FinalRow(o.resource, o.gear, o.uf, o.start, o.end, o.act)
  }

  /** A cell as `drop_duplicates` compares it: every missing value is the same. */
  function NaKey(c: Cell): Cell
  {
    if IsNa(c) then Null else c
  }

  /** What `drop_duplicates()` compares: all six columns. */
  function DupKey(r: FinalRow): (Cell, Cell, Option<string>, Option<string>, Option<string>, Cell)
  {
    (NaKey(r.resource), NaKey(r.gear), r.uf, r.start, r.end, NaKey(r.act))
  }

  /** The final sort key `(resource_common, gear_category, uf, start_date)`, missing last. */
  predicate ByFinalKey(a: FinalRow, b: FinalRow)
  {
    KeyLe([CellKey(a.resource), CellKey(a.gear), a.uf, a.start], [CellKey(b.resource), CellKey(b.gear), b.uf, b.start])
  }

  lemma ByFinalKeyPreorder()
    ensures TotalPreorder(ByFinalKey)
  {
    forall a: FinalRow, b: FinalRow ensures ByFinalKey(a, b) || ByFinalKey(b, a) {
      KeyLeTotal([CellKey(a.resource), CellKey(a.gear), a.uf, a.start], [CellKey(b.resource), CellKey(b.gear), b.uf, b.start]);
    }
    forall a: FinalRow, b: FinalRow, c: FinalRow | ByFinalKey(a, b) && ByFinalKey(b, c) ensures ByFinalKey(a, c) {
      KeyLeTrans([CellKey(a.resource), CellKey(a.gear), a.uf, a.start], [CellKey(b.resource), CellKey(b.gear), b.uf, b.start],
                 [CellKey(c.resource), CellKey(c.gear), c.uf, c.start]);
    }
  }

  /** `pd.concat(parts)`: the rows of every source that was found, Federais first. */
  function Combined(fed: Option<seq<OutRow>>, por: Option<seq<OutRow>>): seq<OutRow>
  {
    (if fed.Some? then fed.value else []) + (if por.Some? then por.value else [])
  }

  /**
   * `run` after the readers: `fed` and `por` are the exploded rows of the
   * Federais and Por Arte workbooks, `None` when the file was not found.
   * With no source there is `FileNotFoundError`; when the sources have no
   * rows the combined frame has no columns and the column check raises
   * `ValueError`; otherwise the six final columns, without duplicates,
   * sorted.
   */
  function RunDefesos(fed: Option<seq<OutRow>>, por: Option<seq<OutRow>>): Outcome<seq<FinalRow>>
  {
    if fed.None? && por.None? then Raises("FileNotFoundError")
    else
      var rows := Combined(fed, por);
      if |rows| == 0 then Raises("ValueError")
      else Returns(SortBy(DedupBy(Map(rows, Project), DupKey), ByFinalKey))
  }

  /** The two errors and exactly when each happens. */
  lemma RunDefesosErrors(fed: Option<seq<OutRow>>, por: Option<seq<OutRow>>)
    ensures RunDefesos(fed, por) == Raises("FileNotFoundError") <==> fed.None? && por.None?
    ensures RunDefesos(fed, por) == Raises("ValueError") <==> (fed.Some? || por.Some?) && |Combined(fed, por)| == 0
    ensures RunDefesos(fed, por).Returns? <==> |Combined(fed, por)| > 0
  {
  }

  /**
   * The written table is sorted by the final key, holds no two rows that
   * `drop_duplicates` calls equal, takes every row from the combined
   * sources, and keeps a representative of every combined row.
   */
  lemma RunDefesosResult(fed: Option<seq<OutRow>>, por: Option<seq<OutRow>>)
    requires RunDefesos(fed, por).Returns?
    ensures SortedBy(RunDefesos(fed, por).value, ByFinalKey)
    ensures KeysDistinct(RunDefesos(fed, por).value, DupKey)
    ensures forall y :: y in RunDefesos(fed, por).value ==> y in Map(Combined(fed, por), Project)
    ensures forall o :: o in Combined(fed, por) ==>
      exists y :: y in RunDefesos(fed, por).value && DupKey(y) == DupKey(Project(o))
    ensures |RunDefesos(fed, por).value| <= |Combined(fed, por)|
  {
    var projected := Map(Combined(fed, por), Project);
    var kept := DedupBy(projected, DupKey);
    var out := RunDefesos(fed, por).value;
    assert out == SortBy(kept, ByFinalKey);
    DedupBySpec(projected, DupKey);
    ByFinalKeyPreorder();
    SortBySorted(kept, ByFinalKey);
    SortByPerm(kept, ByFinalKey);
    SortByKeysDistinct(kept, ByFinalKey, DupKey);
    forall y | y in out ensures y in projected {
      assert y in multiset(out);
    }
    forall o | o in Combined(fed, por) ensures exists y :: y in out && DupKey(y) == DupKey(Project(o)) {
      MapMember(Combined(fed, por), Project, Project(o));
      var y :| y in kept && DupKey(y) == DupKey(Project(o));
      assert y in multiset(kept);
    }
  }
}
