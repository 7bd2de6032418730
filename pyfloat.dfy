/**
 * Python's `float()` applied to text, and comparisons between the floats it
 * yields.
 */
module PyFloat {
  import opened PyStr

  // ---------------------------------------------------------------------
  // float()
  // ---------------------------------------------------------------------

  /** A Python float: a finite value, an infinity or NaN (reals stand for doubles). */
  datatype Num = Fin(r: real) | PosInf | NegInf | NaN

  function Pow10(n: nat): (r: nat)
    ensures r >= 1
  {
    if n == 0 then 1 else 10 * Pow10(n - 1)
  }


  /**
   * Length of the leading run of decimal digits, in which a single underscore
   * may stand between two digits (the digit grouping of PEP 515).
   */
  function DigitRun(s: string): (n: nat)
    ensures n <= |s|
    decreases |s|
  {
    if |s| == 0 || !IsDigit(s[0]) then 0
    else if |s| > 2 && s[1] == '_' && IsDigit(s[2]) then 2 + DigitRun(s[2..])
    else 1 + DigitRun(s[1..])
  }

  /** The digits of a run, with the grouping underscores removed. */
  function Ungroup(s: string): (r: string)
    ensures |r| <= |s|
    decreases |s|
  {
    if |s| == 0 then "" else (if s[0] == '_' then "" else [s[0]]) + Ungroup(s[1..])
  }

  /** Position `i` of a run of length `n` holds a digit or an underscore between two digits. */
  predicate GroupedAt(s: string, n: nat, i: nat)
    requires i < n <= |s|
  {
    IsDigit(s[i]) || (s[i] == '_' && 0 < i < n - 1 && IsDigit(s[i - 1]) && IsDigit(s[i + 1]))
  }

  /** How far the run steps at its first digit: over an underscore group, or one digit. */
  function RunStep(s: string): nat
  {
    if |s| > 2 && s[1] == '_' && IsDigit(s[2]) then 2 else 1
  }

  lemma RunUnfold(s: string)
    requires DigitRun(s) > 0
    ensures IsDigit(s[0]) && RunStep(s) <= |s|
    ensures DigitRun(s) == RunStep(s) + DigitRun(s[RunStep(s)..])
    ensures RunStep(s) == 2 ==> s[1] == '_' && IsDigit(s[2])
  {
  }

  /** A run starts and ends with a digit. */
  lemma {:induction false} DigitRunEnds(s: string)
    ensures var n := DigitRun(s); n > 0 ==> IsDigit(s[0]) && IsDigit(s[n - 1])
    decreases |s|
  {
    var n := DigitRun(s);
    if n > 0 {
      RunUnfold(s);
      var k := RunStep(s);
      var t := s[k..];
      DigitRunEnds(t);
      if DigitRun(t) > 0 {
        assert s[n - 1] == t[DigitRun(t) - 1];
      } else {
        assert k == 1;
      }
    }
  }

  /** Every underscore of a run stands between two digits. */
  lemma {:induction false} DigitRunGroups(s: string)
    ensures var n := DigitRun(s); forall i :: 0 <= i < n ==> GroupedAt(s, n, i)
    decreases |s|
  {
    var n := DigitRun(s);
    if n > 0 {
      RunUnfold(s);
      var k := RunStep(s);
      var t := s[k..];
      var m := DigitRun(t);
      DigitRunGroups(t);
      if k == 2 {
        assert t[0] == s[2];
        assert m > 0;
      }
      forall i | 0 <= i < n
        ensures GroupedAt(s, n, i)
      {
        if i >= k {
          assert GroupedAt(t, m, i - k);
          assert s[i] == t[i - k];
          if s[i] == '_' {
            assert s[i - 1] == t[i - k - 1] && s[i + 1] == t[i - k + 1];
          }
        }
      }
    }
  }

  /** Without its underscores a run is a plain string of digits. */
  lemma {:induction false} DigitRunUngroups(s: string)
    ensures AllDigits(Ungroup(s[..DigitRun(s)]))
    decreases |s|
  {
    var n := DigitRun(s);
    if n > 0 {
      RunUnfold(s);
      var k := RunStep(s);
      var t := s[k..];
      var m := DigitRun(t);
      DigitRunUngroups(t);
      assert s[..n] == s[..k] + t[..m];
      UngroupConcat(s[..k], t[..m]);
      if k == 2 {
        assert Ungroup(s[..2]) == [s[0]] + Ungroup(s[1..2]);
        assert Ungroup(s[1..2]) == [] + Ungroup("");
      } else {
        assert Ungroup(s[..1]) == [s[0]] + Ungroup("");
      }
    } else {
      assert s[..0] == "";
    }
  }

  lemma {:induction false} UngroupConcat(a: string, b: string)
    ensures Ungroup(a + b) == Ungroup(a) + Ungroup(b)
    decreases |a|
  {
    if |a| == 0 {
      assert a + b == b;
    } else {
      assert (a + b)[1..] == a[1..] + b;
      UngroupConcat(a[1..], b);
    }
  }

  /** A plain run of digits has nothing to ungroup. */
  lemma {:induction false} UngroupDigits(s: string)
    requires AllDigits(s)
    ensures Ungroup(s) == s
    decreases |s|
  {
    if |s| > 0 {
      UngroupDigits(s[1..]);
      assert s == [s[0]] + s[1..];
    }
  }

  lemma {:induction false} DigitRunAll(s: string)
    requires AllDigits(s)
    ensures DigitRun(s) == |s|
    decreases |s|
  {
    if |s| > 0 {
      if |s| > 1 {
        assert IsDigit(s[1]);
      }
      DigitRunAll(s[1..]);
    }
  }

  /** The exponent after `e`/`E`: an optional sign and at least one digit, to the end. */
  function ParseExponent(s: string): Option<int>
  {
    var neg := |s| > 0 && s[0] == '-';
    var ds := if |s| > 0 && (s[0] == '-' || s[0] == '+') then s[1..] else s;
    if |ds| == 0 || DigitRun(ds) != |ds| then None
    else
      var m: int := DigitsValue(Ungroup(ds));
      Some(if neg then -m else m)
  }

  /** A decimal literal as read: `digits` × 10^(`exp` − `point`). */
  datatype Decimal = Decimal(digits: nat, point: nat, exp: int)

  function DecimalValue(x: Decimal): real
  {
    var e := x.exp - x.point;
    if e >= 0 then (x.digits * Pow10(e)) as real else (x.digits as real) / (Pow10(-e) as real)
  }

  /** An unsigned decimal literal: digits, an optional fraction, an optional exponent. */
  function ParseDecimal(s: string): Option<Decimal>
  {
    var k1 := DigitRun(s);
    AfterIntegerPart(s[..k1], s[k1..])
  }

  function AfterIntegerPart(ip: string, rest: string): Option<Decimal>
  {
    if |rest| > 0 && rest[0] == '.' then
      var frac := rest[1..];
      var k2 := DigitRun(frac);
      if |ip| + k2 == 0 then None else WithExponent(ip, frac[..k2], frac[k2..])
    else if |ip| == 0 then None
    else WithExponent(ip, "", rest)
  }

  /** Mantissa digits and what follows them, which must be empty or an exponent. */
  function WithExponent(ip: string, fp: string, after: string): Option<Decimal>
  {
    var e :=
      if |after| == 0 then Some(0)
      else if after[0] == 'e' || after[0] == 'E' then ParseExponent(after[1..])
      else None;
    if e.None? then None else Some(Decimal(DigitsValue(Ungroup(ip) + Ungroup(fp)), |Ungroup(fp)|, e.value))
  }

  /** `float(s)` of a string: surrounding whitespace allowed, `inf`/`infinity`/`nan` in any case. */
  function ParseFloat(s: string): Option<Num>
  {
    ParseSigned(Strip(s))
  }

  function ParseSigned(t: string): Option<Num>
  {
    if |t| > 0 && t[0] == '-' then ParseUnsigned(t[1..], true)
    else if |t| > 0 && t[0] == '+' then ParseUnsigned(t[1..], false)
    else ParseUnsigned(t, false)
  }

  function ParseUnsigned(body: string, neg: bool): Option<Num>
  {
    UnsignedOf(body, ParseDecimal(body), neg)
  }

  /** The float an unsigned literal denotes, from its text and its decimal reading. */
  function UnsignedOf(body: string, dec: Option<Decimal>, neg: bool): Option<Num>
  {
    if IsInfinityWord(body) then Some(if neg then NegInf else PosInf)
    else if IsNaNWord(body) then Some(NaN)
    else match dec
      case None => None
      case Some(x) => Some(Fin(if neg then -DecimalValue(x) else DecimalValue(x)))
  }

  /** `inf` or `infinity` in any case, compared letter by letter after lower-casing. */
  predicate IsInfinityWord(w: string)
  {
    (|w| == 3 || |w| == 8) &&
    LowerChar(w[0]) == 'i' && LowerChar(w[1]) == 'n' && LowerChar(w[2]) == 'f' &&
    (|w| == 8 ==>
      LowerChar(w[3]) == 'i' && LowerChar(w[4]) == 'n' && LowerChar(w[5]) == 'i' &&
      LowerChar(w[6]) == 't' && LowerChar(w[7]) == 'y')
  }

  /** `nan` in any case. */
  predicate IsNaNWord(w: string)
  {
    |w| == 3 && LowerChar(w[0]) == 'n' && LowerChar(w[1]) == 'a' && LowerChar(w[2]) == 'n'
  }

  /** The letter-by-letter tests are the source's comparisons of `lower()` with the words. */
  lemma SpecialWords(w: string)
    ensures IsInfinityWord(w) <==> Lower(w) == "inf" || Lower(w) == "infinity"
    ensures IsNaNWord(w) <==> Lower(w) == "nan"
  {
    var lw := Lower(w);
    if IsInfinityWord(w) {
      if |w| == 3 {
        assert lw == "inf";
      } else {
        assert lw == "infinity";
      }
    }
    if IsNaNWord(w) {
      assert lw == "nan";
    }
    if lw == "inf" || lw == "infinity" || lw == "nan" {
      assert "inf"[0] == 'i' && "inf"[1] == 'n' && "inf"[2] == 'f';
      assert "nan"[0] == 'n' && "nan"[1] == 'a' && "nan"[2] == 'n';
    }
  }

  lemma ParseDecimalDigits(d: string)
    requires |d| > 0 && AllDigits(d)
    ensures ParseDecimal(d) == Some(Decimal(DigitsValue(d), 0, 0))
  {
    DigitRunAll(d);
    UngroupDigits(d);
    assert d[..|d|] == d;
    assert d[|d|..] == "";
    assert Ungroup("") == "";
    assert d + "" == d;
  }

  /** A literal without fraction or exponent stands for its digits, with the sign applied. */
  lemma SignedWhole(n: nat, neg: bool, v: int)
    requires neg ==> v == -(n as int)
    requires !neg ==> v == n
    ensures (if neg then -DecimalValue(Decimal(n, 0, 0)) else DecimalValue(Decimal(n, 0, 0))) == v as real
  {
    assert Pow10(0) == 1;
  }

  lemma ParseUnsignedDigits(d: string, neg: bool, n: nat, v: int)
    requires |d| > 0 && AllDigits(d) && DigitsValue(d) == n
    requires neg ==> v == -(n as int)
    requires !neg ==> v == n
    ensures ParseUnsigned(d, neg) == Some(Fin(v as real))
  {
    ParseDecimalDigits(d);
    UnsignedWhole(d, neg, n, v);
  }

  lemma UnsignedWhole(d: string, neg: bool, n: nat, v: int)
    requires |d| > 0 && IsDigit(d[0])
    requires ParseDecimal(d) == Some(Decimal(n, 0, 0))
    requires neg ==> v == -(n as int)
    requires !neg ==> v == n
    ensures ParseUnsigned(d, neg) == Some(Fin(v as real))
  {
    UnsignedDecimal(d, neg, Decimal(n, 0, 0));
    SignedWhole(n, neg, v);
  }

  /** A literal starting with a digit is no special word: it reads as its decimal value. */
  lemma UnsignedDecimal(d: string, neg: bool, x: Decimal)
    requires |d| > 0 && IsDigit(d[0])
    requires ParseDecimal(d) == Some(x)
    ensures ParseUnsigned(d, neg) == Some(Fin(if neg then -DecimalValue(x) else DecimalValue(x)))
  {
    assert LowerChar(d[0]) == d[0];
  }

  lemma NegTextStripped(d: string)
    requires AllDigits(d)
    ensures Strip("-" + d) == "-" + d
  {
    var t := "-" + d;
    assert forall j :: 0 <= j < |t| ==> !IsSpace(t[j]);
    StripNoSpace(t);
  }

  /** `float(str(i))` gives back `i` for a negative integer. */
  lemma FloatOfNegativeText(i: int)
    requires i < 0
    ensures ParseFloat(IntToStr(i)) == Some(Fin(i as real))
  {
    NatToStrFacts(-i);
    NegativeDigits(NatToStr(-i), -i, i);
    NegIntText(i);
  }

  lemma NegIntText(i: int)
    requires i < 0
    ensures IntToStr(i) == "-" + NatToStr(-i)
  {
  }

  lemma NatToStrFacts(m: nat)
    ensures |NatToStr(m)| > 0 && AllDigits(NatToStr(m)) && DigitsValue(NatToStr(m)) == m
  {
    DigitsOfNatToStr(m);
  }

  /** A minus sign and a run of digits read as the negated integer. */
  lemma NegativeDigits(d: string, m: nat, v: int)
    requires |d| > 0 && AllDigits(d) && DigitsValue(d) == m && v == -(m as int)
    ensures ParseFloat("-" + d) == Some(Fin(v as real))
  {
    ParseUnsignedDigits(d, true, m, v);
    NegTextStripped(d);
    MinusSign(d);
  }

  lemma MinusSign(d: string)
    ensures ParseSigned("-" + d) == ParseUnsigned(d, true)
  {
    var t := "-" + d;
    assert t[0] == '-' && t[1..] == d;
  }

  /** `float(str(i))` gives back `i` for a non-negative integer. */
  lemma FloatOfNaturalText(i: int)
    requires i >= 0
    ensures ParseFloat(IntToStr(i)) == Some(Fin(i as real))
  {
    NatToStrFacts(i);
    assert IntToStr(i) == NatToStr(i);
    PlainDigits(NatToStr(i), i);
  }

  /** `float(str(i)) == i`: the text of any integer reads back as that number. */
  lemma FloatOfIntegerText(i: int)
    ensures ParseFloat(IntToStr(i)) == Some(Fin(i as real))
  {
    if i < 0 {
      FloatOfNegativeText(i);
    } else {
      FloatOfNaturalText(i);
    }
  }

  /** A run of digits without sign reads as its value. */
  lemma PlainDigits(d: string, n: nat)
    requires |d| > 0 && AllDigits(d) && DigitsValue(d) == n
    ensures ParseFloat(d) == Some(Fin(n as real))
  {
    ParseUnsignedDigits(d, false, n, n);
    assert ParseFloat(d) == ParseUnsigned(d, false) by {
      StripNoSpace(d);
      assert d[0] != '-' && d[0] != '+';
    }
  }

  /** Two digit runs joined by one underscore form a single run. */
  lemma {:induction false} DigitRunGrouped(a: string, b: string)
    requires |a| > 0 && |b| > 0 && AllDigits(a) && AllDigits(b)
    ensures DigitRun(a + "_" + b) == |a| + 1 + |b|
    decreases |a|
  {
    var s := a + "_" + b;
    if |a| == 1 {
      assert s[1] == '_' && s[2] == b[0] && s[2..] == b;
      DigitRunAll(b);
    } else {
      assert s[1] == a[1];
      assert s[1..] == a[1..] + "_" + b;
      DigitRunGrouped(a[1..], b);
    }
  }

  lemma UngroupGrouped(a: string, b: string)
    requires AllDigits(a) && AllDigits(b)
    ensures Ungroup(a + "_" + b) == a + b
  {
    UngroupConcat(a + "_", b);
    UngroupConcat(a, "_");
    assert Ungroup("_") == "" + Ungroup("");
    UngroupDigits(a);
    UngroupDigits(b);
  }

  /** A grouped run with nothing after it is a whole number. */
  lemma GroupedDecimal(a: string, b: string)
    requires |a| > 0 && |b| > 0 && AllDigits(a) && AllDigits(b)
    ensures ParseDecimal(a + "_" + b) == Some(Decimal(DigitsValue(a + b), 0, 0))
  {
    var s := a + "_" + b;
    DigitRunGrouped(a, b);
    UngroupGrouped(a, b);
    assert s[..|s|] == s && s[|s|..] == "";
    assert Ungroup("") == "";
    assert a + b + "" == a + b;
  }

  lemma GroupedNoSpace(a: string, b: string)
    requires AllDigits(a) && AllDigits(b)
    ensures forall k :: 0 <= k < |a + "_" + b| ==> !IsSpace((a + "_" + b)[k])
  {
    var s := a + "_" + b;
    forall k | 0 <= k < |s| ensures !IsSpace(s[k]) {
      if k < |a| {
        assert s[k] == a[k];
      } else if k > |a| {
        assert s[k] == b[k - |a| - 1];
      }
    }
    StripNoSpace(s);
  }

  /** Unpadded text starting with a digit is read without a sign. */
  lemma DigitFirstUnsigned(s: string)
    requires |s| > 0 && IsDigit(s[0]) && forall k :: 0 <= k < |s| ==> !IsSpace(s[k])
    ensures ParseFloat(s) == ParseUnsigned(s, false)
  {
    StripNoSpace(s);
    assert s[0] != '-' && s[0] != '+';
  }

  /** Unpadded text starting with a digit that reads as a whole number is that number. */
  lemma WholeReads(s: string, n: nat)
    requires |s| > 0 && IsDigit(s[0]) && forall k :: 0 <= k < |s| ==> !IsSpace(s[k])
    requires ParseDecimal(s) == Some(Decimal(n, 0, 0))
    ensures ParseFloat(s) == Some(Fin(n as real))
  {
    UnsignedWhole(s, false, n, n);
    DigitFirstUnsigned(s);
  }

  /** `float("1_000")`: an underscore between two digits is skipped (PEP 515). */
  lemma GroupedReads(a: string, b: string)
    requires |a| > 0 && |b| > 0 && AllDigits(a) && AllDigits(b)
    ensures ParseFloat(a + "_" + b) == Some(Fin(DigitsValue(a + b) as real))
  {
    GroupedDecimal(a, b);
    GroupedNoSpace(a, b);
    assert (a + "_" + b)[0] == a[0];
    WholeReads(a + "_" + b, DigitsValue(a + b));
  }

  /** The grouped text of the example reads as one thousand. */
  lemma OneThousandGrouped()
    ensures ParseFloat("1_000") == Some(Fin(1000.0))
  {
    assert "1_000" == "1" + "_" + "000";
    assert "1" + "000" == "1000";
    assert DigitsValue("1") == 1;
    assert DigitsValue("10") == 10;
    assert DigitsValue("100") == 100;
    assert DigitsValue("1000") == 1000 by {
      assert "1000"[..3] == "100";
    }
    GroupedReads("1", "000");
  }

  /** The run of digits stops where a non-digit follows. */
  lemma {:induction false} DigitRunStops(ip: string, rest: string)
    requires AllDigits(ip) && |rest| > 0 && !IsDigit(rest[0]) && rest[0] != '_'
    ensures DigitRun(ip + rest) == |ip|
    decreases |ip|
  {
    if |ip| > 0 {
      assert (ip + rest)[1..] == ip[1..] + rest;
      assert |ip + rest| > 1 ==> (ip + rest)[1] != '_' by {
        if |ip| > 1 { assert (ip + rest)[1] == ip[1]; } else { assert (ip + rest)[1] == rest[0]; }
      }
      DigitRunStops(ip[1..], rest);
    } else {
      assert ip + rest == rest;
    }
  }

  /** `ip.fp` without exponent reads as the digits of both parts over 10^|fp|. */
  lemma PointDecimal(ip: string, fp: string)
    requires |ip| > 0 && AllDigits(ip) && AllDigits(fp)
    ensures ParseDecimal(ip + "." + fp) == Some(Decimal(DigitsValue(ip + fp), |fp|, 0))
  {
    var s := ip + "." + fp;
    DigitRunStops(ip, "." + fp);
    assert s == ip + ("." + fp);
    assert s[..|ip|] == ip;
    assert s[|ip|..] == "." + fp;
    assert ("." + fp)[1..] == fp;
    DigitRunAll(fp);
    UngroupDigits(ip);
    UngroupDigits(fp);
    UngroupConcat(ip, fp);
    assert fp[..|fp|] == fp && fp[|fp|..] == "";
  }

  /** An unsigned point literal such as `12.0` is the float it denotes. */
  lemma PointFloat(ip: string, fp: string)
    requires |ip| > 0 && AllDigits(ip) && AllDigits(fp)
    ensures ParseFloat(ip + "." + fp) == Some(Fin(DecimalValue(Decimal(DigitsValue(ip + fp), |fp|, 0))))
  {
    var s := ip + "." + fp;
    PointDecimal(ip, fp);
    UnsignedDecimal(s, false, Decimal(DigitsValue(ip + fp), |fp|, 0));
    forall k | 0 <= k < |s| ensures !IsSpace(s[k]) {
      if k < |ip| {
        assert s[k] == ip[k];
      } else if k > |ip| {
        assert s[k] == fp[k - |ip| - 1];
      }
    }
    StripNoSpace(s);
    assert s[0] == ip[0];
  }

  /** Reading `a + b` as digits: `a` shifted by the length of `b`, plus `b`. */
  lemma {:induction false} DigitsValueConcat(a: string, b: string)
    ensures DigitsValue(a + b) == DigitsValue(a) * Pow10(|b|) + DigitsValue(b)
    decreases |b|
  {
    if |b| == 0 {
      assert a + b == a;
    } else {
      var b' := b[..|b| - 1];
      var c := DigitValue(b[|b| - 1]);
      assert (a + b)[..|a + b| - 1] == a + b';
      assert (a + b)[|a + b| - 1] == b[|b| - 1];
      DigitsValueConcat(a, b');
      assert DigitsValue(a + b) == DigitsValue(a + b') * 10 + c;
      assert DigitsValue(b) == DigitsValue(b') * 10 + c;
      assert Pow10(|b|) == 10 * Pow10(|b'|);
      ShiftDigit(DigitsValue(a), Pow10(|b'|), DigitsValue(b'), c);
    }
  }

  /** Appending a digit to `x * p + y` shifts both parts. */
  lemma ShiftDigit(x: int, p: int, y: int, c: int)
    ensures (x * p + y) * 10 + c == x * (10 * p) + (y * 10 + c)
  {
  }

  /** `k` digits stand for less than 10^k. */
  lemma {:induction false} DigitsValueBound(s: string)
    requires AllDigits(s)
    ensures DigitsValue(s) < Pow10(|s|)
    decreases |s|
  {
    if |s| > 0 {
      DigitsValueBound(s[..|s| - 1]);
      assert IsDigit(s[|s| - 1]);
    }
  }

  /** A point literal reads as its digits over 10^(digits after the point). */
  lemma PointReads(ip: string, fp: string)
    requires |ip| > 0 && AllDigits(ip) && AllDigits(fp)
    ensures ParseFloat(ip + "." + fp) == Some(Fin(DigitsValue(ip + fp) as real / Pow10(|fp|) as real))
  {
    PointFloat(ip, fp);
    DecimalQuotient(DigitsValue(ip + fp), |fp|);
  }

  /** A decimal without exponent is its digits over 10^point. */
  lemma DecimalQuotient(n: nat, k: nat)
    ensures DecimalValue(Decimal(n, k, 0)) == n as real / Pow10(k) as real
  {
    if k == 0 {
      assert Pow10(0) == 1;
    }
  }

  // ---------------------------------------------------------------------
  // Float comparisons (NaN compares false with everything)
  // ---------------------------------------------------------------------

  predicate NumLe(a: Num, b: Num)
  {
    if a.NaN? || b.NaN? then false
    else if a.NegInf? || b.PosInf? then true
    else if a.PosInf? || b.NegInf? then a == b
    else a.r <= b.r
  }

  predicate NumLt(a: Num, b: Num)
  {
    NumLe(a, b) && !NumLe(b, a)
  }

  lemma NaNIncomparable(x: Num)
    ensures !NumLe(NaN, x) && !NumLe(x, NaN) && !NumLt(NaN, x) && !NumLt(x, NaN)
  {
  }

  lemma NumLeFinite(a: real, b: real)
    ensures NumLe(Fin(a), Fin(b)) <==> a <= b
    ensures NumLt(Fin(a), Fin(b)) <==> a < b
  {
  }
}
