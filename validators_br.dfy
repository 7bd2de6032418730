/**
 * Brazilian taxpayer numbers: CPF (11 digits) and CNPJ (14 digits), their
 * check digits and their display masks.
 */
module ValidatorsBr {
  import opened PyStr

  /** The text given, `None` read as `""` (the `s or ""` of `_only_digits`). */
  function TextOf(s: Option<string>): string
  {
    if s.Some? then s.value else ""
  }

  /** `_only_digits(s)`: `re.sub(r"\D", "", s or "")`. */
  function OnlyDigits(s: Option<string>): string
  {
    KeepOnly(TextOf(s), IsDigit)
  }

  /** Only digits remain. */
  lemma OnlyDigitsAreDigits(s: Option<string>)
    ensures AllDigits(OnlyDigits(s))
  {
    KeepOnlyKeeps(TextOf(s), IsDigit);
  }

  /** Digits are kept in order and everything else is dropped: one character at a time, then by concatenation. */
  lemma OnlyDigitsChars(a: string, b: string, c: char)
    ensures OnlyDigits(Some([c])) == if IsDigit(c) then [c] else ""
    ensures OnlyDigits(Some(a + b)) == OnlyDigits(Some(a)) + OnlyDigits(Some(b))
    ensures OnlyDigits(None) == ""
  {
    KeepOnlyConcat(a, b, IsDigit);
    assert [c][1..] == "";
  }

  /** A string of digits is its own digit string. */
  lemma OnlyDigitsOfDigits(s: string)
    requires AllDigits(s)
    ensures OnlyDigits(Some(s)) == s
  {
    KeepOnlyAll(s, IsDigit);
  }

  /** `n == n[0] * len(n)`: every digit the same. */
  predicate AllSame(n: string)
  {
    |n| > 0 && forall i :: 0 <= i < |n| ==> n[i] == n[0]
  }

  // ---------------------------------------------------------------------
  // CPF
  // ---------------------------------------------------------------------

  /** `sum(int(n[i]) * (top - i) for i in range(k))` */
  function WeightedSum(n: string, k: nat, top: int): int
    requires k <= |n|
  {
    if k == 0 then 0 else WeightedSum(n, k - 1, top) + DigitValue(n[k - 1]) * (top - (k - 1))
  }

  /** A CPF check digit over the first `k` digits: `(s * 10) % 11`, with 10 read as 0. */
  function CpfDigit(n: string, k: nat): (d: nat)
    requires k <= |n|
    ensures d <= 9
  {
    var m := (WeightedSum(n, k, k + 1) * 10) % 11;
    if m == 10 then 0 else m
  }

  /** `is_valid_cpf(cpf)` */
  predicate IsValidCpf(cpf: Option<string>)
  {
    var n := OnlyDigits(cpf);
    if |n| != 11 || AllSame(n) then false
    else n[9..] == [DigitChar(CpfDigit(n, 9)), DigitChar(CpfDigit(n, 10))]
  }

  /** A CPF is valid exactly when it has 11 digits, not all equal, ending in its two check digits. */
  lemma CpfValidIff(cpf: Option<string>)
    ensures var n := OnlyDigits(cpf);
      IsValidCpf(cpf) <==>
        |n| == 11 && !AllSame(n) && DigitValue(n[9]) == CpfDigit(n, 9) && DigitValue(n[10]) == CpfDigit(n, 10)
  {
    var n := OnlyDigits(cpf);
    OnlyDigitsAreDigits(cpf);
    if |n| == 11 && !AllSame(n) {
      var e := [DigitChar(CpfDigit(n, 9)), DigitChar(CpfDigit(n, 10))];
      if DigitValue(n[9]) == CpfDigit(n, 9) && DigitValue(n[10]) == CpfDigit(n, 10) {
        DigitCharOf(n[9]);
        DigitCharOf(n[10]);
        assert n[9..] == e;
      }
    }
  }

  /** A digit is the character of its value. */
  lemma DigitCharOf(c: char)
    requires IsDigit(c)
    ensures DigitChar(DigitValue(c)) == c
  {
  }

  /** `f"{n[0:3]}.{n[3:6]}.{n[6:9]}-{n[9:11]}"` */
  function CpfMask(n: string): string
    requires |n| == 11
  {
    n[0..3] + "." + n[3..6] + "." + n[6..9] + "-" + n[9..11]
  }

  /** `format_cpf(cpf)`: the mask for 11 digits, the input unchanged otherwise. */
  function FormatCpf(cpf: Option<string>): Option<string>
  {
    var n := OnlyDigits(cpf);
    if |n| != 11 then cpf else Some(CpfMask(n))
  }

  /** The mask has its separators at positions 3, 7 and 11 and holds exactly the digits it masks. */
  lemma CpfMaskShape(n: string)
    requires |n| == 11 && AllDigits(n)
    ensures var r := CpfMask(n); |r| == 14 && r[3] == '.' && r[7] == '.' && r[11] == '-'
    ensures OnlyDigits(Some(CpfMask(n))) == n
  {
    var a, b, c, d := n[0..3], n[3..6], n[6..9], n[9..11];
    assert a + b + c + d == n;
    assert AllDigits(a) && AllDigits(b) && AllDigits(c) && AllDigits(d);
    OnlyDigitsOfDigits(a);
    OnlyDigitsOfDigits(b);
    OnlyDigitsOfDigits(c);
    OnlyDigitsOfDigits(d);
    MaskStep(a, '.', b);
    MaskStep(a + "." + b, '.', c);
    MaskStep(a + "." + b + "." + c, '-', d);
  }

  /** Formatting twice is formatting once, and a mask never changes validity. */
  lemma FormatCpfStable(cpf: Option<string>)
    ensures FormatCpf(FormatCpf(cpf)) == FormatCpf(cpf)
    ensures IsValidCpf(FormatCpf(cpf)) == IsValidCpf(cpf)
  {
    var n := OnlyDigits(cpf);
    if |n| == 11 {
      OnlyDigitsAreDigits(cpf);
      CpfMaskShape(n);
    }
  }

  /** An 11-digit string given as its four groups is masked group by group. */
  lemma CpfFormatGroups(a: string, b: string, c: string, d: string)
    requires |a| == 3 && |b| == 3 && |c| == 3 && |d| == 2
    requires AllDigits(a) && AllDigits(b) && AllDigits(c) && AllDigits(d)
    ensures FormatCpf(Some(a + b + c + d)) == Some(a + "." + b + "." + c + "-" + d)
  {
    var n := a + b + c + d;
    assert AllDigits(n) by {
      forall i | 0 <= i < |n| ensures IsDigit(n[i]) {
        if i < 3 { assert n[i] == a[i]; }
        else if i < 6 { assert n[i] == b[i - 3]; }
        else if i < 9 { assert n[i] == c[i - 6]; }
        else { assert n[i] == d[i - 9]; }
      }
    }
    OnlyDigitsOfDigits(n);
    assert n[0..3] == a && n[3..6] == b && n[6..9] == c && n[9..11] == d;
  }

  /**
   * `format_cpf("52998224725") == "529.982.247-25"`, that CPF is valid, and
   * `000.000.000-00` is not.
   */
  lemma CpfExamples()
    ensures FormatCpf(Some("529" + "982" + "247" + "25")) == Some("529" + "." + "982" + "." + "247" + "-" + "25")
    ensures IsValidCpf(Some("529" + "." + "982" + "." + "247" + "-" + "25"))
    ensures !IsValidCpf(Some("000" + "." + "000" + "." + "000" + "-" + "00"))
  {
    CpfFormatGroups("529", "982", "247", "25");
    FormatCpfStable(Some("529" + "982" + "247" + "25"));
    CpfExampleDigits("529" + "982" + "247" + "25");
    CpfFormatGroups("000", "000", "000", "00");
    FormatCpfStable(Some("000" + "000" + "000" + "00"));
    CpfZeros("000" + "000" + "000" + "00");
  }

  /** The check digits of 529.982.247 are 2 and 5, so 52998224725 is valid. */
  lemma CpfExampleDigits(n: string)
    requires n == "529" + "982" + "247" + "25"
    ensures IsValidCpf(Some(n))
  {
    assert n[0] == '5' && n[1] == '2' && n[2] == '9' && n[3] == '9' && n[4] == '8' && n[5] == '2';
    assert n[6] == '2' && n[7] == '4' && n[8] == '7' && n[9] == '2' && n[10] == '5';
    assert WeightedSum(n, 1, 10) == 50;
    assert WeightedSum(n, 2, 10) == 68;
    assert WeightedSum(n, 3, 10) == 140;
    assert WeightedSum(n, 4, 10) == 203;
    assert WeightedSum(n, 5, 10) == 251;
    assert WeightedSum(n, 6, 10) == 261;
    assert WeightedSum(n, 7, 10) == 269;
    assert WeightedSum(n, 8, 10) == 281;
    assert WeightedSum(n, 9, 10) == 295;
    assert WeightedSum(n, 1, 11) == 55;
    assert WeightedSum(n, 2, 11) == 75;
    assert WeightedSum(n, 3, 11) == 156;
    assert WeightedSum(n, 4, 11) == 228;
    assert WeightedSum(n, 5, 11) == 284;
    assert WeightedSum(n, 6, 11) == 296;
    assert WeightedSum(n, 7, 11) == 306;
    assert WeightedSum(n, 8, 11) == 322;
    assert WeightedSum(n, 9, 11) == 343;
    assert WeightedSum(n, 10, 11) == 347;
    assert AllDigits(n);
    OnlyDigitsOfDigits(n);
    CpfValidIff(Some(n));
  }

  lemma CpfZeros(z: string)
    requires z == "000" + "000" + "000" + "00"
    ensures !IsValidCpf(Some(z))
  {
    assert forall i :: 0 <= i < |z| ==> z[i] == '0';
    assert AllDigits(z);
    OnlyDigitsOfDigits(z);
    assert AllSame(z);
  }

  // ---------------------------------------------------------------------
  // CNPJ
  // ---------------------------------------------------------------------

  /** The weights `[6,5,4,3,2,9,8,7,6,5,4,3,2]`, right-aligned against the digits. */
  const CnpjWeights: seq<int> := [6, 5, 4, 3, 2, 9, 8, 7, 6, 5, 4, 3, 2]

  /** `sum(int(num[i]) * pesos[i + (13 - len(num))] for i in range(k))` */
  function CnpjSum(num: string, k: nat): int
    requires k <= |num| <= 13
  {
    if k == 0 then 0 else CnpjSum(num, k - 1) + DigitValue(num[k - 1]) * CnpjWeights[k - 1 + (13 - |num|)]
  }

  /** `dv(num)`: `r = s % 11`, then 0 when `r < 2`, else `11 - r`. */
  function CnpjDigit(num: string): (d: nat)
    requires |num| <= 13
    ensures d <= 9
  {
    var r := CnpjSum(num, |num|) % 11;
    if r < 2 then 0 else 11 - r
  }

  /** `is_valid_cnpj(cnpj)`: `d2` is computed over the first twelve digits followed by `str(d1)`. */
  predicate IsValidCnpj(cnpj: Option<string>)
  {
    var n := OnlyDigits(cnpj);
    if |n| != 14 || AllSame(n) then false
    else
      var d1 := CnpjDigit(n[..12]);
      var d2 := CnpjDigit(n[..12] + NatToStr(d1));
      n[12..] == NatToStr(d1) + NatToStr(d2)
  }

  /** A CNPJ is valid exactly when it has 14 digits, not all equal, ending in its two check digits. */
  lemma CnpjValidIff(cnpj: Option<string>)
    ensures var n := OnlyDigits(cnpj);
      IsValidCnpj(cnpj) <==>
        |n| == 14 && !AllSame(n) && DigitValue(n[12]) == CnpjDigit(n[..12])
        && DigitValue(n[13]) == CnpjDigit(n[..13])
  {
    var n := OnlyDigits(cnpj);
    OnlyDigitsAreDigits(cnpj);
    if |n| == 14 && !AllSame(n) {
      var d1 := CnpjDigit(n[..12]);
      var d2 := CnpjDigit(n[..12] + NatToStr(d1));
      assert NatToStr(d1) == [DigitChar(d1)] && NatToStr(d2) == [DigitChar(d2)];
      if DigitValue(n[12]) == d1 {
        DigitCharOf(n[12]);
        assert n[..12] + NatToStr(d1) == n[..13];
      }
      if n[12..] == NatToStr(d1) + NatToStr(d2) {
        assert n[12] == DigitChar(d1) && n[13] == DigitChar(d2);
        assert n[..12] + NatToStr(d1) == n[..13];
      }
      if DigitValue(n[12]) == d1 && DigitValue(n[13]) == CnpjDigit(n[..13]) {
        DigitCharOf(n[13]);
        assert n[12..] == [n[12], n[13]];
      }
    }
  }

  /** `f"{n[0:2]}.{n[2:5]}.{n[5:8]}/{n[8:12]}-{n[12:14]}"` */
  function CnpjMask(n: string): string
    requires |n| == 14
  {
    n[0..2] + "." + n[2..5] + "." + n[5..8] + "/" + n[8..12] + "-" + n[12..14]
  }

  /** `format_cnpj(cnpj)`: the mask for 14 digits, the input unchanged otherwise. */
  function FormatCnpj(cnpj: Option<string>): Option<string>
  {
    var n := OnlyDigits(cnpj);
    if |n| != 14 then cnpj else Some(CnpjMask(n))
  }

  /** The mask has its separators at positions 2, 6, 10 and 15 and holds exactly the digits it masks. */
  lemma CnpjMaskShape(n: string)
    requires |n| == 14 && AllDigits(n)
    ensures var r := CnpjMask(n); |r| == 18 && r[2] == '.' && r[6] == '.' && r[10] == '/' && r[15] == '-'
    ensures OnlyDigits(Some(CnpjMask(n))) == n
  {
    var a, b, c, d, e := n[0..2], n[2..5], n[5..8], n[8..12], n[12..14];
    assert a + b + c + d + e == n;
    assert AllDigits(a) && AllDigits(b) && AllDigits(c) && AllDigits(d) && AllDigits(e);
    MaskedGroups(a, b, c, d, e, '.', '.', '/', '-');
  }

  /** Separators that are not digits add nothing to the digit string of the groups they delimit. */
  lemma MaskedGroups(a: string, b: string, c: string, d: string, e: string, s1: char, s2: char, s3: char, s4: char)
    requires AllDigits(a) && AllDigits(b) && AllDigits(c) && AllDigits(d) && AllDigits(e)
    requires !IsDigit(s1) && !IsDigit(s2) && !IsDigit(s3) && !IsDigit(s4)
    ensures OnlyDigits(Some(a + [s1] + b + [s2] + c + [s3] + d + [s4] + e)) == a + b + c + d + e
  {
    OnlyDigitsOfDigits(a);
    OnlyDigitsOfDigits(b);
    OnlyDigitsOfDigits(c);
    OnlyDigitsOfDigits(d);
    OnlyDigitsOfDigits(e);
    MaskStep(a, s1, b);
    MaskStep(a + [s1] + b, s2, c);
    MaskStep(a + [s1] + b + [s2] + c, s3, d);
    MaskStep(a + [s1] + b + [s2] + c + [s3] + d, s4, e);
  }

  /** Formatting twice is formatting once, and a mask never changes validity. */
  lemma FormatCnpjStable(cnpj: Option<string>)
    ensures FormatCnpj(FormatCnpj(cnpj)) == FormatCnpj(cnpj)
    ensures IsValidCnpj(FormatCnpj(cnpj)) == IsValidCnpj(cnpj)
  {
    var n := OnlyDigits(cnpj);
    if |n| == 14 {
      OnlyDigitsAreDigits(cnpj);
      CnpjMaskShape(n);
    }
  }

  /** A 14-digit string given as its five groups is masked group by group. */
  lemma CnpjFormatGroups(a: string, b: string, c: string, d: string, e: string)
    requires |a| == 2 && |b| == 3 && |c| == 3 && |d| == 4 && |e| == 2
    requires AllDigits(a) && AllDigits(b) && AllDigits(c) && AllDigits(d) && AllDigits(e)
    ensures FormatCnpj(Some(a + b + c + d + e)) == Some(a + "." + b + "." + c + "/" + d + "-" + e)
  {
    var n := a + b + c + d + e;
    assert AllDigits(n) by {
      forall i | 0 <= i < |n| ensures IsDigit(n[i]) {
        if i < 2 { assert n[i] == a[i]; }
        else if i < 5 { assert n[i] == b[i - 2]; }
        else if i < 8 { assert n[i] == c[i - 5]; }
        else if i < 12 { assert n[i] == d[i - 8]; }
        else { assert n[i] == e[i - 12]; }
      }
    }
    OnlyDigitsOfDigits(n);
    assert n[0..2] == a && n[2..5] == b && n[5..8] == c && n[8..12] == d && n[12..14] == e;
  }

  /** `format_cnpj("04252011000110") == "04.252.011/0001-10"`; `11.111.111/1111-11` is not valid. */
  lemma CnpjExamples()
    ensures FormatCnpj(Some("04" + "252" + "011" + "0001" + "10")) == Some("04" + "." + "252" + "." + "011" + "/" + "0001" + "-" + "10")
    ensures !IsValidCnpj(Some("11" + "." + "111" + "." + "111" + "/" + "1111" + "-" + "11"))
  {
    CnpjFormatGroups("04", "252", "011", "0001", "10");
    CnpjFormatGroups("11", "111", "111", "1111", "11");
    FormatCnpjStable(Some("11" + "111" + "111" + "1111" + "11"));
    CnpjOnes("11" + "111" + "111" + "1111" + "11");
  }

  lemma CnpjOnes(o: string)
    requires o == "11" + "111" + "111" + "1111" + "11"
    ensures !IsValidCnpj(Some(o))
  {
    assert forall i :: 0 <= i < |o| ==> o[i] == '1';
    assert AllDigits(o);
    OnlyDigitsOfDigits(o);
    assert AllSame(o);
  }

  /** A one-character separator that is not a digit adds nothing to the digit string. */
  lemma MaskStep(acc: string, sep: char, piece: string)
    requires !IsDigit(sep)
    ensures OnlyDigits(Some(acc + [sep] + piece)) == OnlyDigits(Some(acc)) + OnlyDigits(Some(piece))
  {
    KeepOnlyConcat(acc, [sep], IsDigit);
    KeepOnlyConcat(acc + [sep], piece, IsDigit);
    assert [sep][1..] == "";
  }
}
