/**
 * Text helpers shared by the whole application: accent folding, the
 * `normalize` key every search and comparison uses, tokens, slugs, and the
 * lenient readers of booleans and numbers typed by users.
 */
module TextUtils {
  import opened PyStr
  import opened PyFloat
  import opened PyValue
  import opened Seqs

  // ---------------------------------------------------------------------
  // strip_accents / normalize
  // ---------------------------------------------------------------------

  /** `strip_accents(s)`: compatibility decomposition with the combining marks dropped. */
  function StripAccents(s: Option<string>): string
  {
    if s.None? then "" else FoldAccents(s.value)
  }

  /** What the punctuation pass of `normalize` keeps: `[a-z0-9\s]`. */
  predicate Kept(c: char)
  {
    IsAsciiLower(c) || IsDigit(c) || IsSpace(c)
  }

  /** What a normalized text is made of: lower-case ASCII letters, digits and blanks. */
  predicate NormChar(c: char)
  {
    IsAsciiLower(c) || IsDigit(c) || c == ' '
  }

  predicate AllNormChars(s: string)
  {
    forall i :: 0 <= i < |s| ==> NormChar(s[i])
  }

  /**
   * `normalize(s)`: lower-case, fold accents, turn every character outside
   * `[a-z0-9\s]` into a blank, collapse whitespace runs into one blank, strip.
   */
  function Normalize(s: Option<string>): string
  {
    if s.None? then "" else Clean(StripAccents(Some(Lower(s.value))))
  }

  /** The regular-expression passes of `normalize`, after case and accents. */
  function Clean(x: string): string
  {
    Strip(Collapse(ReplaceOutside(x, Kept, ' ')))
  }

  /** Accent folding leaves ASCII text alone and keeps the length. */
  lemma StripAccentsAscii(s: string)
    ensures |StripAccents(Some(s))| == |s|
    ensures forall i :: 0 <= i < |s| && s[i] as int < 0x80 ==> StripAccents(Some(s))[i] == s[i]
  {
  }

  /** Collapsing a text of kept characters gives normalized characters only. */
  lemma {:induction false} CollapseNormChars(x: string)
    requires forall i :: 0 <= i < |x| ==> Kept(x[i])
    ensures AllNormChars(Collapse(x))
    decreases |x|
  {
    if |x| > 0 {
      var t := if IsSpace(x[0]) then LStrip(x[1..]) else x[1..];
      var h := if IsSpace(x[0]) then ' ' else x[0];
      assert forall i :: 0 <= i < |t| ==> t[i] == x[|x| - |t| + i];
      CollapseNormChars(t);
      var c := Collapse(t);
      assert Collapse(x) == [h] + c;
      assert forall i :: 1 <= i < |[h] + c| ==> ([h] + c)[i] == c[i - 1];
    }
  }

  /** An infix of a normalized text is normalized. */
  lemma InfixNormChars(c: string, r: string)
    requires AllNormChars(c) && Contains(c, r)
    ensures AllNormChars(r)
  {
    var i :| 0 <= i <= |c| && StartsAt(c, i, r);
    assert forall j :: 0 <= j < |r| ==> r[j] == c[i + j];
  }

  /** The shape of every result: `[a-z0-9 ]` only, single blanks, nothing at the ends. */
  lemma NormalizeShape(s: Option<string>)
    ensures AllNormChars(Normalize(s)) && IsSpaced(Normalize(s))
  {
    if s.Some? {
      var x := ReplaceOutside(StripAccents(Some(Lower(s.value))), Kept, ' ');
      assert forall i :: 0 <= i < |x| ==> Kept(x[i]);
      CollapseNormChars(x);
      InfixNormChars(Collapse(x), Strip(Collapse(x)));
      CollapseStripSpaced(x);
    }
  }

  /** Collapsing a text that already has single blanks changes nothing. */
  lemma {:induction false} CollapseOfSingleBlanks(t: string)
    requires SingleBlanks(t)
    ensures Collapse(t) == t
    decreases |t|
  {
    if |t| > 0 {
      assert StartsAt(t, 1, t[1..]);
      SingleBlanksInfix(t, 1, t[1..]);
      CollapseOfSingleBlanks(t[1..]);
      if IsSpace(t[0]) {
        assert |t| > 1 ==> !IsSpace(t[1]);
        assert LStrip(t[1..]) == t[1..];
      }
      assert [t[0]] + t[1..] == t;
    }
  }

  /** Every spaced text of normalized characters is its own normalization. */
  lemma NormalizeFixed(t: string)
    requires AllNormChars(t) && IsSpaced(t)
    ensures Normalize(Some(t)) == t
  {
    assert Lower(t) == t;
    assert StripAccents(Some(t)) == t;
    CleanFixed(t);
  }

  lemma CleanFixed(t: string)
    requires AllNormChars(t) && IsSpaced(t)
    ensures Clean(t) == t
  {
    assert ReplaceOutside(t, Kept, ' ') == t;
    CollapseOfSingleBlanks(t);
    StripOfStripped(t);
  }

  /** `normalize` is idempotent. */
  lemma NormalizeIdempotent(s: Option<string>)
    ensures Normalize(Some(Normalize(s))) == Normalize(s)
  {
    NormalizeShape(s);
    NormalizeFixed(Normalize(s));
  }

  // ---------------------------------------------------------------------
  // tokenize / slugify
  // ---------------------------------------------------------------------

  predicate NonEmptyText(t: string) { t != "" }

  /** `tokenize(s)`: the non-empty whitespace-separated words of `normalize(s)`. */
  function Tokenize(s: Option<string>): seq<string>
  {
    Filter(Words(Normalize(s)), NonEmptyText)
  }

  /**
   * The tokens are the words of the normalized text (the emptiness filter drops
   * nothing), each a non-empty run of `[a-z0-9]`, and joining them with
   * blanks gives the normalized text back.
   */
  lemma TokenizeWords(s: Option<string>)
    ensures Tokenize(s) == Words(Normalize(s))
    ensures Join(Tokenize(s), " ") == Normalize(s)
    ensures forall t :: t in Tokenize(s) ==> t != "" && AllNormChars(t) && ' ' !in t
  {
    var n := Normalize(s);
    WordsShape(n);
    FilterAll(Words(n), NonEmptyText);
    NormalizeShape(s);
    JoinWordsSpaced(n);
    forall t | t in Words(n) ensures AllNormChars(t) && ' ' !in t {
      WordsInText(n, t);
      InfixNormChars(n, t);
      assert forall j :: 0 <= j < |t| ==> !IsSpace(t[j]);
    }
  }

  /** Every word of a text occurs in it. */
  lemma {:induction false} WordsInText(s: string, w: string)
    requires w in Words(s)
    ensures Contains(s, w)
    decreases |s|
  {
    if IsSpace(s[0]) {
      WordsInText(s[1..], w);
      var i :| 0 <= i <= |s[1..]| && StartsAt(s[1..], i, w);
      assert s[i + 1..i + 1 + |w|] == s[1..][i..i + |w|];
      assert StartsAt(s, i + 1, w);
    } else {
      var n := RunLen(s);
      if w == s[..n] {
        assert StartsAt(s, 0, w);
      } else {
        assert w in Words(s[n..]);
        WordsInText(s[n..], w);
        var i :| 0 <= i <= |s[n..]| && StartsAt(s[n..], i, w);
        assert s[n + i..n + i + |w|] == s[n..][i..i + |w|];
        assert StartsAt(s, n + i, w);
      }
    }
  }

  /** `slugify(s)`: the normalized text with its blanks turned into hyphens. */
  function Slugify(s: Option<string>): string
  {
    ReplaceChar(Normalize(s), ' ', '-')
  }

  /**
   * A slug has no blank, only `[a-z0-9-]`, and turning its hyphens back into
   * blanks gives the normalized text: no information is lost.
   */
  lemma SlugifyShape(s: Option<string>)
    ensures ' ' !in Slugify(s)
    ensures forall i :: 0 <= i < |Slugify(s)| ==>
      IsAsciiLower(Slugify(s)[i]) || IsDigit(Slugify(s)[i]) || Slugify(s)[i] == '-'
    ensures ReplaceChar(Slugify(s), '-', ' ') == Normalize(s)
  {
    NormalizeShape(s);
    SlugOfNormChars(Normalize(s));
  }

  /** Hyphenating the blanks of a normalized text is undone by the reverse replacement. */
  lemma SlugOfNormChars(n: string)
    requires AllNormChars(n)
    ensures var g := ReplaceChar(n, ' ', '-');
      ' ' !in g && (forall i :: 0 <= i < |g| ==> IsAsciiLower(g[i]) || IsDigit(g[i]) || g[i] == '-')
      && ReplaceChar(g, '-', ' ') == n
  {
    var g := ReplaceChar(n, ' ', '-');
    forall i | 0 <= i < |g| ensures g[i] != ' ' && (IsAsciiLower(g[i]) || IsDigit(g[i]) || g[i] == '-') {
      assert NormChar(n[i]);
    }
    var back := ReplaceChar(g, '-', ' ');
    forall i | 0 <= i < |n| ensures back[i] == n[i] {
      assert NormChar(n[i]);
    }
  }

  // ---------------------------------------------------------------------
  // to_bool
  // ---------------------------------------------------------------------

  const TrueWords: set<string> := {"1", "true", "t", "sim", "yes", "y"}
  const FalseWords: set<string> := {"0", "false", "f", "nao", "não", "no", "n"}

  /** The answer `to_bool` gives for a normalized text. */
  function BoolWord(s: string): Option<bool>
  {
    if s in TrueWords then Some(true)
    else if s in FalseWords then Some(false)
    else None
  }

  /** `to_bool(v)`: a bool as is, a recognised yes/no word, otherwise nothing. */
  function ToBool(v: Value): Option<bool>
  {
    if v.VNone? then None
    else if v.VBool? then Some(v.b)
    else BoolWord(Normalize(Some(Str(v))))
  }

  /** A yes-word reads `True`, a no-word `False`, anything else nothing. */
  lemma BoolWordCases(s: string)
    ensures BoolWord(s) == Some(true) <==> s in TrueWords
    ensures BoolWord(s) == Some(false) <==> s in FalseWords
  {
    assert TrueWords * FalseWords == {};
  }

  /**
   * What `to_bool` answers: `None` for `None`, a bool unchanged, and for any
   * other value `True` exactly when its normalized text is a yes-word and
   * `False` exactly when it is a no-word.
   */
  lemma ToBoolCases(v: Value)
    ensures v.VNone? ==> ToBool(v) == None
    ensures v.VBool? ==> ToBool(v) == Some(v.b)
    ensures !v.VNone? && !v.VBool? ==>
      (ToBool(v) == Some(true) <==> Normalize(Some(Str(v))) in TrueWords)
    ensures !v.VNone? && !v.VBool? ==>
      (ToBool(v) == Some(false) <==> Normalize(Some(Str(v))) in FalseWords)
  {
    BoolWordCases(Normalize(Some(Str(v))));
  }

  /** Spelling does not matter: a text and its normalization read the same. */
  lemma ToBoolNormalized(s: string)
    ensures ToBool(VStr(s)) == ToBool(VStr(Normalize(Some(s))))
  {
    NormalizeIdempotent(Some(s));
  }

  /** The accented no-word can never match, since normalized text is ASCII. */
  lemma AccentedNoUnreachable(s: Option<string>)
    ensures Normalize(s) != "não"
  {
    NormalizeShape(s);
    assert !NormChar("não"[1]);
  }

  /** Text whose folded lower-case form is already spaced `[a-z0-9 ]` normalizes to that form. */
  lemma NormalizeOfWord(s: string, w: string)
    requires StripAccents(Some(Lower(s))) == w && AllNormChars(w) && IsSpaced(w)
    ensures Normalize(Some(s)) == w
  {
    CleanFixed(w);
  }

  /** A text reads as the word its normalization is. */
  lemma ToBoolOfText(s: string, w: string)
    requires Normalize(Some(s)) == w
    ensures ToBool(VStr(s)) == BoolWord(w)
  {
  }

  lemma BoolWordExamples()
    ensures BoolWord("sim") == Some(true) && BoolWord("1") == Some(true)
    ensures BoolWord("nao") == Some(false) && BoolWord("nan") == None
  {
    assert "sim" in TrueWords && "1" in TrueWords;
    assert "nao" !in TrueWords && "nao" in FalseWords;
    assert "nan" !in TrueWords && "nan" !in FalseWords;
  }

  /** `to_bool("sim") is True`. */
  lemma ToBoolSim()
    ensures ToBool(VStr("sim")) == Some(true)
  {
    var w := "sim";
    assert Lower(w) == w;
    assert StripAccents(Some(w)) == w;
    NormalizeOfWord(w, w);
    ToBoolOfText(w, w);
    BoolWordExamples();
  }

  /** `to_bool("não") is False`. */
  lemma ToBoolNao()
    ensures ToBool(VStr("não")) == Some(false)
  {
    var w := "não";
    assert Lower(w) == w;
    assert StripAccents(Some(w)) == "nao";
    NormalizeOfWord(w, "nao");
    ToBoolOfText(w, "nao");
    BoolWordExamples();
  }

  /** `to_bool(1) is True`. */
  lemma ToBoolOne()
    ensures ToBool(VInt(1)) == Some(true)
  {
    assert Lower("1") == "1" && StripAccents(Some("1")) == "1";
    NormalizeOfWord("1", "1");
    assert Str(VInt(1)) == "1";
    BoolWordExamples();
  }

  /** NaN, whose text is `nan`, reads as nothing. */
  lemma ToBoolNaN()
    ensures ToBool(VNaN) == None
  {
    assert Lower("nan") == "nan" && StripAccents(Some("nan")) == "nan";
    NormalizeOfWord("nan", "nan");
    BoolWordExamples();
  }

  // ---------------------------------------------------------------------
  // safe_int / safe_float
  // ---------------------------------------------------------------------

  /** `int(x)` of a finite float: rounds toward zero. */
  function Trunc(r: real): int
  {
    if r >= 0.0 then r.Floor else -((-r).Floor)
  }

  lemma TruncBounds(r: real)
    ensures r >= 0.0 ==> 0.0 <= Trunc(r) as real <= r < Trunc(r) as real + 1.0
    ensures r < 0.0 ==> Trunc(r) as real - 1.0 < r <= Trunc(r) as real <= 0.0
  {
  }

  /** The `v is None or v == ""` guard both readers share. */
  predicate Blank(v: Value)
  {
    v.VNone? || PyEq(v, VStr(""))
  }

  /** `safe_int(v, default)`: `int(float(str(v)))`, or the default where that raises. */
  function SafeInt(v: Value, default: Option<int>): Option<int>
  {
    if Blank(v) then default
    else match ParseFloat(Str(v))
      case Some(Fin(r)) => Some(Trunc(r))
      case _ => default
  }

  /** `safe_float(v, default)`: `float(str(v).replace(",", "."))`, or the default. */
  function SafeFloat(v: Value, default: Option<Num>): Option<Num>
  {
    if Blank(v) then default
    else
      var n := ParseFloat(ReplaceChar(Str(v), ',', '.'));
      if n.Some? then n else default
  }

  /**
   * The readers return the default exactly on `None`, `""` and text
   * `float()` rejects (and, for `safe_int`, on infinities and NaN, which
   * `int()` rejects).
   */
  lemma SafeDefaults(v: Value, d: Option<int>, e: Option<Num>)
    ensures v.VNone? || v == VStr("") ==> SafeInt(v, d) == d && SafeFloat(v, e) == e
    ensures !Blank(v) ==>
      (SafeInt(v, d).Some? && SafeInt(v, d) != d ==> ParseFloat(Str(v)).Some? && ParseFloat(Str(v)).value.Fin?)
    ensures !Blank(v) && ParseFloat(Str(v)).Some? && !ParseFloat(Str(v)).value.Fin? ==> SafeInt(v, d) == d
    ensures !Blank(v) && ParseFloat(ReplaceChar(Str(v), ',', '.')).None? ==> SafeFloat(v, e) == e
  {
  }

  /** `safe_int` of a value that is not blank and whose text is a finite float. */
  lemma SafeIntReads(v: Value, d: Option<int>, r: real)
    requires !Blank(v) && ParseFloat(Str(v)) == Some(Fin(r))
    ensures SafeInt(v, d) == Some(Trunc(r))
  {
  }

  /** `safe_float` of a value that is not blank and whose text, commas made points, is a float. */
  lemma SafeFloatReads(v: Value, e: Option<Num>, n: Num)
    requires !Blank(v) && ParseFloat(ReplaceChar(Str(v), ',', '.')) == Some(n)
    ensures SafeFloat(v, e) == Some(n)
  {
  }

  lemma TruncOfInteger(i: int)
    ensures Trunc(i as real) == i
  {
  }

  lemma IntegerNotBlank(i: int)
    ensures !Blank(VInt(i))
  {
  }

  lemma TextNotBlank(t: string)
    requires t != ""
    ensures !Blank(VStr(t))
  {
  }

  lemma IntegerTextNotBlank(i: int)
    ensures !Blank(VStr(IntToStr(i)))
  {
    NatToStrFacts(if i < 0 then -i else i);
  }

  lemma IntegerReads(i: int)
    ensures ParseFloat(Str(VInt(i))) == Some(Fin(i as real))
    ensures ParseFloat(Str(VStr(IntToStr(i)))) == Some(Fin(i as real))
  {
    var t := IntToStr(i);
    assert Str(VInt(i)) == t;
    assert Str(VStr(t)) == t;
    FloatOfIntegerText(i);
  }

  /** An integer, or its text, reads back as itself through `safe_int`. */
  lemma SafeIntOfInteger(i: int, d: Option<int>)
    ensures SafeInt(VInt(i), d) == Some(i)
    ensures SafeInt(VStr(IntToStr(i)), d) == Some(i)
  {
    IntegerNotBlank(i);
    IntegerTextNotBlank(i);
    IntegerReads(i);
    TruncOfInteger(i);
    SafeIntReads(VInt(i), d, i as real);
    SafeIntReads(VStr(IntToStr(i)), d, i as real);
  }

  /** An integer reads back as itself through `safe_float`. */
  lemma SafeFloatOfInteger(i: int, e: Option<Num>)
    ensures SafeFloat(VInt(i), e) == Some(Fin(i as real))
  {
    IntegerNotBlank(i);
    NoCommaInNumber(i);
    IntegerReads(i);
    assert ReplaceChar(Str(VInt(i)), ',', '.') == Str(VInt(i));
    SafeFloatReads(VInt(i), e, Fin(i as real));
  }

  /** The text of an integer has no comma. */
  lemma NoCommaInNumber(i: int)
    ensures ReplaceChar(IntToStr(i), ',', '.') == IntToStr(i)
  {
    var s := IntToStr(i);
    if i < 0 {
      NegIntText(i);
      NatToStrFacts(-i);
      assert forall k :: 1 <= k < |s| ==> s[k] == NatToStr(-i)[k - 1];
    } else {
      NatToStrFacts(i);
    }
    assert forall k :: 0 <= k < |s| ==> s[k] != ',';
  }

  /** `safe_int` is `int()` of what `safe_float` reads, when the text has no comma. */
  lemma SafeIntFromFloat(v: Value, d: Option<int>, r: real)
    requires ReplaceChar(Str(v), ',', '.') == Str(v)
    requires SafeFloat(v, None) == Some(Fin(r))
    ensures SafeInt(v, d) == Some(Trunc(r))
  {
  }

  /** A proper fraction `rem / p` lies in [0, 1). */
  lemma ProperFraction(rem: nat, p: nat)
    requires p >= 1 && rem < p
    ensures 0.0 <= (rem as real) / (p as real) < 1.0
  {
  }

  /** The whole part of `(q·p + rem) / p` is `q` when `rem < p`. */
  lemma FloorOfQuotient(q: nat, rem: nat, p: nat)
    requires p >= 1 && rem < p
    ensures Trunc(((q * p + rem) as real) / (p as real)) == q
  {
    var pr := p as real;
    var y := (rem as real) / pr;
    ProperFraction(rem, p);
    assert ((q * p + rem) as real) == (q as real) * pr + (rem as real);
    assert ((q as real) * pr + (rem as real)) / pr == (q as real) + y;
  }

  /** `int()` of the point literal `ip.fp` is its integer part. */
  lemma PointWhole(ip: string, fp: string)
    requires AllDigits(fp)
    ensures Trunc(DigitsValue(ip + fp) as real / Pow10(|fp|) as real) == DigitsValue(ip)
  {
    DigitsValueConcat(ip, fp);
    DigitsValueBound(fp);
    FloorOfQuotient(DigitsValue(ip), DigitsValue(fp), Pow10(|fp|));
  }

  /**
   * `safe_int` of a point literal `ip.fp`, such as `"12.0"`, is the integer
   * part `ip`: `int()` drops the fraction.
   */
  lemma SafeIntOfPoint(ip: string, fp: string, d: Option<int>)
    requires |ip| > 0 && AllDigits(ip) && AllDigits(fp)
    ensures SafeInt(VStr(ip + "." + fp), d) == Some(DigitsValue(ip))
  {
    PointReads(ip, fp);
    PointWhole(ip, fp);
    SafeIntOfText(ip + "." + fp, d, DigitsValue(ip + fp) as real / Pow10(|fp|) as real);
  }

  /** `safe_int` of a text that reads as a finite float is that float truncated. */
  lemma SafeIntOfText(t: string, d: Option<int>, r: real)
    requires t != "" && ParseFloat(t) == Some(Fin(r))
    ensures SafeInt(VStr(t), d) == Some(Trunc(r))
  {
    TextNotBlank(t);
    SafeIntReads(VStr(t), d, r);
  }

  /** Turning the comma of `ip,fp` into a point gives `ip.fp`. */
  lemma CommaToPoint(ip: string, fp: string)
    requires AllDigits(ip) && AllDigits(fp)
    ensures ReplaceChar(ip + "," + fp, ',', '.') == ip + "." + fp
  {
    var s := ip + "," + fp;
    var t := ip + "." + fp;
    forall k | 0 <= k < |s| ensures ReplaceChar(s, ',', '.')[k] == t[k] {
      if k < |ip| {
        assert s[k] == ip[k] && t[k] == ip[k];
      } else if k > |ip| {
        assert s[k] == fp[k - |ip| - 1] && t[k] == fp[k - |ip| - 1];
      }
    }
  }

  /**
   * `safe_float` reads a decimal comma as a point: `ip,fp`, such as `"3,14"`,
   * is the number `ip.fp`.
   */
  lemma SafeFloatComma(ip: string, fp: string, e: Option<Num>)
    requires |ip| > 0 && AllDigits(ip) && AllDigits(fp)
    ensures SafeFloat(VStr(ip + "," + fp), e) ==
      Some(Fin(DigitsValue(ip + fp) as real / Pow10(|fp|) as real))
  {
    var s := ip + "," + fp;
    var n := Fin(DigitsValue(ip + fp) as real / Pow10(|fp|) as real);
    assert !Blank(VStr(s)) by { TextNotBlank(s); }
    assert ParseFloat(ReplaceChar(Str(VStr(s)), ',', '.')) == Some(n) by {
      CommaToPoint(ip, fp);
      PointReads(ip, fp);
    }
    SafeFloatReads(VStr(s), e, n);
  }

  /** `safe_int("12.0") == 12`. */
  lemma SafeIntTwelve()
    ensures SafeInt(VStr("12.0"), None) == Some(12)
  {
    assert "12.0" == "12" + "." + "0";
    assert AllDigits("12") && AllDigits("0");
    assert DigitsValue("12") == 12 by {
      assert "12"[..1] == "1" && "1"[..0] == "";
    }
    SafeIntOfPoint("12", "0", None);
  }

  lemma PiDigits()
    ensures DigitsValue("3" + "14") as real / Pow10(|"14"|) as real == 3.14
  {
    assert "3" + "14" == "314";
    assert "314"[..2] == "31" && "31"[..1] == "3" && "3"[..0] == "";
    assert Pow10(2) == 100;
  }

  /** `safe_float("3,14") == 3.14`, the text written as its three pieces. */
  lemma SafeFloatPi()
    ensures SafeFloat(VStr("3" + "," + "14"), None) == Some(Fin(3.14))
  {
    assert AllDigits("3") && AllDigits("14");
    PiDigits();
    SafeFloatComma("3", "14", None);
  }

}
