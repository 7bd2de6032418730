/**
 * Field validators shared by the application's pydantic models (policies,
 * requirements, user profiles and regions): the "strip, and a blank means
 * missing" rule, the two-letter state code, the list typed in one
 * spreadsheet cell, and the outcome of a validation.
 */
module ModelFields {
  import opened PyStr
  import opened PyValue
  import opened Seqs

  /** The outcome of `Model.model_validate`: the model, or a `ValidationError` naming a field. */
  datatype Result<T> = Ok(value: T) | Invalid(field: string)

  /** `input.get(key)`: a keyword argument or dict entry, absent or given. */
  function Get(input: map<string, Value>, key: string): Option<Value>
  {
    if key in input then Some(input[key]) else None
  }

  /** A `str | None` field without a validator of its own: only text or `None` is accepted. */
  function OptionalText(input: map<string, Value>, key: string): (r: Result<Option<string>>)
    ensures key !in input || input[key].VNone? ==> r == Ok(None)
    ensures key in input && input[key].VStr? ==> r == Ok(Some(input[key].s))
    ensures r.Invalid? <==> key in input && !input[key].VNone? && !input[key].VStr?
  {
    match Get(input, key)
    case None => Ok(None)
    case Some(VNone) => Ok(None)
    case Some(VStr(s)) => Ok(Some(s))
    case Some(_) => Invalid(key)
  }

  /** `None` for a missing value, the text otherwise (how a dict shows a `str | None` field). */
  function OptText(o: Option<string>): (v: Value)
    ensures o.None? <==> v.VNone?
    ensures o.Some? ==> v == VStr(o.value)
  {
    if o.None? then VNone else VStr(o.value)
  }

  // ---------------------------------------------------------------------
  // s = str(v).strip(); return s or None
  // ---------------------------------------------------------------------

  /**
   * The validator the models repeat for free-text fields: `None` passes,
   * anything else is shown with `str`, stripped, and a blank becomes `None`.
   */
  function StripOrNone(v: Value): (r: Option<string>)
    ensures v.VNone? ==> r.None?
    ensures !v.VNone? ==> (r.None? <==> Strip(Str(v)) == "")
    ensures r.Some? ==> r.value != "" && IsStripped(r.value)
    ensures r.Some? ==> Contains(Str(v), r.value)
  {
    if v.VNone? then None
    else
      var s := Strip(Str(v));
      if s != "" then Some(s) else None
  }

  /** Validating what the validator produced changes nothing. */
  lemma StripOrNoneIdempotent(v: Value)
    ensures StripOrNone(v).Some? ==> StripOrNone(VStr(StripOrNone(v).value)) == StripOrNone(v)
  {
    if StripOrNone(v).Some? {
      StripIdempotent(Str(v));
    }
  }

  /** Surrounding whitespace makes no difference. */
  lemma StripOrNonePadded(s: string)
    ensures StripOrNone(VStr(" " + s + " ")) == StripOrNone(VStr(s))
  {
    StripAround(s);
  }

  lemma StripAround(s: string)
    ensures Strip(" " + s + " ") == Strip(s)
  {
    assert (" " + s + " ")[1..] == s + " ";
    StripTrailingSpace(s);
  }

  lemma StripTrailingSpace(s: string)
    ensures Strip(s + " ") == Strip(s)
  {
    var t := s + " ";
    if LStrip(s) == "" {
      LStripOfSpaces(s);
      assert LStrip(t) == LStrip(" ") by { LStripConcat(s, " "); }
    } else {
      LStripConcat(s, " ");
      assert LStrip(t) == LStrip(s) + " ";
      var u := LStrip(s);
      assert (u + " ")[..|u|] == u;
    }
  }

  /** Leading whitespace of `a` is stripped before anything of `b` when `a` is not all blank. */
  lemma {:induction false} LStripConcat(a: string, b: string)
    ensures LStrip(a) != "" ==> LStrip(a + b) == LStrip(a) + b
    ensures LStrip(a) == "" ==> LStrip(a + b) == LStrip(b)
    decreases |a|
  {
    if |a| == 0 {
      assert a + b == b;
    } else {
      assert (a + b)[1..] == a[1..] + b;
      if IsSpace(a[0]) {
        LStripConcat(a[1..], b);
      }
    }
  }

  /** A string whose left strip is empty is all blanks. */
  lemma {:induction false} LStripOfSpaces(s: string)
    requires LStrip(s) == ""
    ensures forall i :: 0 <= i < |s| ==> IsSpace(s[i])
    decreases |s|
  {
    if |s| > 0 {
      LStripOfSpaces(s[1..]);
      assert forall i :: 1 <= i < |s| ==> s[i] == s[1..][i - 1];
    }
  }

  // ---------------------------------------------------------------------
  // _norm_uf
  // ---------------------------------------------------------------------

  /**
   * `_norm_uf(v)`: `None` passes; otherwise `str(v).strip().upper()`, cut
   * to its first two characters (an empty text stays empty).
   */
  function NormUf(v: Value): (r: Option<string>)
    ensures v.VNone? <==> r.None?
  {
    if v.VNone? then None else Some(UfCode(Str(v)))
  }

  /** The code `_norm_uf` makes of the text `t`: at most two characters, upper-cased. */
  function UfCode(t: string): (r: string)
    ensures |r| == (if |Strip(t)| < 2 then |Strip(t)| else 2)
    ensures forall i :: 0 <= i < |r| ==> r[i] == UpperChar(Strip(t)[i])
  {
    var s := Upper(Strip(t));
    if s != "" then s[..if |s| < 2 then |s| else 2] else s
  }

  /** Upper-casing twice is upper-casing once. */
  lemma UpperCharIdempotent(c: char)
    ensures UpperChar(UpperChar(c)) == UpperChar(c)
  {
  }

  /** The code holds no lower-case letter: upper-casing it again leaves it as it is. */
  lemma UfCodeUpper(t: string)
    ensures Upper(UfCode(t)) == UfCode(t)
    ensures forall i :: 0 <= i < |UfCode(t)| ==> !IsAsciiLower(UfCode(t)[i])
  {
    var r := UfCode(t);
    forall i | 0 <= i < |r| ensures UpperChar(r[i]) == r[i] {
      UpperCharIdempotent(Strip(t)[i]);
    }
  }

  /** A code without surrounding blanks is a fixed point of the normalisation. */
  lemma NormUfIdempotent(v: Value)
    requires !v.VNone? && IsStripped(NormUf(v).value)
    ensures NormUf(VStr(NormUf(v).value)) == NormUf(v)
  {
    var r := UfCode(Str(v));
    UfCodeUpper(Str(v));
    StripOfStripped(r);
    assert UfCode(r) == r;
  }

  /**
   * A blank inside the first two characters survives the cut, so `" a b "`
   * becomes `"A "`, which a second pass turns into `"A"`.
   */
  lemma UfCodeInnerBlank(x: char, y: char)
    requires !IsSpace(x) && !IsSpace(y)
    ensures UfCode([x, ' ', y]) == [UpperChar(x), ' ']
    ensures UfCode([UpperChar(x), ' ']) == [UpperChar(x)]
  {
    var t := [x, ' ', y];
    assert UfCode(t) == [UpperChar(x), ' '] by {
      StripOfStripped(t);
      var r := UfCode(t);
      assert |r| == 2 && r[0] == UpperChar(x);
      assert r[1] == UpperChar(' ') == ' ';
    }
    assert UfCode([UpperChar(x), ' ']) == [UpperChar(x)] by {
      UpperCharIdempotent(x);
      UfCodeTrailingBlank(UpperChar(x));
    }
  }

  lemma UfCodeTrailingBlank(u: char)
    requires !IsSpace(u) && UpperChar(u) == u
    ensures UfCode([u, ' ']) == [u]
  {
    var t := [u, ' '];
    assert LStrip(t) == t;
    assert t[..1] == [u];
    assert RStrip(t) == [u];
    assert Strip(t) == [u];
  }

  /** Two letters give the two letters upper-cased (`"pa"` is `"PA"`). */
  lemma UfCodeOfLetters(t: string)
    requires |t| == 2 && !IsSpace(t[0]) && !IsSpace(t[1])
    ensures UfCode(t) == [UpperChar(t[0]), UpperChar(t[1])]
  {
    assert Strip(t) == t by { StripOfStripped(t); }
    var r := UfCode(t);
    assert |r| == 2;
    assert r[0] == UpperChar(t[0]) && r[1] == UpperChar(t[1]);
  }

  /** Surrounding blanks make no difference (`" pa "` is `"PA"`). */
  lemma UfCodeOfPadded(x: char, y: char)
    requires !IsSpace(x) && !IsSpace(y)
    ensures UfCode(" " + [x, y] + " ") == [UpperChar(x), UpperChar(y)]
  {
    assert Strip(" " + [x, y] + " ") == [x, y] by {
      StripAround([x, y]);
      StripOfStripped([x, y]);
    }
    UfCodeOfStrip(" " + [x, y] + " ", x, y);
  }

  lemma UfCodeOfStrip(t: string, x: char, y: char)
    requires Strip(t) == [x, y]
    ensures UfCode(t) == [UpperChar(x), UpperChar(y)]
  {
    var r := UfCode(t);
    assert |r| == 2;
    assert r[0] == UpperChar(x) && r[1] == UpperChar(y);
  }

  // ---------------------------------------------------------------------
  // A list typed in one cell
  // ---------------------------------------------------------------------

  /** The characters of a separator list. */
  function SepSet(seps: seq<char>): set<char>
  {
    set c | c in seps
  }

  /**
   * The items of a list-valued field, as a one-pass split: `None` gives no
   * item, a list the stripped non-empty `str` of its elements, anything
   * else the stripped non-empty pieces of its stripped text cut at every
   * separator and at `|`.
   */
  function ListField(v: Value, seps: seq<char>): seq<string>
  {
    if v.VNone? then []
    else if v.VList? then StripNonEmpty(Map(v.items, Str))
    else CellItems(Strip(Str(v)), seps)
  }

  /** The stripped non-empty pieces of `s` cut at every separator and at `|`. */
  function CellItems(s: string, seps: seq<char>): seq<string>
  {
    StripNonEmpty(SplitChars(s, SepSet(seps) + {'|'}))
  }

  /** Every item is non-empty and stripped, and an item cut from text holds no separator. */
  lemma ListFieldShape(v: Value, seps: seq<char>)
    ensures forall p :: p in ListField(v, seps) ==> p != "" && IsStripped(p)
    ensures !v.VList? ==>
      forall p :: p in ListField(v, seps) ==> forall c :: c in p ==> c !in seps && c != '|'
  {
    if v.VList? {
      StripNonEmptyItems(Map(v.items, Str));
    } else if !v.VNone? {
      var sset := SepSet(seps) + {'|'};
      var parts := SplitChars(Strip(Str(v)), sset);
      SplitCharsPieces(Strip(Str(v)), sset);
      StripNonEmptyItems(parts);
      StripNonEmptyAvoids(parts, sset);
    }
  }

  /** Items cut from anything but a list are clean items for the splitter's separators. */
  lemma ListFieldClean(v: Value, seps: seq<char>)
    requires !v.VList?
    ensures CleanItems(ListField(v, seps), SepSet(seps) + {'|'})
  {
    var items := ListField(v, seps);
    ListFieldShape(v, seps);
    forall k | 0 <= k < |items| ensures items[k] != "" && IsStripped(items[k]) && Free(items[k], SepSet(seps) + {'|'}) {
      var x := items[k];
      assert x in items;
      FreeOfAvoided(x, seps);
    }
  }

  lemma FreeOfAvoided(x: string, seps: seq<char>)
    requires forall c :: c in x ==> c !in seps && c != '|'
    ensures Free(x, SepSet(seps) + {'|'})
  {
    forall i | 0 <= i < |x| ensures x[i] !in SepSet(seps) + {'|'} {
      assert x[i] in x;
    }
  }

  /** Text that is blank once stripped has no item. */
  lemma ListFieldOfBlank(v: Value, seps: seq<char>)
    requires !v.VNone? && !v.VList? && Strip(Str(v)) == ""
    ensures ListField(v, seps) == []
  {
    CellItemsEmpty(seps);
  }

  lemma CellItemsEmpty(seps: seq<char>)
    ensures CellItems("", seps) == []
  {
    assert SplitChars("", SepSet(seps) + {'|'}) == [""];
    assert Strip("") == "";
  }

  /**
   * The loop both list validators run on a stripped cell: each separator in
   * turn is rewritten to `|` with `str.replace`; then the text is split at
   * `|` and the blank pieces are dropped. The outcome is the one-pass cut
   * at every separator.
   */
  method SplitCell(s0: string, seps: seq<char>) returns (items: seq<string>)
    ensures items == CellItems(s0, seps)
  {
    var s := s0;
    for j := 0 to |seps|
      invariant |s| == |s0|
      invariant forall i :: 0 <= i < |s0| ==>
        s[i] == (if s0[i] in seps[..j] then '|' else s0[i])
    {
      ReplaceStep(s0, s, seps, j);
      s := ReplaceChar(s, seps[j], '|');
    }
    ReplaceDone(s0, s, seps);
    items := StripNonEmpty(SplitChars(s, {'|'}));
  }

  /** One `s.replace(sep, "|")` step of the separator loop. */
  lemma ReplaceStep(s0: string, s: string, seps: seq<char>, j: nat)
    requires j < |seps| && |s| == |s0|
    requires forall i :: 0 <= i < |s0| ==> s[i] == (if s0[i] in seps[..j] then '|' else s0[i])
    ensures forall i :: 0 <= i < |s0| ==>
      ReplaceChar(s, seps[j], '|')[i] == (if s0[i] in seps[..j + 1] then '|' else s0[i])
  {
    assert seps[..j + 1] == seps[..j] + [seps[j]];
  }

  /** The separator loop done: every separator is now `|`. */
  lemma ReplaceDone(s0: string, s: string, seps: seq<char>)
    requires |s| == |s0|
    requires forall i :: 0 <= i < |s0| ==> s[i] == (if s0[i] in seps[..|seps|] then '|' else s0[i])
    ensures SplitChars(s, {'|'}) == SplitChars(s0, SepSet(seps) + {'|'})
  {
    assert seps[..|seps|] == seps;
    SplitMapped(s0, s, SepSet(seps) + {'|'});
  }

  /**
   * Splitting at `|` after every separator has been rewritten to `|` is
   * splitting the original text at the separators.
   */
  lemma {:induction false} SplitMapped(s: string, t: string, sset: set<char>)
    requires '|' in sset && |t| == |s|
    requires forall i :: 0 <= i < |s| ==> t[i] == (if s[i] in sset then '|' else s[i])
    ensures SplitChars(t, {'|'}) == SplitChars(s, sset)
    decreases |s|
  {
    FirstInMapped(s, t, sset);
    FirstInIsFirst(s, sset);
    var k := FirstIn(s, sset);
    assert t[..k] == s[..k];
    if k < |s| {
      assert t[k] == '|';
      SplitMapped(s[k + 1..], t[k + 1..], sset);
      assert SplitChars(t, {'|'}) == [t[..k]] + SplitChars(t[k + 1..], {'|'});
    } else {
      assert t == t[..k] && s == s[..k];
    }
  }

  lemma {:induction false} FirstInMapped(s: string, t: string, sset: set<char>)
    requires '|' in sset && |t| == |s|
    requires forall i :: 0 <= i < |s| ==> t[i] == (if s[i] in sset then '|' else s[i])
    ensures FirstIn(t, {'|'}) == FirstIn(s, sset)
    decreases |s|
  {
    if |s| > 0 && s[0] !in sset {
      FirstInMapped(s[1..], t[1..], sset);
    }
  }

  // ---------------------------------------------------------------------
  // ", ".join(items) read back
  // ---------------------------------------------------------------------

  /** No character of `x` is a separator. */
  predicate Free(x: string, sset: set<char>)
  {
    forall i :: 0 <= i < |x| ==> x[i] !in sset
  }

  /** Items that the list splitter could have produced from text. */
  predicate CleanItems(items: seq<string>, sset: set<char>)
  {
    forall k :: 0 <= k < |items| ==> items[k] != "" && IsStripped(items[k]) && Free(items[k], sset)
  }

  /**
   * Items joined with `", "` split back into the same items: what
   * `to_display_dict` shows of a list field reads back as that list.
   */
  lemma ListFieldOfJoin(items: seq<string>, seps: seq<char>)
    requires ',' in seps && ' ' !in seps
    requires CleanItems(items, SepSet(seps) + {'|'})
    ensures ListField(VStr(Join(items, ", ")), seps) == items
  {
    JoinStripped(items);
    SplitJoin("", items, SepSet(seps) + {'|'});
    ListFieldOfStripped(Join(items, ", "), items, seps);
  }

  lemma ListFieldOfStripped(j: string, items: seq<string>, seps: seq<char>)
    requires IsStripped(j)
    requires StripNonEmpty(SplitChars("" + j, SepSet(seps) + {'|'})) == items
    ensures ListField(VStr(j), seps) == items
  {
    assert "" + j == j;
    StripOfStripped(j);
  }


  /** A join of clean items has no blank at either end. */
  lemma {:induction false} JoinStripped(items: seq<string>)
    requires forall k :: 0 <= k < |items| ==> items[k] != "" && IsStripped(items[k])
    ensures IsStripped(Join(items, ", "))
    ensures |items| > 0 ==> |Join(items, ", ")| > 0 && Join(items, ", ")[0] == items[0][0]
    decreases |items|
  {
    if |items| > 1 {
      var rest := items[1..];
      JoinStripped(rest);
      var j := Join(rest, ", ");
      assert Join(items, ", ") == items[0] + ", " + j;
      assert (items[0] + ", " + j)[|items[0] + ", " + j| - 1] == j[|j| - 1];
    }
  }

  /** The pieces of `p + ", ".join(items)`, for `p` empty or one blank. */
  lemma {:induction false} SplitJoin(p: string, items: seq<string>, sset: set<char>)
    requires p == "" || p == " "
    requires ',' in sset && ' ' !in sset
    requires CleanItems(items, sset)
    ensures StripNonEmpty(SplitChars(p + Join(items, ", "), sset)) == items
    decreases |items|
  {
    if |items| == 0 {
      SplitJoinNone(p, items, sset);
    } else if |items| == 1 {
      SplitJoinOne(p, items, sset);
    } else {
      var rest := items[1..];
      assert CleanItems(rest, sset) by {
        assert forall k :: 0 <= k < |rest| ==> rest[k] == items[k + 1];
      }
      SplitJoin(" ", rest, sset);
      SplitJoinStep(p, items, sset);
    }
  }

  lemma SplitJoinNone(p: string, items: seq<string>, sset: set<char>)
    requires p == "" || p == " "
    requires ' ' !in sset && |items| == 0
    ensures StripNonEmpty(SplitChars(p + Join(items, ", "), sset)) == items
  {
    assert p + Join(items, ", ") == p;
    SplitFree(p, sset);
    assert Strip(p) == "" by {
      if p == " " { StripLeadingSpace(""); }
    }
    assert StripNonEmpty([p]) == [];
  }

  lemma SplitJoinOne(p: string, items: seq<string>, sset: set<char>)
    requires p == "" || p == " "
    requires ' ' !in sset && |items| == 1
    requires CleanItems(items, sset)
    ensures StripNonEmpty(SplitChars(p + Join(items, ", "), sset)) == items
  {
    var a := items[0];
    PaddedItem(p, a, sset);
    assert p + Join(items, ", ") == p + a;
    SplitFree(p + a, sset);
    StripNonEmptyOne(p + a, a);
  }

  lemma SplitJoinStep(p: string, items: seq<string>, sset: set<char>)
    requires p == "" || p == " "
    requires ',' in sset && ' ' !in sset && |items| >= 2
    requires CleanItems(items, sset)
    requires StripNonEmpty(SplitChars(" " + Join(items[1..], ", "), sset)) == items[1..]
    ensures StripNonEmpty(SplitChars(p + Join(items, ", "), sset)) == items
  {
    var a := items[0];
    var rest := items[1..];
    var tail := " " + Join(rest, ", ");
    var x := p + a;
    PaddedItem(p, a, sset);
    JoinTail(p, items);
    SplitAtComma(x, tail, sset);
    var pieces := SplitChars(tail, sset);
    assert SplitChars(p + Join(items, ", "), sset) == [x] + pieces;
    calc {
      StripNonEmpty([x] + pieces);
      { StripNonEmptyConcat([x], pieces); }
      StripNonEmpty([x]) + StripNonEmpty(pieces);
      { StripNonEmptyOne(x, a); }
      [a] + rest;
      { ConsSplitStrs(items); }
      items;
    }
  }

  /** `p + ", ".join(items)` is the first item, a comma and the blank-led rest. */
  lemma JoinTail(p: string, items: seq<string>)
    requires |items| >= 2
    ensures p + Join(items, ", ") == (p + items[0]) + "," + (" " + Join(items[1..], ", "))
  {
    var rest := items[1..];
    assert items == [items[0]] + rest;
    JoinCons(items[0], rest, ", ");
    CommaBlank(p, items[0], Join(rest, ", "));
  }

  lemma CommaBlank(p: string, a: string, j: string)
    ensures p + (a + ", " + j) == (p + a) + "," + (" " + j)
  {
    assert ", " == [','] + [' '];
  }

  /** A clean item after an optional blank strips to itself and holds no separator. */
  lemma PaddedItem(p: string, a: string, sset: set<char>)
    requires p == "" || p == " "
    requires ' ' !in sset
    requires a != "" && IsStripped(a) && Free(a, sset)
    ensures Strip(p + a) == a
    ensures Free(p + a, sset)
  {
    if p == " " {
      BlankItem(a, sset);
    } else {
      assert p + a == a;
      StripOfStripped(a);
    }
  }

  lemma BlankItem(a: string, sset: set<char>)
    requires ' ' !in sset
    requires IsStripped(a) && Free(a, sset)
    ensures Strip([' '] + a) == a
    ensures Free([' '] + a, sset)
  {
    assert Strip([' '] + a) == a by {
      StripLeadingSpace(a);
      StripOfStripped(a);
    }
    var t := [' '] + a;
    forall i | 0 <= i < |t| ensures t[i] !in sset {
      if i > 0 { assert t[i] == a[i - 1]; }
    }
  }

  /** Text without a separator is one piece. */
  lemma SplitFree(x: string, sset: set<char>)
    requires Free(x, sset)
    ensures SplitChars(x, sset) == [x]
  {
    FirstInFree(x, "", sset);
    assert x + "" == x;
  }

  /** Text without a separator, a comma and the rest: the text is the first piece. */
  lemma SplitAtComma(x: string, tail: string, sset: set<char>)
    requires ',' in sset
    requires Free(x, sset)
    ensures SplitChars(x + "," + tail, sset) == [x] + SplitChars(tail, sset)
  {
    var s := x + "," + tail;
    assert s == x + ("," + tail);
    FirstInFree(x, "," + tail, sset);
    var k := |x|;
    assert s[..k] == x && s[k + 1..] == tail;
  }

  /** The first separator of `x + y` is that of `y` when `x` has none. */
  lemma {:induction false} FirstInFree(x: string, y: string, sset: set<char>)
    requires Free(x, sset)
    ensures FirstIn(x + y, sset) == |x| + FirstIn(y, sset)
    decreases |x|
  {
    if |x| == 0 {
      assert x + y == y;
    } else {
      assert (x + y)[1..] == x[1..] + y;
      FirstInFree(x[1..], y, sset);
    }
  }

  /** Text without a separator, one separator and the rest: the text is the first piece. */
  lemma SplitAt(x: string, c: char, tail: string, sset: set<char>)
    requires c in sset && Free(x, sset)
    ensures SplitChars(x + [c] + tail, sset) == [x] + SplitChars(tail, sset)
  {
    var s := x + [c] + tail;
    assert s == x + ([c] + tail);
    FirstInFree(x, [c] + tail, sset);
    assert s[..|x|] == x && s[|x| + 1..] == tail;
  }

  lemma TrailingBlankItem(a: string, sset: set<char>)
    requires ' ' !in sset
    requires IsStripped(a) && Free(a, sset)
    ensures Strip(a + " ") == a
    ensures Free(a + " ", sset)
  {
    assert Strip(a + " ") == a by {
      StripTrailingSpace(a);
      StripOfStripped(a);
    }
    var t := a + " ";
    forall i | 0 <= i < |t| ensures t[i] !in sset {
      if i < |a| { assert t[i] == a[i]; }
    }
  }

  /** Clean text with no separator reads as one item. */
  lemma ListFieldOfFree(x: string, seps: seq<char>)
    requires x != "" && IsStripped(x) && Free(x, SepSet(seps) + {'|'})
    ensures ListField(VStr(x), seps) == [x]
  {
    var sset := SepSet(seps) + {'|'};
    SplitFree(x, sset);
    StripOfStripped(x);
    assert StripNonEmpty([x]) == [x];
    ListFieldOfStripped(x, [x], seps);
  }

  /** Two clean items, one separator and a blank: two items (`"cpf; documento"`). */
  lemma CellPair(a: string, m: string, b: string, seps: seq<char>)
    requires |m| == 2 && m[0] in SepSet(seps) + {'|'} && m[1] == ' ' && ' ' !in SepSet(seps)
    requires CleanItems([a, b], SepSet(seps) + {'|'})
    ensures ListField(VStr(a + m + b), seps) == [a, b]
  {
    var sset := SepSet(seps) + {'|'};
    CleanPair(a, b, sset);
    var t := a + m + b;
    assert IsStripped(t) by { PairStripped(a, m, b); }
    assert StripNonEmpty(SplitChars("" + t, sset)) == [a, b] by {
      assert "" + t == a + [m[0]] + " " + b;
      PairPieces(a, m[0], b, sset);
    }
    ListFieldOfStripped(t, [a, b], seps);
  }

  /** Two clean items with a separator between blanks: two items (`"Regras | Fiscalização"`). */
  lemma CellPairSpaced(a: string, m: string, b: string, seps: seq<char>)
    requires |m| == 3 && m[0] == ' ' && m[1] in SepSet(seps) + {'|'} && m[2] == ' '
    requires ' ' !in SepSet(seps)
    requires CleanItems([a, b], SepSet(seps) + {'|'})
    ensures ListField(VStr(a + m + b), seps) == [a, b]
  {
    var sset := SepSet(seps) + {'|'};
    CleanPair(a, b, sset);
    var t := a + m + b;
    assert IsStripped(t) by { PairStripped(a, m, b); }
    assert StripNonEmpty(SplitChars("" + t, sset)) == [a, b] by {
      assert "" + t == a + " " + [m[1]] + " " + b;
      SpacedPairPieces(a, m[1], b, sset);
    }
    ListFieldOfStripped(t, [a, b], seps);
  }

  lemma CleanPair(a: string, b: string, sset: set<char>)
    requires CleanItems([a, b], sset)
    ensures IsStripped(a) && Free(a, sset) && a != ""
    ensures IsStripped(b) && Free(b, sset) && b != ""
  {
    assert [a, b][0] == a && [a, b][1] == b;
  }

  lemma PairPieces(a: string, c: char, b: string, sset: set<char>)
    requires c in sset && ' ' !in sset
    requires IsStripped(a) && Free(a, sset) && a != ""
    requires IsStripped(b) && Free(b, sset) && b != ""
    ensures StripNonEmpty(SplitChars(a + [c] + " " + b, sset)) == [a, b]
  {
    var tail := [' '] + b;
    assert a + [c] + " " + b == a + [c] + tail;
    assert SplitChars(a + [c] + tail, sset) == [a, tail] by {
      BlankItem(b, sset);
      SplitAt(a, c, tail, sset);
      SplitFree(tail, sset);
    }
    assert StripNonEmpty([a, tail]) == [a, b] by {
      BlankItem(b, sset);
      StripOfStripped(a);
      TwoItems(a, tail);
    }
  }

  lemma SpacedPairPieces(a: string, c: char, b: string, sset: set<char>)
    requires c in sset && ' ' !in sset
    requires IsStripped(a) && Free(a, sset) && a != ""
    requires IsStripped(b) && Free(b, sset) && b != ""
    ensures StripNonEmpty(SplitChars(a + " " + [c] + " " + b, sset)) == [a, b]
  {
    var head := a + " ";
    var tail := [' '] + b;
    assert a + " " + [c] + " " + b == head + [c] + tail;
    assert SplitChars(head + [c] + tail, sset) == [head, tail] by {
      TrailingBlankItem(a, sset);
      BlankItem(b, sset);
      SplitAt(head, c, tail, sset);
      SplitFree(tail, sset);
    }
    assert StripNonEmpty([head, tail]) == [a, b] by {
      TrailingBlankItem(a, sset);
      BlankItem(b, sset);
      TwoItems(head, tail);
    }
  }

  /** Two pieces keep their non-blank strips. */
  lemma TwoItems(x: string, y: string)
    requires Strip(x) != "" && Strip(y) != ""
    ensures StripNonEmpty([x, y]) == [Strip(x), Strip(y)]
  {
    var p := [x, y];
    assert p[0] == x && p[1..] == [y];
    assert [y][0] == y && [y][1..] == [];
    assert StripNonEmpty([y]) == [Strip(y)] + StripNonEmpty([]);
  }

  /** Non-empty stripped ends make a stripped text, whatever lies between. */
  lemma PairStripped(a: string, m: string, b: string)
    requires IsStripped(a) && a != "" && IsStripped(b) && b != ""
    ensures IsStripped(a + m + b)
  {
    var t := a + m + b;
    assert t[0] == a[0];
    assert t[|t| - 1] == b[|b| - 1];
  }
}
