/**
 * Python `str` primitives the application relies on, over strings of Unicode
 * code points: whitespace (`str.isspace`), `strip`, `lower`/`upper`, substring
 * search, `split`, `join`, the regex word-character class and accent folding.
 */
module PyStr {

  datatype Option<T> = None | Some(value: T)

  // ---------------------------------------------------------------------
  // Character classes
  // ---------------------------------------------------------------------

  /** `str.isspace` of one character (also what `strip`, `split()` and `\s` use). */
  predicate IsSpace(c: char)
  {
    var n := c as int;
    n == 32 || (9 <= n <= 13) || (0x1c <= n <= 0x1f) || n == 0x85 || n == 0xa0
    || n == 0x1680 || (0x2000 <= n <= 0x200a) || n == 0x2028 || n == 0x2029
    || n == 0x202f || n == 0x205f || n == 0x3000
  }

  predicate IsDigit(c: char) { '0' <= c <= '9' }

  predicate IsAsciiLower(c: char) { 'a' <= c <= 'z' }

  predicate IsAsciiUpper(c: char) { 'A' <= c <= 'Z' }

  predicate IsAsciiAlnum(c: char) { IsAsciiLower(c) || IsAsciiUpper(c) || IsDigit(c) }

  /** Regex `\w`: letters, digits and `_` (Latin-1 exactly, other scripts approximated). */
  predicate IsWordChar(c: char)
  {
    var n := c as int;
    IsAsciiAlnum(c) || c == '_'
    || n == 0xaa || n == 0xb2 || n == 0xb3 || n == 0xb5 || n == 0xb9 || n == 0xba
    || (0xbc <= n <= 0xbe) || (0xc0 <= n <= 0xff && n != 0xd7 && n != 0xf7)
    || (n >= 0x100 && !IsSpace(c) && !(0x2000 <= n <= 0x206f)
        && !(0x2190 <= n <= 0x2bff) && !(0x3000 <= n <= 0x303f))
  }

  /** A letter that has case (what `str.title` looks at). */
  predicate IsCased(c: char)
  {
    var n := c as int;
    IsAsciiLower(c) || IsAsciiUpper(c) || n == 0xb5
    || (0xc0 <= n <= 0xff && n != 0xd7 && n != 0xf7) || n == 0x178
  }

  // ---------------------------------------------------------------------
  // Case mapping (ASCII and Latin-1)
  // ---------------------------------------------------------------------

  function LowerChar(c: char): (r: char)
    ensures IsAsciiUpper(c) ==> IsAsciiLower(r)
    ensures !IsAsciiUpper(c) && c as int < 0xc0 ==> r == c
  {
    var n := c as int;
    if IsAsciiUpper(c) || (0xc0 <= n <= 0xde && n != 0xd7) then (n + 32) as char
    else if n == 0x178 then 0xff as char
    else c
  }

  function UpperChar(c: char): (r: char)
    ensures IsAsciiLower(c) ==> IsAsciiUpper(r)
    ensures !IsAsciiLower(c) && c as int < 0xe0 ==> r == c
  {
    var n := c as int;
    if IsAsciiLower(c) || (0xe0 <= n <= 0xfe && n != 0xf7) then (n - 32) as char
    else if n == 0xff then 0x178 as char
    else c
  }

  /** `str.lower` */
  function Lower(s: string): (r: string)
    ensures |r| == |s| && forall i :: 0 <= i < |s| ==> r[i] == LowerChar(s[i])
  {
    seq(|s|, i requires 0 <= i < |s| => LowerChar(s[i]))
  }

  /** `str.upper` */
  function Upper(s: string): (r: string)
    ensures |r| == |s| && forall i :: 0 <= i < |s| ==> r[i] == UpperChar(s[i])
  {
    seq(|s|, i requires 0 <= i < |s| => UpperChar(s[i]))
  }

  /** `str.title`: a cased letter is upper-cased after a non-cased character, lower-cased otherwise. */
  function Title(s: string): (r: string)
    ensures |r| == |s|
    ensures forall i :: 0 <= i < |s| ==>
      r[i] == (if i > 0 && IsCased(s[i - 1]) then LowerChar(s[i]) else UpperChar(s[i]))
  {
    seq(|s|, i requires 0 <= i < |s| =>
      if i > 0 && IsCased(s[i - 1]) then LowerChar(s[i]) else UpperChar(s[i]))
  }

  /** `str.capitalize`: first character upper-cased, the rest lower-cased. */
  function Capitalize(s: string): (r: string)
    ensures |r| == |s|
    ensures |s| > 0 ==> r[0] == UpperChar(s[0]) && r[1..] == Lower(s[1..])
  {
    if |s| == 0 then "" else [UpperChar(s[0])] + Lower(s[1..])
  }

  lemma LowerConcat(a: string, b: string)
    ensures Lower(a + b) == Lower(a) + Lower(b)
  {
  }

  /** Lower-casing twice is lower-casing once. */
  lemma LowerIdempotent(s: string)
    ensures Lower(Lower(s)) == Lower(s)
  {
  }

  /** Case mapping never creates or removes whitespace. */
  lemma LowerKeepsSpace(c: char)
    ensures IsSpace(LowerChar(c)) == IsSpace(c)
  {
  }

  /** Lower-casing a stripped string leaves it stripped. */
  lemma LowerStripped(s: string)
    requires IsStripped(s)
    ensures IsStripped(Lower(s))
  {
    if |s| > 0 {
      LowerKeepsSpace(s[0]);
      LowerKeepsSpace(s[|s| - 1]);
    }
  }

  /**
   * `str.casefold` on the characters this model maps: the same as `lower`
   * (the expansions such as `ß` to `ss` are not modelled).
   */
  function Casefold(s: string): (r: string)
    ensures |r| == |s|
  {
    Lower(s)
  }

  lemma LowerSlice(s: string, i: int, j: int)
    requires 0 <= i <= j <= |s|
    ensures Lower(s[i..j]) == Lower(s)[i..j]
  {
  }

  // ---------------------------------------------------------------------
  // Accent folding (compatibility decomposition minus combining marks)
  // ---------------------------------------------------------------------

  /** Base character left by NFKD once combining marks are dropped (Latin-1 table; the
      fractions ¼ ½ ¾, which NFKD expands to three characters, are kept as they are). */
  function FoldAccentChar(c: char): char
  {
    var n := c as int;
    if 0xc0 <= n <= 0xc5 then 'A' else if n == 0xc7 then 'C'
    else if 0xc8 <= n <= 0xcb then 'E' else if 0xcc <= n <= 0xcf then 'I'
    else if n == 0xd1 then 'N' else if 0xd2 <= n <= 0xd6 then 'O'
    else if 0xd9 <= n <= 0xdc then 'U' else if n == 0xdd then 'Y'
    else if 0xe0 <= n <= 0xe5 then 'a' else if n == 0xe7 then 'c'
    else if 0xe8 <= n <= 0xeb then 'e' else if 0xec <= n <= 0xef then 'i'
    else if n == 0xf1 then 'n' else if 0xf2 <= n <= 0xf6 then 'o'
    else if 0xf9 <= n <= 0xfc then 'u' else if n == 0xfd || n == 0xff then 'y'
    else if n == 0xaa then 'a' else if n == 0xba then 'o'
    else if n == 0xb9 then '1' else if n == 0xb2 then '2' else if n == 0xb3 then '3'
    else if n == 0xa0 || n == 0xa8 || n == 0xaf || n == 0xb4 || n == 0xb8 then ' '
    else if n == 0xb5 then 0x3bc as char
    else c
  }

  function FoldAccents(s: string): (r: string)
    ensures |r| == |s| && forall i :: 0 <= i < |s| ==> r[i] == FoldAccentChar(s[i])
  {
    seq(|s|, i requires 0 <= i < |s| => FoldAccentChar(s[i]))
  }

  /** Every character outside `keep` replaced by `by` (a one-character `re.sub` class). */
  function ReplaceOutside(s: string, keep: char -> bool, fill: char): (r: string)
    ensures |r| == |s|
    ensures forall i :: 0 <= i < |s| ==> r[i] == (if keep(s[i]) then s[i] else fill)
  {
    seq(|s|, i requires 0 <= i < |s| => if keep(s[i]) then s[i] else fill)
  }

  /** The characters of `s` satisfying `keep`, in order (a `re.sub(..., "")` deletion). */
  function KeepOnly(s: string, keep: char -> bool): (r: string)
    ensures |r| <= |s|
    decreases |s|
  {
    if |s| == 0 then ""
    else (if keep(s[0]) then [s[0]] else "") + KeepOnly(s[1..], keep)
  }

  /** Only kept characters remain. */
  lemma {:induction false} KeepOnlyKeeps(s: string, keep: char -> bool)
    ensures forall i :: 0 <= i < |KeepOnly(s, keep)| ==> keep(KeepOnly(s, keep)[i])
    decreases |s|
  {
    if |s| > 0 {
      KeepOnlyKeeps(s[1..], keep);
      var h := if keep(s[0]) then [s[0]] else "";
      var t := KeepOnly(s[1..], keep);
      assert KeepOnly(s, keep) == h + t;
      forall i | 0 <= i < |h + t| ensures keep((h + t)[i]) {
        if i >= |h| { assert (h + t)[i] == t[i - |h|]; }
      }
    }
  }

  /** Deleting characters distributes over concatenation. */
  lemma {:induction false} KeepOnlyConcat(a: string, b: string, keep: char -> bool)
    ensures KeepOnly(a + b, keep) == KeepOnly(a, keep) + KeepOnly(b, keep)
    decreases |a|
  {
    if |a| > 0 {
      assert (a + b)[1..] == a[1..] + b;
      KeepOnlyConcat(a[1..], b, keep);
    } else {
      assert a + b == b;
    }
  }

  /** A string made only of kept characters is left as it is. */
  lemma {:induction false} KeepOnlyAll(s: string, keep: char -> bool)
    requires forall i :: 0 <= i < |s| ==> keep(s[i])
    ensures KeepOnly(s, keep) == s
    decreases |s|
  {
    if |s| > 0 {
      KeepOnlyAll(s[1..], keep);
      assert [s[0]] + s[1..] == s;
    }
  }

  /** `str.replace` of one character by another. */
  function ReplaceChar(s: string, from: char, to: char): (r: string)
    ensures |r| == |s|
    ensures forall i :: 0 <= i < |s| ==> r[i] == (if s[i] == from then to else s[i])
  {
    seq(|s|, i requires 0 <= i < |s| => if s[i] == from then to else s[i])
  }

  // ---------------------------------------------------------------------
  // strip
  // ---------------------------------------------------------------------

  /** No whitespace at either end. */
  predicate IsStripped(s: string)
  {
    |s| == 0 || (!IsSpace(s[0]) && !IsSpace(s[|s| - 1]))
  }

  function LStrip(s: string): (r: string)
    ensures |r| <= |s| && r == s[|s| - |r|..]
    ensures |r| == 0 || !IsSpace(r[0])
    decreases |s|
  {
    if |s| > 0 && IsSpace(s[0]) then LStrip(s[1..]) else s
  }

  function RStrip(s: string): (r: string)
    ensures |r| <= |s| && r == s[..|r|]
    ensures |r| == 0 || !IsSpace(r[|r| - 1])
    decreases |s|
  {
    if |s| > 0 && IsSpace(s[|s| - 1]) then RStrip(s[..|s| - 1]) else s
  }

  /** `str.strip()`: the infix left once whitespace is removed from both ends. */
  function Strip(s: string): (r: string)
    ensures IsStripped(r)
    ensures Contains(s, r)
  {
    var t := LStrip(s);
    var r := RStrip(t);
    assert StartsAt(s, |s| - |t|, r);
    r
  }

  /** A leading blank does not survive `strip`. */
  lemma StripLeadingSpace(s: string)
    ensures Strip(" " + s) == Strip(s)
  {
    assert (" " + s)[1..] == s;
  }

  lemma StripOfStripped(s: string)
    requires IsStripped(s)
    ensures Strip(s) == s
  {
  }

  lemma StripIdempotent(s: string)
    ensures Strip(Strip(s)) == Strip(s)
  {
    StripOfStripped(Strip(s));
  }

  /** A string made only of non-whitespace characters is its own strip. */
  lemma StripNoSpace(s: string)
    requires forall i :: 0 <= i < |s| ==> !IsSpace(s[i])
    ensures Strip(s) == s
  {
    StripOfStripped(s);
  }

  /** A run of digits is its own strip. */
  lemma StripDigits(s: string)
    requires AllDigits(s)
    ensures Strip(s) == s
  {
    assert forall i :: 0 <= i < |s| ==> !IsSpace(s[i]);
    StripNoSpace(s);
  }

  /** `str.strip(chars)`: characters of `chars` removed from both ends. */
  function StripChars(s: string, chars: set<char>): (r: string)
    ensures |r| <= |s|
    ensures |r| == 0 || (r[0] !in chars && r[|r| - 1] !in chars)
    decreases |s|
  {
    if |s| > 0 && s[0] in chars then StripChars(s[1..], chars)
    else if |s| > 0 && s[|s| - 1] in chars then StripChars(s[..|s| - 1], chars)
    else s
  }

  // ---------------------------------------------------------------------
  // Substring search
  // ---------------------------------------------------------------------

  /** `sub` occurs in `s` at position `i`. */
  predicate StartsAt(s: string, i: int, sub: string)
  {
    0 <= i && i + |sub| <= |s| && s[i..i + |sub|] == sub
  }

  /** `s.startswith(p)` */
  predicate StartsWith(s: string, p: string)
  {
    |p| <= |s| && s[..|p|] == p
  }

  /** `sub in s` */
  predicate Contains(s: string, sub: string)
  {
    exists i :: 0 <= i <= |s| && StartsAt(s, i, sub)
  }

  function FindFrom(s: string, sub: string, i: nat): (r: Option<nat>)
    requires i <= |s|
    ensures r.Some? ==> i <= r.value <= |s| && StartsAt(s, r.value, sub)
    ensures r.Some? ==> forall j :: i <= j < r.value ==> !StartsAt(s, j, sub)
    ensures r.None? ==> forall j :: i <= j <= |s| ==> !StartsAt(s, j, sub)
    decreases |s| - i
  {
    if StartsAt(s, i, sub) then Some(i)
    else if i == |s| then None
    else FindFrom(s, sub, i + 1)
  }

  /** `s.find(sub)`: the first position of `sub`, or nothing when it does not occur. */
  function Find(s: string, sub: string): (r: Option<nat>)
    ensures r.Some? <==> Contains(s, sub)
    ensures r.Some? ==> StartsAt(s, r.value, sub) && forall j :: 0 <= j < r.value ==> !StartsAt(s, j, sub)
  {
    FindFrom(s, sub, 0)
  }

  /** The first occurrence of `sub` is at `k` when it occurs there and nowhere before. */
  lemma FindAt(s: string, sub: string, k: nat)
    requires StartsAt(s, k, sub)
    requires forall j :: 0 <= j < k ==> !StartsAt(s, j, sub)
    ensures Find(s, sub) == Some(k)
  {
    assert Contains(s, sub);
  }

  /** `s.split(sep, 1)[0]` for a non-empty `sep`: everything before its first occurrence. */
  function BeforeFirst(s: string, sep: string): (r: string)
    ensures Contains(s, sep) ==> StartsAt(s, |r|, sep) && r == s[..|r|]
    ensures !Contains(s, sep) ==> r == s
  {
    var k := Find(s, sep);
    if k.Some? then s[..k.value] else s
  }

  /** `s.split(sep, 1)[-1]`: everything after the first occurrence of `sep`, or `s`. */
  function AfterFirst(s: string, sep: string): (r: string)
    ensures Contains(s, sep) ==> exists k :: StartsAt(s, k, sep) && r == s[k + |sep|..]
    ensures !Contains(s, sep) ==> r == s
  {
    var k := Find(s, sep);
    if k.Some? then s[k.value + |sep|..] else s
  }

  // ---------------------------------------------------------------------
  // split / join
  // ---------------------------------------------------------------------

  /** Index of the first character of `s` that lies in `seps`, or `|s|`. */
  function FirstIn(s: string, seps: set<char>): (k: nat)
    ensures k <= |s| && (k < |s| ==> s[k] in seps)
    decreases |s|
  {
    if |s| == 0 || s[0] in seps then 0 else 1 + FirstIn(s[1..], seps)
  }

  /** No separator comes before `FirstIn`. */
  lemma {:induction false} FirstInIsFirst(s: string, seps: set<char>)
    ensures forall j :: 0 <= j < FirstIn(s, seps) ==> s[j] !in seps
    decreases |s|
  {
    if |s| > 0 && s[0] !in seps {
      FirstInIsFirst(s[1..], seps);
      forall j | 0 < j < FirstIn(s, seps) ensures s[j] !in seps {
        assert s[j] == s[1..][j - 1];
      }
    }
  }

  /** `re.split` on a class of single characters (`str.split(c)` when the class is `{c}`). */
  function SplitChars(s: string, seps: set<char>): (r: seq<string>)
    ensures |r| >= 1
    decreases |s|
  {
    var k := FirstIn(s, seps);
    if k == |s| then [s] else [s[..k]] + SplitChars(s[k + 1..], seps)
  }

  /** No piece holds a separator. */
  lemma {:induction false} SplitCharsPieces(s: string, seps: set<char>)
    ensures forall p :: p in SplitChars(s, seps) ==> forall c :: c in p ==> c !in seps
    decreases |s|
  {
    var k := FirstIn(s, seps);
    FirstInIsFirst(s, seps);
    var a := s[..k];
    forall c | c in a ensures c !in seps {
      var j :| 0 <= j < |a| && a[j] == c;
      assert s[j] == c;
    }
    if k < |s| {
      SplitCharsPieces(s[k + 1..], seps);
      assert SplitChars(s, seps) == [a] + SplitChars(s[k + 1..], seps);
    } else {
      assert a == s;
      assert SplitChars(s, seps) == [s];
    }
  }

  /** A string without separators is one piece. */
  lemma SplitCharsFree(a: string, seps: set<char>)
    requires FreeOf(a, seps)
    ensures SplitChars(a, seps) == [a]
  {
    FirstInFree(a, seps);
  }

  /** The first separator ends the first piece. */
  lemma SplitCharsAt(a: string, c: char, b: string, seps: set<char>)
    requires FreeOf(a, seps)
    requires c in seps
    ensures SplitChars(a + [c] + b, seps) == [a] + SplitChars(b, seps)
  {
    var s := a + [c] + b;
    FirstInStops(a, c, b, seps);
    assert s[..|a|] == a;
    assert s[|a| + 1..] == b;
  }

  lemma {:induction false} FirstInFree(a: string, seps: set<char>)
    requires forall j :: 0 <= j < |a| ==> a[j] !in seps
    ensures FirstIn(a, seps) == |a|
    decreases |a|
  {
    if |a| > 0 {
      FirstInFree(a[1..], seps);
    }
  }

  lemma {:induction false} FirstInStops(a: string, c: char, b: string, seps: set<char>)
    requires forall j :: 0 <= j < |a| ==> a[j] !in seps
    requires c in seps
    ensures FirstIn(a + [c] + b, seps) == |a|
    decreases |a|
  {
    var s := a + [c] + b;
    if |a| > 0 {
      assert s[0] == a[0];
      assert s[1..] == a[1..] + [c] + b;
      FirstInStops(a[1..], c, b, seps);
    } else {
      assert s[0] == c;
    }
  }

  /** `sep.join(parts)` */
  function Join(parts: seq<string>, sep: string): string
    decreases |parts|
  {
    if |parts| == 0 then ""
    else if |parts| == 1 then parts[0]
    else parts[0] + sep + Join(parts[1..], sep)
  }

  /** Splitting on one character and joining with it gives the string back. */
  lemma JoinCons(a: string, rest: seq<string>, sep: string)
    requires |rest| >= 1
    ensures Join([a] + rest, sep) == a + sep + Join(rest, sep)
  {
    assert ([a] + rest)[1..] == rest;
  }

  lemma {:induction false} JoinSplit(s: string, c: char)
    ensures Join(SplitChars(s, {c}), [c]) == s
    decreases |s|
  {
    var k := FirstIn(s, {c});
    if k < |s| {
      var tail := s[k + 1..];
      var rest := SplitChars(tail, {c});
      calc {
        Join(SplitChars(s, {c}), [c]);
        Join([s[..k]] + rest, [c]);
        { JoinCons(s[..k], rest, [c]); }
        s[..k] + [c] + Join(rest, [c]);
        { JoinSplit(tail, c); }
        s[..k] + [c] + tail;
        { CutAt(s, k); }
        s;
      }
    } else {
      assert SplitChars(s, {c}) == [s];
    }
  }

  /** A string is the part before position `k`, the character there and the part after. */
  lemma CutAt<T>(s: seq<T>, k: nat)
    requires k < |s|
    ensures s[..k] + [s[k]] + s[k + 1..] == s
  {
  }

  /** `[p.strip() for p in parts if p.strip()]` */
  function StripNonEmpty(parts: seq<string>): (r: seq<string>)
    ensures |r| <= |parts|
    decreases |parts|
  {
    if |parts| == 0 then []
    else
      var p := Strip(parts[0]);
      (if p != "" then [p] else []) + StripNonEmpty(parts[1..])
  }

  /** No character of `s` is a separator. */
  predicate FreeOf(s: string, seps: set<char>)
  {
    forall j :: 0 <= j < |s| ==> s[j] !in seps
  }

  /** Pieces free of the separators, joined with one of them, split back into themselves. */
  lemma {:induction false} SplitJoin(parts: seq<string>, c: char, seps: set<char>)
    requires |parts| >= 1 && c in seps
    requires forall k :: 0 <= k < |parts| ==> FreeOf(parts[k], seps)
    ensures SplitChars(Join(parts, [c]), seps) == parts
    decreases |parts|
  {
    var a := parts[0];
    assert FreeOf(a, seps);
    if |parts| == 1 {
      SplitCharsFree(a, seps);
    } else {
      var rest := parts[1..];
      forall k | 0 <= k < |rest| ensures FreeOf(rest[k], seps) {
        assert rest[k] == parts[k + 1];
      }
      SplitJoin(rest, c, seps);
      var j := Join(rest, [c]);
      assert Join(parts, [c]) == a + [c] + j;
      SplitCharsAt(a, c, j, seps);
      assert parts == [a] + rest;
    }
  }

  /** Every piece is non-empty and stripped. */
  ghost predicate AllClean(parts: seq<string>)
  {
    forall k :: 0 <= k < |parts| ==> parts[k] != "" && IsStripped(parts[k])
  }

  /** Pieces already non-empty and stripped pass through unchanged. */
  lemma {:induction false} StripNonEmptyClean(parts: seq<string>)
    requires AllClean(parts)
    ensures StripNonEmpty(parts) == parts
    decreases |parts|
  {
    if |parts| > 0 {
      var a := parts[0];
      var t := parts[1..];
      assert a != "" && IsStripped(a);
      assert AllClean(t) by {
        forall k | 0 <= k < |t| ensures t[k] != "" && IsStripped(t[k]) {
          assert t[k] == parts[k + 1];
        }
      }
      StripNonEmptyClean(t);
      ConsSplitStrs(parts);
      calc {
        StripNonEmpty(parts);
        StripNonEmpty([a] + t);
        { StripNonEmptyConsClean(a, t); }
        [a] + StripNonEmpty(t);
        [a] + t;
        parts;
      }
    }
  }

  /** A clean first piece is kept as it is. */
  lemma StripNonEmptyConsClean(a: string, t: seq<string>)
    requires a != "" && IsStripped(a)
    ensures StripNonEmpty([a] + t) == [a] + StripNonEmpty(t)
  {
    StripOfStripped(a);
    StripNonEmptyCons(a, t);
  }

  lemma ConsSplitStrs(parts: seq<string>)
    requires |parts| > 0
    ensures [parts[0]] + parts[1..] == parts
  {
  }

  /** Every piece kept is non-empty and stripped. */
  lemma {:induction false} StripNonEmptyItems(parts: seq<string>)
    ensures forall p :: p in StripNonEmpty(parts) ==> p != "" && IsStripped(p)
    decreases |parts|
  {
    if |parts| > 0 {
      StripNonEmptyItems(parts[1..]);
    }
  }

  /** Filtering distributes over concatenation. */
  lemma {:induction false} StripNonEmptyConcat(a: seq<string>, b: seq<string>)
    ensures StripNonEmpty(a + b) == StripNonEmpty(a) + StripNonEmpty(b)
    decreases |a|
  {
    if |a| == 0 {
      assert a + b == b;
    } else {
      var x := a[0];
      var t := a[1..];
      assert a == [x] + t;
      assert a + b == [x] + (t + b);
      var h := if Strip(x) != "" then [Strip(x)] else [];
      StripNonEmptyCons(x, t);
      StripNonEmptyCons(x, t + b);
      StripNonEmptyConcat(t, b);
      calc {
        StripNonEmpty(a + b);
        h + StripNonEmpty(t + b);
        h + (StripNonEmpty(t) + StripNonEmpty(b));
        { SeqAssoc(h, StripNonEmpty(t), StripNonEmpty(b)); }
        (h + StripNonEmpty(t)) + StripNonEmpty(b);
        StripNonEmpty(a) + StripNonEmpty(b);
      }
    }
  }

  lemma SeqAssoc<T>(a: seq<T>, b: seq<T>, c: seq<T>)
    ensures a + (b + c) == (a + b) + c
  {
  }

  /** The first piece contributes its stripped form when that is non-empty. */
  lemma StripNonEmptyCons(x: string, t: seq<string>)
    ensures StripNonEmpty([x] + t) == (if Strip(x) != "" then [Strip(x)] else []) + StripNonEmpty(t)
  {
    assert ([x] + t)[0] == x;
    assert ([x] + t)[1..] == t;
  }

  /** A single piece whose stripped form is non-empty is kept as that form. */
  lemma StripNonEmptyOne(x: string, a: string)
    requires Strip(x) == a && a != ""
    ensures StripNonEmpty([x]) == [a]
  {
    assert [x][1..] == [];
  }

  lemma TailConcat<T>(a: seq<T>, b: seq<T>)
    requires |a| > 0
    ensures (a + b)[0] == a[0] && (a + b)[1..] == a[1..] + b
  {
  }

  /** Stripping only removes characters. */
  lemma StripSubset(q: string)
    ensures forall c :: c in Strip(q) ==> c in q
  {
    ContainedChars(q, Strip(q));
  }

  /** Every character of an infix occurs in the whole. */
  lemma ContainedChars(s: string, sub: string)
    requires Contains(s, sub)
    ensures forall c :: c in sub ==> c in s
  {
    var i :| 0 <= i <= |s| && StartsAt(s, i, sub);
    forall c | c in sub ensures c in s {
      var j :| 0 <= j < |sub| && sub[j] == c;
      assert s[i + j] == c;
    }
  }

  /** Characters absent from every part stay absent from the kept pieces. */
  lemma {:induction false} StripNonEmptyAvoids(parts: seq<string>, seps: set<char>)
    requires forall p :: p in parts ==> forall c :: c in p ==> c !in seps
    ensures forall p :: p in StripNonEmpty(parts) ==> forall c :: c in p ==> c !in seps
    decreases |parts|
  {
    if |parts| > 0 {
      assert parts[0] in parts;
      StripSubset(parts[0]);
      assert forall p :: p in parts[1..] ==> p in parts;
      StripNonEmptyAvoids(parts[1..], seps);
    }
  }

  /** Length of the leading run of non-whitespace characters. */
  function RunLen(s: string): (n: nat)
    ensures n <= |s| && (n < |s| ==> IsSpace(s[n]))
    decreases |s|
  {
    if |s| == 0 || IsSpace(s[0]) then 0 else 1 + RunLen(s[1..])
  }

  lemma {:induction false} RunLenRun(s: string)
    ensures forall j :: 0 <= j < RunLen(s) ==> !IsSpace(s[j])
    decreases |s|
  {
    if |s| > 0 && !IsSpace(s[0]) {
      RunLenRun(s[1..]);
      forall j | 0 < j < RunLen(s) ensures !IsSpace(s[j]) {
        assert s[j] == s[1..][j - 1];
      }
    }
  }

  /** `str.split()`: the maximal runs of non-whitespace characters. */
  function Words(s: string): seq<string>
    decreases |s|
  {
    if |s| == 0 then []
    else if IsSpace(s[0]) then Words(s[1..])
    else
      var n := RunLen(s);
      [s[..n]] + Words(s[n..])
  }

  /** Every word is a non-empty run of non-whitespace characters. */
  lemma {:induction false} WordsShape(s: string)
    ensures forall w :: w in Words(s) ==> w != "" && forall j :: 0 <= j < |w| ==> !IsSpace(w[j])
    decreases |s|
  {
    if |s| > 0 {
      if IsSpace(s[0]) {
        WordsShape(s[1..]);
      } else {
        var n := RunLen(s);
        var w := s[..n];
        RunLenRun(s);
        WordsShape(s[n..]);
        assert forall j :: 0 <= j < |w| ==> w[j] == s[j];
        assert Words(s) == [w] + Words(s[n..]);
      }
    }
  }

  /** `re.sub(r"\s+", " ", s)`: every whitespace run becomes one blank. */
  function Collapse(s: string): (r: string)
    ensures |s| == 0 ==> r == ""
    ensures |s| > 0 && !IsSpace(s[0]) ==> |r| > 0 && r[0] == s[0]
    ensures |s| > 0 && IsSpace(s[0]) ==> |r| > 0 && r[0] == ' '
    decreases |s|
  {
    if |s| == 0 then ""
    else if IsSpace(s[0]) then [' '] + Collapse(LStrip(s[1..]))
    else [s[0]] + Collapse(s[1..])
  }

  /** What `Collapse` leaves: blanks only, never two in a row. */
  lemma {:induction false} CollapseSingleBlanks(s: string)
    ensures SingleBlanks(Collapse(s))
    decreases |s|
  {
    if |s| > 0 {
      var t := if IsSpace(s[0]) then LStrip(s[1..]) else s[1..];
      var h := if IsSpace(s[0]) then ' ' else s[0];
      var c := Collapse(t);
      CollapseSingleBlanks(t);
      assert Collapse(s) == [h] + c;
      assert |c| > 0 && IsSpace(s[0]) ==> c[0] != ' ';
      ConsSingleBlanks(h, c);
    }
  }

  /** One more character in front keeps single blanks unless it makes a pair of them. */
  lemma ConsSingleBlanks(h: char, c: string)
    requires SingleBlanks(c)
    requires IsSpace(h) ==> h == ' '
    requires h == ' ' && |c| > 0 ==> c[0] != ' '
    ensures SingleBlanks([h] + c)
  {
    var r := [h] + c;
    assert forall j :: 1 <= j < |r| ==> r[j] == c[j - 1];
  }

  /** Single blanks between words and none at the ends: the shape `" ".join(s.split())` has. */
  predicate IsSpaced(s: string)
  {
    IsStripped(s) && SingleBlanks(s)
  }

  /** Blanks only, never two in a row: kept by every infix. */
  predicate SingleBlanks(s: string)
  {
    (forall j :: 0 <= j < |s| && IsSpace(s[j]) ==> s[j] == ' ')
    && (forall j :: 0 <= j < |s| - 1 ==> !(s[j] == ' ' && s[j + 1] == ' '))
  }

  lemma SingleBlanksInfix(c: string, i: int, r: string)
    requires SingleBlanks(c) && StartsAt(c, i, r)
    ensures SingleBlanks(r)
  {
    assert forall j :: 0 <= j < |r| ==> r[j] == c[i + j];
  }

  lemma CollapseStripSpaced(s: string)
    ensures IsSpaced(Strip(Collapse(s)))
  {
    var c := Collapse(s);
    var r := Strip(c);
    CollapseSingleBlanks(s);
    var i :| 0 <= i <= |c| && StartsAt(c, i, r);
    SingleBlanksInfix(c, i, r);
  }

  lemma WordsOfRun(s: string)
    requires |s| > 0 && !IsSpace(s[0])
    ensures Words(s) == [s[..RunLen(s)]] + Words(s[RunLen(s)..])
  {
  }

  /** A non-empty text without whitespace is one word. */
  lemma {:induction false} WordsOfWord(s: string)
    requires s != "" && forall j :: 0 <= j < |s| ==> !IsSpace(s[j])
    ensures RunLen(s) == |s| && Words(s) == [s]
  {
    RunLenFull(s);
    assert s[..|s|] == s;
    assert Words(s[|s|..]) == [];
  }

  lemma {:induction false} RunLenFull(s: string)
    requires forall j :: 0 <= j < |s| ==> !IsSpace(s[j])
    ensures RunLen(s) == |s|
    decreases |s|
  {
    if |s| > 0 {
      RunLenFull(s[1..]);
    }
  }

  lemma WordsOfBlank(s: string)
    requires |s| > 0 && IsSpace(s[0])
    ensures Words(s) == Words(s[1..])
  {
  }

  lemma WordsNonEmpty(s: string)
    requires |s| > 0 && !IsSpace(s[0])
    ensures |Words(s)| > 0
  {
    WordsOfRun(s);
  }

  /** Joining the words of a spaced string with blanks gives the string back. */
  lemma {:induction false} JoinWordsSpaced(s: string)
    requires IsSpaced(s)
    ensures Join(Words(s), " ") == s
    decreases |s|
  {
    if |s| > 0 {
      var n := RunLen(s);
      if n == |s| {
        JoinWordsSingle(s);
      } else {
        JoinWordsSpacedStep(s, n);
        JoinWordsSpaced(s[n + 1..]);
        JoinWordsUnfold(s, n);
      }
    }
  }

  lemma JoinWordsSingle(s: string)
    requires |s| > 0 && !IsSpace(s[0]) && RunLen(s) == |s|
    ensures Join(Words(s), " ") == s
  {
    WordsOfRun(s);
    assert s[..|s|] == s;
    assert s[|s|..] == "";
  }

  lemma JoinWordsUnfold(s: string, n: nat)
    requires |s| > 0 && !IsSpace(s[0]) && n == RunLen(s) && n + 1 < |s| && !IsSpace(s[n + 1])
    requires s[n] == ' ' && Join(Words(s[n + 1..]), " ") == s[n + 1..]
    ensures Join(Words(s), " ") == s
  {
    var a := s[..n];
    var t := s[n + 1..];
    var w := Words(t);
    WordsSplitAtBlank(s, n);
    assert Words(s) == [a] + w;
    WordsNonEmpty(t);
    JoinCons(a, w, " ");
    assert Join(Words(s), " ") == a + " " + t;
    SplitAround(s, n);
  }

  lemma SplitAround(s: string, n: nat)
    requires n < |s| && s[n] == ' '
    ensures s[..n] + " " + s[n + 1..] == s
  {
    assert s[..n] + [s[n]] + s[n + 1..] == s;
  }

  lemma WordsSplitAtBlank(s: string, n: nat)
    requires |s| > 0 && !IsSpace(s[0]) && n == RunLen(s) && n < |s|
    ensures Words(s) == [s[..n]] + Words(s[n + 1..])
  {
    var u := s[n..];
    WordsOfRun(s);
    WordsOfBlank(u);
    assert u[1..] == s[n + 1..];
  }

  /** A word, a blank and a rest: the word, then the words of the rest. */
  lemma WordsCons(w: string, t: string)
    requires w != "" && forall j :: 0 <= j < |w| ==> !IsSpace(w[j])
    ensures Words(w + " " + t) == [w] + Words(t)
  {
    var s := w + " " + t;
    RunLenStops(w, t);
    WordsSplitAtBlank(s, |w|);
    assert s[..|w|] == w;
    assert s[|w| + 1..] == t;
  }

  lemma {:induction false} RunLenStops(w: string, t: string)
    requires forall j :: 0 <= j < |w| ==> !IsSpace(w[j])
    ensures RunLen(w + " " + t) == |w|
    decreases |w|
  {
    var s := w + " " + t;
    if |w| > 0 {
      assert s[0] == w[0];
      assert s[1..] == w[1..] + " " + t;
      RunLenStops(w[1..], t);
    } else {
      assert s[0] == ' ';
    }
  }

  /** After the first word of a spaced string come one blank and a spaced rest. */
  lemma JoinWordsSpacedStep(s: string, n: nat)
    requires IsSpaced(s) && n == RunLen(s) && n < |s|
    ensures s[n] == ' ' && n + 1 < |s|
    ensures IsSpaced(s[n + 1..]) && !IsSpace(s[n + 1])
  {
    BlankAfterWord(s, n);
    RestSpaced(s, n);
  }

  lemma BlankAfterWord(s: string, n: nat)
    requires IsSpaced(s) && n == RunLen(s) && n < |s|
    ensures s[n] == ' ' && n + 1 < |s| && !IsSpace(s[n + 1])
  {
    assert !(s[n] == ' ' && s[n + 1] == ' ');
  }

  lemma RestSpaced(s: string, n: nat)
    requires IsSpaced(s) && n + 1 < |s| && !IsSpace(s[n + 1])
    ensures IsSpaced(s[n + 1..])
  {
    var t := s[n + 1..];
    assert StartsAt(s, n + 1, t);
    SingleBlanksInfix(s, n + 1, t);
    assert t[0] == s[n + 1] && t[|t| - 1] == s[|s| - 1];
  }

  // ---------------------------------------------------------------------
  // Decimal digits
  // ---------------------------------------------------------------------

  predicate AllDigits(s: string)
  {
    forall i :: 0 <= i < |s| ==> IsDigit(s[i])
  }

  /** The value of a decimal digit (0 for any other character; callers pass digits). */
  function DigitValue(c: char): nat
  {
    if IsDigit(c) then (c as int) - ('0' as int) else 0
  }

  function DigitChar(d: nat): (c: char)
    requires d < 10
    ensures IsDigit(c) && DigitValue(c) == d
  {
    (('0' as int) + d) as char
  }

  /** The number written by a string of decimal digits (`int(s)` without sign or blanks). */
  function DigitsValue(s: string): nat
    decreases |s|
  {
    if |s| == 0 then 0 else DigitsValue(s[..|s| - 1]) * 10 + DigitValue(s[|s| - 1])
  }

  /** `str(n)` of a non-negative integer. */
  function NatToStr(n: nat): (r: string)
    ensures |r| >= 1 && AllDigits(r)
    ensures |r| > 1 ==> r[0] != '0'
    decreases n
  {
    if n < 10 then [DigitChar(n)] else NatToStr(n / 10) + [DigitChar(n % 10)]
  }

  /** `str(i)` of any integer. */
  function IntToStr(i: int): (r: string)
    ensures |r| >= 1
  {
    if i < 0 then "-" + NatToStr(-i) else NatToStr(i)
  }

  lemma {:induction false} DigitsOfNatToStr(n: nat)
    ensures DigitsValue(NatToStr(n)) == n
    decreases n
  {
    if n >= 10 {
      DigitsOfNatToStr(n / 10);
      var s := NatToStr(n);
      assert s[..|s| - 1] == NatToStr(n / 10);
    }
  }

  /** `str` of an integer contains no `_` (used by the column renamers). */
  lemma NatToStrNoUnderscore(n: nat)
    ensures '_' !in NatToStr(n)
  {
  }

  /** `str(int)` is injective on naturals. */
  lemma NatToStrInjective(a: nat, b: nat)
    requires NatToStr(a) == NatToStr(b)
    ensures a == b
  {
    DigitsOfNatToStr(a);
    DigitsOfNatToStr(b);
  }

  /** `str.zfill`-style left padding with zeros to `width` characters. */
  function PadZeros(n: nat, width: nat): (r: string)
    ensures |r| >= width && AllDigits(r)
  {
    var s := NatToStr(n);
    if |s| >= width then s else seq(width - |s|, _ => '0') + s
  }

  // ---------------------------------------------------------------------
  // ordering
  // ---------------------------------------------------------------------

  /** Python's `a <= b` on strings: lexicographic by code point. */
  predicate StrLe(a: string, b: string)
    decreases |a|
  {
    |a| == 0 || (|b| > 0 && (a[0] < b[0] || (a[0] == b[0] && StrLe(a[1..], b[1..]))))
  }

  lemma {:induction false} StrLeTotal(a: string, b: string)
    ensures StrLe(a, b) || StrLe(b, a)
    decreases |a|
  {
    if |a| > 0 && |b| > 0 && a[0] == b[0] {
      StrLeTotal(a[1..], b[1..]);
    }
  }

  lemma {:induction false} StrLeTrans(a: string, b: string, c: string)
    requires StrLe(a, b) && StrLe(b, c)
    ensures StrLe(a, c)
    decreases |a|
  {
    if |a| > 0 && a[0] == b[0] && b[0] == c[0] {
      StrLeTrans(a[1..], b[1..], c[1..]);
    }
  }

  lemma {:induction false} StrLeAntisym(a: string, b: string)
    requires StrLe(a, b) && StrLe(b, a)
    ensures a == b
    decreases |a|
  {
    if |a| > 0 {
      StrLeAntisym(a[1..], b[1..]);
      ConsSplitStr(a);
      ConsSplitStr(b);
    }
  }

  lemma ConsSplitStr(s: string)
    requires |s| > 0
    ensures s == [s[0]] + s[1..]
  {
  }

  // ---------------------------------------------------------------------
  // More facts about strip and strip(chars)
  // ---------------------------------------------------------------------

  /** `lstrip` removes whitespace only, so it stops at or before a non-blank character. */
  lemma {:induction false} LStripStopsAt(s: string, p: nat)
    requires p < |s| && !IsSpace(s[p])
    ensures |s| - |LStrip(s)| <= p
    decreases |s|
  {
    if IsSpace(s[0]) {
      LStripStopsAt(s[1..], p - 1);
    }
  }

  /** `rstrip` keeps every character up to the last non-blank one. */
  lemma {:induction false} RStripStopsAt(s: string, p: nat)
    requires p < |s| && !IsSpace(s[p])
    ensures p < |RStrip(s)|
    decreases |s|
  {
    if IsSpace(s[|s| - 1]) {
      RStripStopsAt(s[..|s| - 1], p);
    }
  }

  /** A string holding a non-blank character does not strip to the empty string. */
  lemma StripKeepsNonBlank(s: string, p: nat)
    requires p < |s| && !IsSpace(s[p])
    ensures Strip(s) != ""
  {
    var t := LStrip(s);
    LStripStopsAt(s, p);
    var q := p - (|s| - |t|);
    assert t[q] == s[p];
    RStripStopsAt(t, q);
  }

  /** `strip(chars)` keeps every character outside `chars`. */
  lemma {:induction false} StripCharsKeeps(s: string, chars: set<char>, p: nat)
    requires p < |s| && s[p] !in chars
    ensures exists q :: 0 <= q < |StripChars(s, chars)| && StripChars(s, chars)[q] == s[p]
    decreases |s|
  {
    if s[0] in chars {
      assert p > 0 && s[1..][p - 1] == s[p];
      assert StripChars(s, chars) == StripChars(s[1..], chars);
      StripCharsKeeps(s[1..], chars, p - 1);
    } else if s[|s| - 1] in chars {
      assert p < |s| - 1 && s[..|s| - 1][p] == s[p];
      assert StripChars(s, chars) == StripChars(s[..|s| - 1], chars);
      StripCharsKeeps(s[..|s| - 1], chars, p);
    } else {
      assert StripChars(s, chars)[p] == s[p];
    }
  }

  /** A string made only of `chars` strips to the empty string. */
  lemma {:induction false} StripCharsAll(s: string, chars: set<char>)
    requires forall j :: 0 <= j < |s| ==> s[j] in chars
    ensures StripChars(s, chars) == ""
    decreases |s|
  {
    if |s| > 0 {
      StripCharsAll(s[1..], chars);
    }
  }

  /** A first character outside `chars` stays first. */
  lemma {:induction false} StripCharsHead(s: string, chars: set<char>)
    requires |s| > 0 && s[0] !in chars
    ensures |StripChars(s, chars)| > 0 && StripChars(s, chars)[0] == s[0]
    decreases |s|
  {
    if s[|s| - 1] in chars {
      StripCharsHead(s[..|s| - 1], chars);
    }
  }

  /** Only a tail made of `chars` is removed from a string whose ends lie outside `chars`. */
  lemma {:induction false} StripCharsTail(s: string, tail: string, chars: set<char>)
    requires |s| > 0 && s[0] !in chars && s[|s| - 1] !in chars
    requires forall j :: 0 <= j < |tail| ==> tail[j] in chars
    ensures StripChars(s + tail, chars) == s
    decreases |tail|
  {
    if |tail| > 0 {
      var u := s + tail;
      assert u[..|u| - 1] == s + tail[..|tail| - 1];
      StripCharsTail(s, tail[..|tail| - 1], chars);
    } else {
      assert s + tail == s;
    }
  }
}
