/**
 * The policy search index: each policy's scanned fields joined into one
 * normalised `search_text`, synonyms injected after whole-word occurrences
 * of their key, and a query answered by counting whole-word occurrences of
 * its tokens, keeping the rows that score, best first.
 */
module SearchIndex {
  import opened PyStr
  import opened PyValue
  import opened Seqs
  import opened Frames
  import opened TextUtils

  // ---------------------------------------------------------------------
  // _norm / _tokenize
  // ---------------------------------------------------------------------

  /**
   * `_norm(s)`: lower-case, fold accents, and turn every character outside
   * `[a-z0-9\s]` into a blank. Unlike `normalize`, whitespace is neither
   * collapsed nor stripped, so the length is kept.
   */
  function Norm(s: Option<string>): (r: string)
    ensures s.None? ==> r == ""
    ensures s.Some? ==> |r| == |s.value|
    ensures forall i :: 0 <= i < |r| ==> Kept(r[i])
  {
    if s.None? then "" else ReplaceOutside(FoldAccents(Lower(s.value)), Kept, ' ')
  }

  /**
   * Position by position: an ASCII letter or digit is lower-cased, whitespace
   * stays whitespace, and any other ASCII character becomes a blank.
   */
  lemma NormChars(s: string)
    ensures var r := Norm(Some(s));
      forall i :: 0 <= i < |s| ==>
        (IsAsciiAlnum(s[i]) ==> r[i] == LowerChar(s[i]))
        && (IsSpace(s[i]) ==> IsSpace(r[i]))
        && (s[i] as int < 0x80 && !IsAsciiAlnum(s[i]) && !IsSpace(s[i]) ==> r[i] == ' ')
  {
    forall i | 0 <= i < |s| && IsSpace(s[i]) ensures IsSpace(Norm(Some(s))[i]) {
      LowerKeepsSpace(s[i]);
    }
  }

  /** A character `_norm` may leave behind is left alone by it. */
  lemma NormCharFixed(c: char)
    requires Kept(c) && c as int != 0xa0
    ensures FoldAccentChar(LowerChar(c)) == c
  {
  }

  /** `_norm` is idempotent. */
  lemma NormIdempotent(s: Option<string>)
    ensures Norm(Some(Norm(s))) == Norm(s)
  {
    var r := Norm(s);
    forall i | 0 <= i < |r| ensures Norm(Some(r))[i] == r[i] {
      NormCharFixed(r[i]);
    }
  }

  /** `_norm` works character by character, so it distributes over concatenation. */
  lemma NormConcat(a: string, b: string)
    ensures Norm(Some(a + b)) == Norm(Some(a)) + Norm(Some(b))
  {
    var l, r := Norm(Some(a + b)), Norm(Some(a)) + Norm(Some(b));
    forall i | 0 <= i < |l| ensures l[i] == r[i] {
      if i < |a| {
        assert (a + b)[i] == a[i];
      } else {
        assert (a + b)[i] == b[i - |a|];
      }
    }
  }

  /** `_tokenize(q)`: the non-empty whitespace-separated pieces of `_norm(q)`. */
  function Tokens(q: Option<string>): seq<string>
  {
    Filter(Words(Norm(q)), NonEmptyText)
  }

  /** A query token: a non-empty run of lower-case ASCII letters and digits. */
  predicate IsToken(t: string)
  {
    |t| > 0 && forall j :: 0 <= j < |t| ==> IsAsciiLower(t[j]) || IsDigit(t[j])
  }

  /**
   * The tokens are exactly the words of the normalised query (the emptiness
   * filter drops nothing), and each is a run of letters and digits.
   */
  lemma TokensAreWords(q: Option<string>)
    ensures Tokens(q) == Words(Norm(q))
    ensures forall t :: t in Tokens(q) ==> IsToken(t)
  {
    var n := Norm(q);
    WordsShape(n);
    FilterAll(Words(n), NonEmptyText);
    forall t | t in Words(n) ensures IsToken(t) {
      WordsInText(n, t);
      var i :| 0 <= i <= |n| && StartsAt(n, i, t);
      forall j | 0 <= j < |t| ensures IsAsciiLower(t[j]) || IsDigit(t[j]) {
        assert t[j] == n[i + j];
      }
    }
  }

  /** A query whose normalised text is blank has no tokens. */
  lemma TokensBlank(q: Option<string>)
    requires forall i :: 0 <= i < |Norm(q)| ==> IsSpace(Norm(q)[i])
    ensures Tokens(q) == []
  {
    BlankWords(Norm(q));
  }

  lemma {:induction false} BlankWords(s: string)
    requires forall i :: 0 <= i < |s| ==> IsSpace(s[i])
    ensures Words(s) == []
    decreases |s|
  {
    if |s| > 0 {
      BlankWords(s[1..]);
    }
  }

  // ---------------------------------------------------------------------
  // Whole-word matching: the regular expression \b<k>\b
  // ---------------------------------------------------------------------

  /** Regex `\w` at position `j`; positions outside the text are not word characters. */
  predicate WordAt(t: string, j: int)
  {
    0 <= j < |t| && IsWordChar(t[j])
  }

  /** Regex `\b` at position `p`: a word character on exactly one side. */
  predicate Boundary(t: string, p: int)
  {
    WordAt(t, p - 1) != WordAt(t, p)
  }

  /** `\bk\b` matches at position `p` (`k` taken literally). */
  predicate WholeAt(t: string, p: int, k: string)
  {
    StartsAt(t, p, k) && Boundary(t, p) && Boundary(t, p + |k|)
  }

  /**
   * `re.sub(r"\bk\b", repl, t)` from position `p` on: matches are taken left
   * to right without overlapping; after an empty match the next character is
   * copied before searching again.
   */
  function SubFrom(t: string, k: string, repl: string, p: nat): string
    requires p <= |t|
    decreases |t| - p
  {
    if WholeAt(t, p, k) && |k| > 0 then repl + SubFrom(t, k, repl, p + |k|)
    else if WholeAt(t, p, k) then repl + (if p < |t| then [t[p]] + SubFrom(t, k, repl, p + 1) else "")
    else if p == |t| then ""
    else [t[p]] + SubFrom(t, k, repl, p + 1)
  }

  /** `re.sub(fr"\b{k}\b", repl, t)` */
  function ReplaceWord(t: string, k: string, repl: string): string
  {
    SubFrom(t, k, repl, 0)
  }

  /** With no whole-word occurrence left, the rest of the text is copied unchanged. */
  lemma {:induction false} SubFromUnchanged(t: string, k: string, repl: string, p: nat)
    requires p <= |t|
    requires forall q :: p <= q <= |t| ==> !WholeAt(t, q, k)
    ensures SubFrom(t, k, repl, p) == t[p..]
    decreases |t| - p
  {
    if p < |t| {
      SubFromUnchanged(t, k, repl, p + 1);
      assert t[p..] == [t[p]] + t[p + 1..];
    }
  }

  /** Up to the next whole-word occurrence the text is copied unchanged. */
  lemma {:induction false} SubFromCopies(t: string, k: string, repl: string, p: nat, q: nat)
    requires p <= q <= |t|
    requires forall j :: p <= j < q ==> !WholeAt(t, j, k)
    ensures SubFrom(t, k, repl, p) == t[p..q] + SubFrom(t, k, repl, q)
    decreases q - p
  {
    if p < q {
      var rest := SubFrom(t, k, repl, q);
      var tail := SubFrom(t, k, repl, p + 1);
      assert tail == t[p + 1..q] + rest by {
        SubFromCopies(t, k, repl, p + 1, q);
      }
      assert SubFrom(t, k, repl, p) == [t[p]] + tail by {
        SubFromStep(t, k, repl, p);
      }
      CopiedPrefix(t, p, q, tail, rest);
    } else {
      assert t[p..q] == [];
    }
  }

  lemma CopiedPrefix(t: string, p: nat, q: nat, tail: string, rest: string)
    requires p < q <= |t| && tail == t[p + 1..q] + rest
    ensures [t[p]] + tail == t[p..q] + rest
  {
    assert t[p..q] == [t[p]] + t[p + 1..q];
  }

  /** Without a match at `p`, its character is copied. */
  lemma SubFromStep(t: string, k: string, repl: string, p: nat)
    requires p < |t| && !WholeAt(t, p, k)
    ensures SubFrom(t, k, repl, p) == [t[p]] + SubFrom(t, k, repl, p + 1)
  {
  }

  /**
   * The first whole-word occurrence at or after `p` is replaced: the text
   * before it is copied and the replacement follows.
   */
  lemma SubFromFirst(t: string, k: string, repl: string, p: nat, q: nat)
    requires p <= q <= |t| && WholeAt(t, q, k)
    requires forall j :: p <= j < q ==> !WholeAt(t, j, k)
    ensures var r := SubFrom(t, k, repl, p);
      |r| >= q - p + |repl| && r[..q - p] == t[p..q] && r[q - p..q - p + |repl|] == repl
  {
    SubFromCopies(t, k, repl, p, q);
    var rest := SubFrom(t, k, repl, q);
    SubFromMatch(t, k, repl, q);
    PrefixThenRepl(t[p..q], rest, repl);
  }

  /** At a whole-word match the replacement comes first. */
  lemma SubFromMatch(t: string, k: string, repl: string, q: nat)
    requires q <= |t| && WholeAt(t, q, k)
    ensures var rest := SubFrom(t, k, repl, q);
      |rest| >= |repl| && rest[..|repl|] == repl
  {
  }

  lemma PrefixThenRepl(u: string, rest: string, repl: string)
    requires |rest| >= |repl| && rest[..|repl|] == repl
    ensures var r := u + rest;
      |r| >= |u| + |repl| && r[..|u|] == u && r[|u|..|u| + |repl|] == repl
  {
    var r := u + rest;
    assert r[|u|..|u| + |repl|] == rest[..|repl|];
  }

  /** All characters of `s` satisfy `P`. */
  predicate AllChars(s: string, P: char -> bool)
  {
    forall i :: 0 <= i < |s| ==> P(s[i])
  }

  /** Replacing with a text made of `P` characters keeps a `P` text all `P`. */
  lemma {:induction false} SubFromChars(t: string, k: string, repl: string, p: nat, P: char -> bool)
    requires p <= |t| && AllChars(t, P) && AllChars(repl, P)
    ensures AllChars(SubFrom(t, k, repl, p), P)
    decreases |t| - p
  {
    if WholeAt(t, p, k) && |k| > 0 {
      SubFromChars(t, k, repl, p + |k|, P);
    } else if p < |t| {
      SubFromChars(t, k, repl, p + 1, P);
    }
  }

  // ---------------------------------------------------------------------
  // _score_row
  // ---------------------------------------------------------------------

  /** `len(re.findall(fr"\b{re.escape(k)}\b", t[p:]))`, scanning as `SubFrom` does. */
  function CountFrom(t: string, k: string, p: nat): nat
    requires p <= |t|
    decreases |t| - p
  {
    if WholeAt(t, p, k) && |k| > 0 then 1 + CountFrom(t, k, p + |k|)
    else if WholeAt(t, p, k) then 1 + (if p < |t| then CountFrom(t, k, p + 1) else 0)
    else if p == |t| then 0
    else CountFrom(t, k, p + 1)
  }

  /** The number of whole-word occurrences of `k` in `t`. */
  function Occurrences(t: string, k: string): nat
  {
    CountFrom(t, k, 0)
  }

  /** Nothing is counted exactly when nothing matches. */
  lemma {:induction false} CountFromZero(t: string, k: string, p: nat)
    requires p <= |t|
    ensures CountFrom(t, k, p) == 0 <==> forall q :: p <= q <= |t| ==> !WholeAt(t, q, k)
    decreases |t| - p
  {
    if !WholeAt(t, p, k) && p < |t| {
      CountFromZero(t, k, p + 1);
    }
  }

  /** Without a match at `p`, counting goes on at the next position. */
  lemma CountFromStep(t: string, k: string, p: nat)
    requires p < |t| && !WholeAt(t, p, k)
    ensures CountFrom(t, k, p) == CountFrom(t, k, p + 1)
  {
  }

  /** Positions without a match add nothing to the count. */
  lemma {:induction false} CountFromSkip(t: string, k: string, p: nat, q: nat)
    requires p <= q <= |t|
    requires forall j :: p <= j < q ==> !WholeAt(t, j, k)
    ensures CountFrom(t, k, p) == CountFrom(t, k, q)
    decreases q - p
  {
    if p < q {
      CountFromStep(t, k, p);
      CountFromSkip(t, k, p + 1, q);
    }
  }

  /** How many of `words` equal `k`. */
  function CountWords(words: seq<string>, k: string): nat
    decreases |words|
  {
    if |words| == 0 then 0 else (if words[0] == k then 1 else 0) + CountWords(words[1..], k)
  }

  /** Regex `\s` and `\w` never overlap. */
  lemma SpaceNotWord(c: char)
    requires IsSpace(c)
    ensures !IsWordChar(c)
  {
  }

  /** In a `_norm` text the word characters are exactly the non-blanks. */
  lemma KeptWordChar(c: char)
    requires Kept(c)
    ensures IsWordChar(c) <==> !IsSpace(c)
  {
  }

  /** A `_norm` text: only lower-case ASCII letters, digits and whitespace. */
  predicate NormText(t: string)
  {
    forall i :: 0 <= i < |t| ==> Kept(t[i])
  }

  /** Position `p` starts a word or lies outside one. */
  predicate WordStart(t: string, p: nat)
  {
    p == |t| || (p < |t| && IsSpace(t[p])) || !WordAt(t, p - 1)
  }

  /** Inside a run of word characters no token matches except the whole run. */
  lemma RunNoMatch(t: string, k: string, p: nat, n: nat, j: nat)
    requires NormText(t) && IsToken(k) && p <= j < p + n <= |t|
    requires forall i :: p <= i < p + n ==> !IsSpace(t[i])
    requires p + n == |t| || IsSpace(t[p + n])
    requires t[p..p + n] != k
    ensures !WholeAt(t, j, k)
  {
    KeptWordChar(t[j]);
    if j > p {
      KeptWordChar(t[j - 1]);
    } else if 0 < |k| < n {
      KeptWordChar(t[p + |k| - 1]);
      KeptWordChar(t[p + |k|]);
    }
  }

  /** A whole run equal to the token is one match. */
  lemma RunMatch(t: string, k: string, p: nat, n: nat)
    requires NormText(t) && IsToken(k) && p + n <= |t| && n > 0
    requires forall i :: p <= i < p + n ==> !IsSpace(t[i])
    requires p + n == |t| || IsSpace(t[p + n])
    requires !WordAt(t, p - 1) && t[p..p + n] == k
    ensures WholeAt(t, p, k)
  {
    KeptWordChar(t[p]);
    KeptWordChar(t[p + n - 1]);
    if p + n < |t| {
      SpaceNotWord(t[p + n]);
    }
  }

  /** The leading run of non-blanks from `p` on. */
  lemma RunAt(t: string, p: nat) returns (n: nat)
    requires p < |t| && !IsSpace(t[p])
    ensures 0 < n && p + n <= |t|
    ensures forall i :: p <= i < p + n ==> !IsSpace(t[i])
    ensures p + n == |t| || IsSpace(t[p + n])
    ensures Words(t[p..]) == [t[p..p + n]] + Words(t[p + n..])
  {
    var s := t[p..];
    n := RunLen(s);
    RunLenRun(s);
    forall i | p <= i < p + n ensures !IsSpace(t[i]) {
      assert t[i] == s[i - p];
    }
    assert p + n == |t| || IsSpace(t[p + n]) by {
      if n < |s| { assert s[n] == t[p + n]; }
    }
    assert s[..n] == t[p..p + n];
    assert s[n..] == t[p + n..];
  }

  /** One word more in front. */
  lemma CountWordsCons(w: string, rest: seq<string>, k: string)
    ensures CountWords([w] + rest, k) == (if w == k then 1 else 0) + CountWords(rest, k)
  {
    assert ([w] + rest)[1..] == rest;
  }

  /** A blank at a word start counts nothing. */
  lemma CountFromBlank(t: string, k: string, p: nat)
    requires NormText(t) && IsToken(k) && p < |t| && IsSpace(t[p])
    requires CountFrom(t, k, p + 1) == CountWords(Words(t[p + 1..]), k)
    ensures CountFrom(t, k, p) == CountWords(Words(t[p..]), k)
  {
    assert !WholeAt(t, p, k) by {
      assert |k| > 0 && !IsSpace(k[0]);
    }
    CountFromStep(t, k, p);
    assert t[p..][1..] == t[p + 1..];
  }

  /** A run at a word start counts one exactly when it is the token. */
  lemma CountFromRun(t: string, k: string, p: nat, n: nat)
    requires NormText(t) && IsToken(k) && 0 < n && p + n <= |t|
    requires forall i :: p <= i < p + n ==> !IsSpace(t[i])
    requires p + n == |t| || IsSpace(t[p + n])
    requires !WordAt(t, p - 1)
    ensures CountFrom(t, k, p) == (if t[p..p + n] == k then 1 else 0) + CountFrom(t, k, p + n)
  {
    if t[p..p + n] == k {
      RunMatch(t, k, p, n);
    } else {
      forall j | p <= j < p + n ensures !WholeAt(t, j, k) {
        RunNoMatch(t, k, p, n, j);
      }
      CountFromSkip(t, k, p, p + n);
    }
  }

  /** The run case of `CountFromWords`, given the count after the run. */
  lemma CountFromRunWords(t: string, k: string, p: nat, n: nat)
    requires NormText(t) && IsToken(k) && 0 < n && p + n <= |t|
    requires forall i :: p <= i < p + n ==> !IsSpace(t[i])
    requires p + n == |t| || IsSpace(t[p + n])
    requires !WordAt(t, p - 1)
    requires Words(t[p..]) == [t[p..p + n]] + Words(t[p + n..])
    requires CountFrom(t, k, p + n) == CountWords(Words(t[p + n..]), k)
    ensures CountFrom(t, k, p) == CountWords(Words(t[p..]), k)
  {
    CountFromRun(t, k, p, n);
    CountWordsCons(t[p..p + n], Words(t[p + n..]), k);
  }

  /** Nothing is left to count at the end of the text. */
  lemma CountFromEnd(t: string, k: string)
    requires IsToken(k)
    ensures CountFrom(t, k, |t|) == CountWords(Words(t[|t|..]), k) == 0
  {
    assert t[|t|..] == [];
  }

  /**
   * On a `_norm` text, counting the whole-word occurrences of a token from a
   * word start counts the equal words of the rest of the text.
   */
  lemma {:induction false} CountFromWords(t: string, k: string, p: nat)
    requires NormText(t) && IsToken(k) && p <= |t| && WordStart(t, p)
    ensures CountFrom(t, k, p) == CountWords(Words(t[p..]), k)
    decreases |t| - p
  {
    if p == |t| {
      CountFromEnd(t, k);
    } else if IsSpace(t[p]) {
      SpaceNotWord(t[p]);
      CountFromWords(t, k, p + 1);
      CountFromBlank(t, k, p);
    } else {
      var n := RunAt(t, p);
      CountFromWords(t, k, p + n);
      CountFromRunWords(t, k, p, n);
    }
  }

  /** On a `_norm` text a token's whole-word occurrences are its equal words. */
  lemma OccurrencesAreWords(t: string, k: string)
    requires NormText(t) && IsToken(k)
    ensures Occurrences(t, k) == CountWords(Words(t), k)
  {
    CountFromWords(t, k, 0);
    assert t[0..] == t;
  }

  /** `_score_row(text, tokens)`: the whole-word occurrences of every token, added up. */
  function Score(text: string, tokens: seq<string>): nat
    decreases |tokens|
  {
    if |tokens| == 0 then 0
    else Score(text, tokens[..|tokens| - 1]) + Occurrences(text, tokens[|tokens| - 1])
  }

  /** `_score_row`, accumulating token by token. */
  method ScoreRow(text: string, tokens: seq<string>) returns (score: int)
    ensures score == Score(text, tokens)
  {
    score := 0;
    for i := 0 to |tokens|
      invariant score == Score(text, tokens[..i])
    {
      assert tokens[..i + 1][..i] == tokens[..i];
      score := score + Occurrences(text, tokens[i]);
    }
    assert tokens[..|tokens|] == tokens;
  }

  /** A row scores exactly when one of the tokens occurs in it as a whole word. */
  lemma {:induction false} ScorePositive(text: string, tokens: seq<string>)
    ensures Score(text, tokens) > 0 <==>
      exists i, q :: 0 <= i < |tokens| && 0 <= q <= |text| && WholeAt(text, q, tokens[i])
    decreases |tokens|
  {
    if |tokens| > 0 {
      var init := tokens[..|tokens| - 1];
      var last := tokens[|tokens| - 1];
      ScorePositive(text, init);
      CountFromZero(text, last, 0);
      if Score(text, tokens) > 0 {
        if Score(text, init) > 0 {
          var i, q :| 0 <= i < |init| && 0 <= q <= |text| && WholeAt(text, q, init[i]);
          assert tokens[i] == init[i];
        } else {
          var q :| 0 <= q <= |text| && WholeAt(text, q, last);
          assert tokens[|tokens| - 1] == last;
        }
      } else {
        forall i, q | 0 <= i < |tokens| && 0 <= q <= |text| ensures !WholeAt(text, q, tokens[i]) {
          if i < |init| {
            assert tokens[i] == init[i];
          }
        }
      }
    }
  }

  /** The equal words of every token, added up. */
  function WordScore(words: seq<string>, tokens: seq<string>): nat
    decreases |tokens|
  {
    if |tokens| == 0 then 0
    else WordScore(words, tokens[..|tokens| - 1]) + CountWords(words, tokens[|tokens| - 1])
  }

  /**
   * On a `_norm` text the score is the number of (word, token) pairs that
   * are equal: whole-word matching is matching the text's words.
   */
  lemma {:induction false} ScoreCountsWords(text: string, tokens: seq<string>)
    requires NormText(text) && forall i :: 0 <= i < |tokens| ==> IsToken(tokens[i])
    ensures Score(text, tokens) == WordScore(Words(text), tokens)
    decreases |tokens|
  {
    if |tokens| > 0 {
      ScoreCountsWords(text, tokens[..|tokens| - 1]);
      OccurrencesAreWords(text, tokens[|tokens| - 1]);
    }
  }

  // ---------------------------------------------------------------------
  // build_index
  // ---------------------------------------------------------------------

  const FieldsToScan: seq<string> := [
    "Politicas publicas",
    "Descrição dos direitos",
    "Acesso",
    "Organização interna (Subprogramas e/ou Eixos)"
  ]

  const SearchTextKey := "search_text"

  /** `pd.notna` of a scalar cell. */
  predicate NotNa(v: Value)
  {
    !v.VNone? && !v.VNaN?
  }

  /** Field `c` is in the row and not missing. */
  function Present(r: Row<Value>): string -> bool
  {
    (c: string) => c in r && NotNa(r[c])
  }

  /** `str(row[c])` */
  function CellText(r: Row<Value>): string -> string
  {
    (c: string) => if c in r then Str(r[c]) else ""
  }

  /** The `parts` of `_row_text` after scanning `fields`: each present field's text, in order. */
  function Parts(r: Row<Value>, fields: seq<string>): seq<string>
    decreases |fields|
  {
    if |fields| == 0 then []
    else
      var c := fields[|fields| - 1];
      Parts(r, fields[..|fields| - 1]) + (if c in r && NotNa(r[c]) then [Str(r[c])] else [])
  }

  /** The parts are the present fields, in the fixed order, shown as text. */
  lemma {:induction false} PartsArePresentFields(r: Row<Value>, fields: seq<string>)
    ensures Parts(r, fields) == Map(Filter(fields, Present(r)), CellText(r))
    decreases |fields|
  {
    if |fields| > 0 {
      var init, c := fields[..|fields| - 1], fields[|fields| - 1];
      PartsArePresentFields(r, init);
      assert fields == init + [c];
      FilterSnoc(init, c, Present(r));
      FilterMember(init, Present(r), c);
      MapPresentSnoc(r, Filter(init, Present(r)), c);
    }
  }

  lemma MapPresentSnoc(r: Row<Value>, s: seq<string>, c: string)
    ensures Map(s + (if Present(r)(c) then [c] else []), CellText(r))
      == Map(s, CellText(r)) + (if Present(r)(c) then [Str(r[c])] else [])
  {
    if Present(r)(c) {
      MapSnoc(s, c, CellText(r));
    } else {
      assert s + [] == s;
    }
  }

  /** `_row_text(row)`: the parts joined by `" | "`, normalised. */
  function RowText(r: Row<Value>): string
  {
    Norm(Some(Join(Parts(r, FieldsToScan), " | ")))
  }

  /** `_row_text`, collecting the parts field by field. */
  method RowTextOf(r: Row<Value>) returns (text: string)
    ensures text == RowText(r)
  {
    var parts: seq<string> := [];
    for i := 0 to |FieldsToScan|
      invariant parts == Parts(r, FieldsToScan[..i])
    {
      var c := FieldsToScan[i];
      assert FieldsToScan[..i + 1][..i] == FieldsToScan[..i];
      if c in r && NotNa(r[c]) {
        parts := parts + [Str(r[c])];
      }
    }
    assert FieldsToScan[..|FieldsToScan|] == FieldsToScan;
    text := Norm(Some(Join(parts, " | ")));
  }

  /** `extra_synonyms.items()`; a key's list may be `None`. */
  type Synonyms = seq<(string, Option<seq<string>>)>

  function OrEmpty(syns: Option<seq<string>>): seq<string>
  {
    if syns.Some? then syns.value else []
  }

  /** One injection: `\bk\b` becomes `k sn` when `sn` is non-empty and differs from `k`. */
  function Inject(t: string, k: string, sn: string): string
  {
    if sn != "" && k != sn then ReplaceWord(t, k, k + " " + sn) else t
  }

  /** The inner loop: every synonym of one (normalised) key, in order. */
  function InjectKey(t: string, k: string, syns: seq<string>): string
    decreases |syns|
  {
    if |syns| == 0 then t
    else Inject(InjectKey(t, k, syns[..|syns| - 1]), k, Norm(Some(syns[|syns| - 1])))
  }

  /** The outer loop: every key in order. */
  function Injected(t: string, entries: Synonyms): string
    decreases |entries|
  {
    if |entries| == 0 then t
    else
      var (key, syns) := entries[|entries| - 1];
      InjectKey(Injected(t, entries[..|entries| - 1]), Norm(Some(key)), OrEmpty(syns))
  }

  /** A row's final `search_text`. */
  function IndexText(r: Row<Value>, synonyms: Option<Synonyms>): string
  {
    Injected(RowText(r), if synonyms.Some? then synonyms.value else [])
  }

  /** `view["search_text"] = ...`: the column is added at the end unless it exists. */
  function AddColumn(columns: seq<string>, c: string): seq<string>
  {
    if c in columns then columns else columns + [c]
  }

  /** What `build_index(df, extra_synonyms)` returns. */
  function Index(df: Option<Frame<Value>>, synonyms: Option<Synonyms>): Frame<Value>
  {
    if df.None? || Empty(df.value) then Frame([], [])
    else
      var rows := df.value.rows;
      Frame(AddColumn(df.value.columns, SearchTextKey),
            seq(|rows|, j requires 0 <= j < |rows| => rows[j][SearchTextKey := VStr(IndexText(rows[j], synonyms))]))
  }

  /**
   * `build_index(df, extra_synonyms)`: the row texts, then the synonym
   * loops rewriting the whole column once per injection. The input frame is
   * a value and is left as it was.
   */
  method BuildIndex(df: Option<Frame<Value>>, synonyms: Option<Synonyms>) returns (r: Frame<Value>)
    ensures r == Index(df, synonyms)
  {
    if df.None? || Empty(df.value) {
      return Frame([], []);
    }
    var rows := df.value.rows;
    var n := |rows|;
    var base := RowTexts(rows);
    var entries: Synonyms := if synonyms.Some? then synonyms.value else [];
    var texts := InjectAll(base, entries);
    assert forall j :: 0 <= j < n ==> texts[j] == IndexText(rows[j], synonyms);
    r := Frame(AddColumn(df.value.columns, SearchTextKey),
               seq(n, j requires 0 <= j < n => rows[j][SearchTextKey := VStr(texts[j])]));
  }

  /** The first loop of `build_index`: one row text per row. */
  method RowTexts(rows: seq<Row<Value>>) returns (texts: seq<string>)
    ensures |texts| == |rows| && forall i :: 0 <= i < |rows| ==> texts[i] == RowText(rows[i])
  {
    texts := [];
    for j := 0 to |rows|
      invariant |texts| == j
      invariant forall i :: 0 <= i < j ==> texts[i] == RowText(rows[i])
    {
      var text := RowTextOf(rows[j]);
      texts := texts + [text];
    }
  }

  /** The outer synonym loop: every key in order, each rewriting the whole column. */
  method InjectAll(base: seq<string>, entries: Synonyms) returns (texts: seq<string>)
    ensures |texts| == |base| && forall i :: 0 <= i < |base| ==> texts[i] == Injected(base[i], entries)
  {
    texts := base;
    for a := 0 to |entries|
      invariant |texts| == |base|
      invariant forall i :: 0 <= i < |base| ==> texts[i] == Injected(base[i], entries[..a])
    {
      var (key, syns) := entries[a];
      var k := Norm(Some(key));
      ghost var before := texts;
      texts := InjectColumn(texts, k, OrEmpty(syns));
      assert entries[..a + 1][..a] == entries[..a];
      assert forall i :: 0 <= i < |base| ==> texts[i] == InjectKey(before[i], k, OrEmpty(syns));
    }
    assert entries[..|entries|] == entries;
  }

  /** The inner synonym loop for one key: each synonym rewrites the whole column. */
  method InjectColumn(before: seq<string>, k: string, list: seq<string>) returns (texts: seq<string>)
    ensures |texts| == |before| && forall i :: 0 <= i < |before| ==> texts[i] == InjectKey(before[i], k, list)
  {
    var n := |before|;
    texts := before;
    for b := 0 to |list|
      invariant |texts| == n
      invariant forall i :: 0 <= i < n ==> texts[i] == InjectKey(before[i], k, list[..b])
    {
      var sn := Norm(Some(list[b]));
      if sn != "" && k != sn {
        texts := seq(n, i requires 0 <= i < n => ReplaceWord(texts[i], k, k + " " + sn));
      }
      assert list[..b + 1][..b] == list[..b];
    }
    assert list[..|list|] == list;
  }

  // ---------------------------------------------------------------------
  // What build_index promises
  // ---------------------------------------------------------------------

  lemma NormTextChars(t: string)
    ensures NormText(t) <==> AllChars(t, Kept)
  {
  }

  /** An injection keeps a `_norm` text a `_norm` text. */
  lemma InjectNorm(t: string, k: string, sn: string)
    requires NormText(t) && NormText(k) && NormText(sn)
    ensures NormText(Inject(t, k, sn))
  {
    if sn != "" && k != sn {
      var repl := k + " " + sn;
      assert forall i :: 0 <= i < |repl| ==> Kept(repl[i]) by {
        forall i | 0 <= i < |repl| ensures Kept(repl[i]) {
          if i < |k| { assert repl[i] == k[i]; }
          else if i > |k| { assert repl[i] == sn[i - |k| - 1]; }
        }
      }
      NormTextChars(t);
      NormTextChars(repl);
      SubFromChars(t, k, repl, 0, Kept);
      NormTextChars(Inject(t, k, sn));
    }
  }

  lemma {:induction false} InjectKeyNorm(t: string, k: string, syns: seq<string>)
    requires NormText(t) && NormText(k)
    ensures NormText(InjectKey(t, k, syns))
    decreases |syns|
  {
    if |syns| > 0 {
      InjectKeyNorm(t, k, syns[..|syns| - 1]);
      InjectNorm(InjectKey(t, k, syns[..|syns| - 1]), k, Norm(Some(syns[|syns| - 1])));
    }
  }

  /** Synonym injection keeps the search text a `_norm` text. */
  lemma {:induction false} InjectedNorm(t: string, entries: Synonyms)
    requires NormText(t)
    ensures NormText(Injected(t, entries))
    decreases |entries|
  {
    if |entries| > 0 {
      InjectedNorm(t, entries[..|entries| - 1]);
      InjectKeyNorm(Injected(t, entries[..|entries| - 1]), Norm(Some(entries[|entries| - 1].0)),
                    OrEmpty(entries[|entries| - 1].1));
    }
  }

  /**
   * `build_index` adds the `search_text` column and changes nothing else:
   * the other cells of every row are kept, and each row's search text is a
   * `_norm` text, exactly `_row_text` when there are no synonyms. A frame
   * whose rows have exactly its columns keeps that shape.
   */
  lemma IndexShape(df: Option<Frame<Value>>, synonyms: Option<Synonyms>)
    requires df.Some? && !Empty(df.value)
    ensures var f, r := df.value, Index(df, synonyms);
      SearchTextKey in r.columns && |r.columns| <= |f.columns| + 1
      && (forall c :: c in f.columns ==> c in r.columns)
      && |r.rows| == |f.rows|
      && forall j :: 0 <= j < |f.rows| ==>
           r.rows[j].Keys == f.rows[j].Keys + {SearchTextKey}
           && (forall c :: c in f.rows[j] && c != SearchTextKey ==> r.rows[j][c] == f.rows[j][c])
           && r.rows[j][SearchTextKey].VStr? && NormText(r.rows[j][SearchTextKey].s)
           && ((synonyms.None? || synonyms.value == []) ==> r.rows[j][SearchTextKey].s == RowText(f.rows[j]))
    ensures WellFormed(df.value) ==> WellFormed(Index(df, synonyms))
  {
    var f, r := df.value, Index(df, synonyms);
    forall j | 0 <= j < |f.rows| ensures NormText(IndexText(f.rows[j], synonyms)) {
      InjectedNorm(RowText(f.rows[j]), if synonyms.Some? then synonyms.value else []);
    }
    if WellFormed(f) {
      forall x, c | x in r.rows ensures c in x <==> c in r.columns {
        var j :| 0 <= j < |r.rows| && r.rows[j] == x;
        assert f.rows[j] in f.rows;
      }
    }
  }

  /** A missing or empty frame gives an empty frame with no columns. */
  lemma IndexOfNothing(df: Option<Frame<Value>>, synonyms: Option<Synonyms>)
    requires df.None? || Empty(df.value)
    ensures Index(df, synonyms).columns == [] && Index(df, synonyms).rows == []
  {
  }

  // ---------------------------------------------------------------------
  // Synonyms follow the key's first whole-word occurrence
  // ---------------------------------------------------------------------

  /** A key the injection can find again: non-empty and ending in a word character. */
  predicate IsKey(k: string)
  {
    |k| > 0 && IsWordChar(k[|k| - 1])
  }

  /** `k` occurs as a whole word at `q` and nowhere before. */
  predicate FirstWhole(t: string, k: string, q: nat)
  {
    q <= |t| && WholeAt(t, q, k) && forall j :: 0 <= j < q ==> !WholeAt(t, j, k)
  }

  /** A match ending before `m` only looks at the first `m` characters. */
  lemma WholeAtAgree(t: string, r: string, k: string, j: nat, m: nat)
    requires m <= |t| && m <= |r| && t[..m] == r[..m] && j + |k| < m
    ensures WholeAt(t, j, k) == WholeAt(r, j, k)
  {
    assert t[j..j + |k|] == t[..m][j..j + |k|];
    assert r[j..j + |k|] == r[..m][j..j + |k|];
    if j > 0 {
      assert t[j - 1] == t[..m][j - 1];
    }
    assert t[j] == t[..m][j];
    assert t[j + |k|] == t[..m][j + |k|];
    if |k| > 0 {
      assert t[j + |k| - 1] == t[..m][j + |k| - 1];
    }
  }

  /** The replacement keeps the key where it was, followed by a blank and the synonym. */
  lemma ReplacedAt(t: string, k: string, sn: string, q: nat)
    requires IsKey(k) && FirstWhole(t, k, q)
    requires sn != "" && k != sn
    ensures var r := Inject(t, k, sn);
      q + |k| < |r| && r[..q + |k|] == t[..q + |k|] && r[q + |k|] == ' '
      && StartsAt(r, q, k + " " + sn)
  {
    var repl := k + " " + sn;
    SubFromFirst(t, k, repl, 0, q);
    var r := Inject(t, k, sn);
    assert r[..q] == t[..q];
    assert r[q..q + |repl|] == repl;
    assert r[q..q + |k|] == k by {
      assert r[q..q + |k|] == r[q..q + |repl|][..|k|];
    }
    assert r[q + |k|] == r[q..q + |repl|][|k|];
    assert t[q..q + |k|] == k;
    assert r[..q + |k|] == r[..q] + r[q..q + |k|];
    assert t[..q + |k|] == t[..q] + t[q..q + |k|];
  }

  /**
   * After an injection the key's first whole-word occurrence is still at
   * `q`, with the text before it untouched; an effective injection puts
   * `" " + sn` right after it.
   */
  lemma InjectFirst(t: string, k: string, sn: string, q: nat)
    requires IsKey(k) && FirstWhole(t, k, q)
    ensures FirstWhole(Inject(t, k, sn), k, q)
    ensures sn != "" && k != sn ==> StartsAt(Inject(t, k, sn), q, k + " " + sn)
  {
    if sn != "" && k != sn {
      ReplacedAt(t, k, sn, q);
      var r := Inject(t, k, sn);
      var m := q + |k|;
      forall j | 0 <= j < q ensures !WholeAt(r, j, k) {
        WholeAtAgree(t, r, k, j, m);
      }
      assert WholeAt(r, q, k) by {
        assert r[q..q + |k|] == (k + " " + sn)[..|k|];
        if q > 0 {
          assert r[q - 1] == r[..m][q - 1] && t[q - 1] == t[..m][q - 1];
        }
        assert r[q] == r[..m][q] && t[q] == t[..m][q];
        assert r[m - 1] == r[..m][m - 1] && t[m - 1] == t[..m][m - 1];
        SpaceNotWord(' ');
      }
    }
  }

  /**
   * Through all synonyms of one key the key's first occurrence stays put,
   * and when the last synonym is effective it follows the key.
   */
  lemma {:induction false} InjectKeyFirst(t: string, k: string, syns: seq<string>, q: nat)
    requires IsKey(k) && FirstWhole(t, k, q)
    ensures FirstWhole(InjectKey(t, k, syns), k, q)
    ensures |syns| > 0 && Norm(Some(syns[|syns| - 1])) != "" && k != Norm(Some(syns[|syns| - 1])) ==>
      StartsAt(InjectKey(t, k, syns), q, k + " " + Norm(Some(syns[|syns| - 1])))
    decreases |syns|
  {
    if |syns| > 0 {
      InjectKeyFirst(t, k, syns[..|syns| - 1], q);
      InjectFirst(InjectKey(t, k, syns[..|syns| - 1]), k, Norm(Some(syns[|syns| - 1])), q);
    }
  }

  /** A key with no whole-word occurrence leaves the text alone. */
  lemma {:induction false} InjectKeyAbsent(t: string, k: string, syns: seq<string>)
    requires forall q :: 0 <= q <= |t| ==> !WholeAt(t, q, k)
    ensures InjectKey(t, k, syns) == t
    decreases |syns|
  {
    if |syns| > 0 {
      InjectKeyAbsent(t, k, syns[..|syns| - 1]);
      SubFromUnchanged(t, k, k + " " + Norm(Some(syns[|syns| - 1])), 0);
    }
  }

  // ---------------------------------------------------------------------
  // search_policies
  // ---------------------------------------------------------------------

  const LevelKey := "nivel"
  const ScoreKey := "score"

  /** `view["nivel"].isin(list(levels))` */
  function LevelIn(levels: seq<string>): Row<Value> -> bool
  {
    (r: Row<Value>) => LevelKey in r && r[LevelKey].VStr? && r[LevelKey].s in levels
  }

  /** The level filter, applied only when levels are given and the frame has the column. */
  function LevelView(f: Frame<Value>, levels: Option<seq<string>>): Frame<Value>
  {
    if levels.Some? && |levels.value| > 0 && LevelKey in f.columns then Where(f, LevelIn(levels.value)) else f
  }

  /** The row's `search_text` is a string (anything else makes `re.findall` raise). */
  predicate HasText(r: Row<Value>)
  {
    SearchTextKey in r && r[SearchTextKey].VStr?
  }

  function TextOf(r: Row<Value>): string
  {
    if HasText(r) then r[SearchTextKey].s else ""
  }

  /** A row with its score. */
  datatype Hit = Hit(score: nat, row: Row<Value>)

  /** `view["search_text"].apply(lambda txt: _score_row(txt, tokens))` */
  function Hits(rows: seq<Row<Value>>, tokens: seq<string>): (hs: seq<Hit>)
    ensures |hs| == |rows|
  {
    seq(|rows|, j requires 0 <= j < |rows| => Hit(Score(TextOf(rows[j]), tokens), rows[j]))
  }

  predicate Scores(h: Hit)
  {
    h.score > 0
  }

  /** Descending by score: `a` may come before `b`. */
  function ByScore(): (Hit, Hit) -> bool
  {
    (a: Hit, b: Hit) => a.score >= b.score
  }

  /** `view[view["score"] > 0].sort_values("score", ascending=False)` */
  function Ranked(rows: seq<Row<Value>>, tokens: seq<string>): seq<Hit>
  {
    SortBy(Filter(Hits(rows, tokens), Scores), ByScore())
  }

  /** `head(n)`: the first `n` items; a negative `n` drops the last `-n`. */
  function Head<T>(s: seq<T>, n: int): seq<T>
  {
    if n >= 0 then (if n <= |s| then s[..n] else s)
    else if |s| + n >= 0 then s[..|s| + n]
    else []
  }

  /** A returned row: the indexed row with its `score` cell. */
  function Scored(h: Hit): Row<Value>
  {
    h.row[ScoreKey := VInt(h.score)]
  }

  /** `search_policies` on a frame. */
  function SearchIn(f: Frame<Value>, query: Option<string>, levels: Option<seq<string>>, top: int): Outcome<Frame<Value>>
  {
    if Empty(f) || !Given(query) then Returns(Frame(f.columns, []))
    else if |Tokens(query)| == 0 then Returns(Frame(f.columns, []))
    else
      var view := LevelView(f, levels);
      if SearchTextKey !in view.columns then Raises("KeyError")
      else if !(forall r :: r in view.rows ==> HasText(r)) then Raises("TypeError")
      else
        var best := Head(Ranked(view.rows, Tokens(query)), top);
        Returns(Frame(AddColumn(view.columns, ScoreKey), seq(|best|, j requires 0 <= j < |best| => Scored(best[j]))))
  }

  /**
   * `search_policies(index_df, query, levels, top)` as written: a missing
   * index reaches `index_df.head(0)` and raises.
   */
  function SearchPoliciesAsWritten(index: Option<Frame<Value>>, query: Option<string>, levels: Option<seq<string>>,
                                   top: int): Outcome<Frame<Value>>
  {
    if index.None? then Raises("AttributeError") else SearchIn(index.value, query, levels, top)
  }

  /** `search_policies` as evidently intended: a missing index gives no results. */
  function SearchPolicies(index: Option<Frame<Value>>, query: Option<string>, levels: Option<seq<string>>,
                          top: int): Outcome<Frame<Value>>
  {
    if index.None? then Returns(Frame([], [])) else SearchIn(index.value, query, levels, top)
  }

  /** The guard for a missing index raises instead of answering; otherwise both versions agree. */
  lemma SearchPoliciesAsWrittenRaises(index: Option<Frame<Value>>, query: Option<string>,
                                      levels: Option<seq<string>>, top: int)
    ensures SearchPoliciesAsWritten(index, query, levels, top) == Raises("AttributeError") <==> index.None?
    ensures index.None? ==> SearchPolicies(index, query, levels, top) == Returns(Frame([], []))
    ensures index.Some? ==> SearchPoliciesAsWritten(index, query, levels, top) == SearchPolicies(index, query, levels, top)
  {
    if index.Some? {
      SearchErrors(index.value, query, levels, top);
    }
  }

  /**
   * The corrected search never raises `AttributeError`: a missing index gives
   * no rows, and the only failures left are those of a present index.
   */
  lemma SearchPoliciesFixed(index: Option<Frame<Value>>, query: Option<string>, levels: Option<seq<string>>,
                            top: int)
    ensures index.None? ==> SearchPolicies(index, query, levels, top) == Returns(Frame([], []))
    ensures var out := SearchPolicies(index, query, levels, top);
      out.Raises? ==> index.Some? && (out.error == "KeyError" || out.error == "TypeError")
  {
    if index.Some? {
      SearchErrors(index.value, query, levels, top);
    }
  }

  /** An empty index, an empty query or a query without tokens gives zero rows and keeps the columns. */
  lemma SearchNothing(f: Frame<Value>, query: Option<string>, levels: Option<seq<string>>, top: int)
    requires Empty(f) || !Given(query) || Tokens(query) == []
    ensures SearchIn(f, query, levels, top) == Returns(Frame(f.columns, []))
  {
  }

  /**
   * The search fails only on a frame without `search_text` (`KeyError`) or
   * with a non-text `search_text` among the searched rows (`TypeError`).
   */
  lemma SearchErrors(f: Frame<Value>, query: Option<string>, levels: Option<seq<string>>, top: int)
    ensures var out, view := SearchIn(f, query, levels, top), LevelView(f, levels);
      var searched := !Empty(f) && Given(query) && Tokens(query) != [];
      (out == Raises("KeyError") <==> searched && SearchTextKey !in view.columns)
      && (out == Raises("TypeError") <==>
            searched && SearchTextKey in view.columns && exists r :: r in view.rows && !HasText(r))
      && (out.Raises? ==> out.error == "KeyError" || out.error == "TypeError")
  {
  }

  /**
   * The ranking: ordered by descending score, a permutation of the scoring
   * rows, each hit carrying its row's score, and every scoring row present.
   */
  lemma RankedSpec(rows: seq<Row<Value>>, tokens: seq<string>)
    ensures var ranked := Ranked(rows, tokens);
      SortedBy(ranked, ByScore())
      && multiset(ranked) == multiset(Filter(Hits(rows, tokens), Scores))
      && (forall h :: h in ranked ==> h.row in rows && h.score == Score(TextOf(h.row), tokens) > 0)
      && (forall r :: r in rows && Score(TextOf(r), tokens) > 0 ==> Hit(Score(TextOf(r), tokens), r) in ranked)
  {
    var hs := Hits(rows, tokens);
    var kept := Filter(hs, Scores);
    var ranked := Ranked(rows, tokens);
    assert TotalPreorder(ByScore());
    SortBySorted(kept, ByScore());
    SortByPerm(kept, ByScore());
    forall h | h in ranked ensures h.row in rows && h.score == Score(TextOf(h.row), tokens) > 0 {
      assert h in multiset(kept);
      FilterMember(hs, Scores, h);
    }
    forall r | r in rows && Score(TextOf(r), tokens) > 0 ensures Hit(Score(TextOf(r), tokens), r) in ranked {
      var j :| 0 <= j < |rows| && rows[j] == r;
      assert hs[j] == Hit(Score(TextOf(r), tokens), r);
      FilterMember(hs, Scores, hs[j]);
      assert hs[j] in multiset(ranked);
    }
  }

  /** `head(n)` is a prefix of the given length. */
  lemma HeadSpec<T>(s: seq<T>, n: int)
    ensures Head(s, n) == s[..|Head(s, n)|]
    ensures n >= 0 ==> |Head(s, n)| == (if n <= |s| then n else |s|)
    ensures n < 0 ==> |Head(s, n)| == (if |s| + n >= 0 then |s| + n else 0)
  {
  }

  /**
   * A successful search answers with at most `top` rows (for `top >= 0`),
   * best first, each a searched row (of the requested levels, when that
   * filter applies) with its positive score added; when `top` allows it,
   * every scoring row is there.
   */
  lemma SearchResults(f: Frame<Value>, query: Option<string>, levels: Option<seq<string>>, top: int)
    requires !Empty(f) && Given(query) && Tokens(query) != []
    requires SearchIn(f, query, levels, top).Returns?
    ensures var res, view, tokens := SearchIn(f, query, levels, top).value, LevelView(f, levels), Tokens(query);
      var ranked := Ranked(view.rows, tokens);
      res.columns == AddColumn(view.columns, ScoreKey)
      && |res.rows| <= |ranked|
      && (top >= 0 ==> |res.rows| <= top)
      && (forall i :: 0 <= i < |res.rows| ==> res.rows[i] == Scored(ranked[i]))
      && (forall i, j :: 0 <= i < j < |res.rows| ==> ranked[i].score >= ranked[j].score)
      && (forall h :: h in ranked ==> h.row in f.rows && h.score == Score(TextOf(h.row), tokens) > 0)
      && (levels.Some? && |levels.value| > 0 && LevelKey in f.columns ==>
            forall h :: h in ranked ==> LevelIn(levels.value)(h.row))
      && (top >= |ranked| ==> |res.rows| == |ranked|)
  {
    var view, tokens := LevelView(f, levels), Tokens(query);
    var ranked := Ranked(view.rows, tokens);
    var best := Head(ranked, top);
    var res := SearchIn(f, query, levels, top).value;
    assert res.columns == AddColumn(view.columns, ScoreKey) && |res.rows| == |best|
      && forall i :: 0 <= i < |best| ==> res.rows[i] == Scored(best[i]);
    HeadSpec(ranked, top);
    assert forall i :: 0 <= i < |best| ==> best[i] == ranked[i];
    RankedSpec(view.rows, tokens);
    assert forall r :: r in view.rows ==> r in f.rows && (levels.Some? && |levels.value| > 0 && LevelKey in f.columns ==>
            LevelIn(levels.value)(r)) by {
      WhereSelects(f, LevelIn(if levels.Some? then levels.value else []));
    }
  }

  // ---------------------------------------------------------------------
  // The test's index and search
  // ---------------------------------------------------------------------

  /** A whole-word occurrence at `q` means a first one at or before `q`. */
  lemma {:induction false} FirstFrom(t: string, k: string, q: nat, p: nat) returns (first: nat)
    requires p <= q <= |t| && WholeAt(t, q, k)
    requires forall j :: 0 <= j < p ==> !WholeAt(t, j, k)
    ensures first <= q && FirstWhole(t, k, first)
    decreases q - p
  {
    if WholeAt(t, p, k) {
      first := p;
    } else {
      first := FirstFrom(t, k, q, p + 1);
    }
  }

  /** A word between two blanks of the surrounding texts is a whole word of the `_norm` text. */
  lemma WholeBetween(x: string, w: string, y: string)
    requires |x| > 0 && IsSpace(x[|x| - 1]) && |y| > 0 && IsSpace(y[0])
    requires IsToken(w)
    ensures WholeAt(Norm(Some(x)) + w + Norm(Some(y)), |x|, w)
  {
    var nx, ny := Norm(Some(x)), Norm(Some(y));
    var t := nx + w + ny;
    NormChars(x);
    NormChars(y);
    SpaceNotWord(nx[|x| - 1]);
    SpaceNotWord(ny[0]);
    assert t[|x| - 1] == nx[|x| - 1];
    assert t[|x| + |w|] == ny[0];
    assert t[|x|] == w[0] && t[|x| + |w| - 1] == w[|w| - 1];
    assert t[|x|..|x| + |w|] == w;
  }

  lemma JoinFour(a: string, b: string, c: string, d: string, sep: string)
    ensures Join([a, b, c, d], sep) == a + sep + b + sep + c + sep + d
  {
    assert [a, b, c, d] == [a] + [b, c, d] && [b, c, d] == [b] + [c, d] && [c, d] == [c] + [d];
    JoinCons(c, [d], sep);
    JoinCons(b, [c, d], sep);
    JoinCons(a, [b, c, d], sep);
  }

  /** Four fields joined, the third ending in a blank-preceded word: `_norm` splits around the word. */
  lemma NormAroundWord(a: string, b: string, c: string, w: string, d: string, sep: string)
    ensures Norm(Some(a + sep + b + sep + (c + w) + sep + d))
      == Norm(Some(a + sep + b + sep + c)) + Norm(Some(w)) + Norm(Some(sep + d))
  {
    assert a + sep + b + sep + (c + w) + sep + d == (a + sep + b + sep + c) + w + (sep + d);
    NormConcat((a + sep + b + sep + c) + w, sep + d);
    NormConcat(a + sep + b + sep + c, w);
  }

  /** `"cadunico"` is its own `_norm`, a token and a key. */
  lemma CadunicoWord()
    ensures Norm(Some("cadunico")) == "cadunico" && IsToken("cadunico") && IsKey("cadunico")
  {
  }

  /** Both spellings of the synonym normalise to `"cad unico"`. */
  lemma CadUnicoNorm()
    ensures Norm(Some("cad único")) == "cad unico"
    ensures Norm(Some("cad-único")) == "cad unico"
  {
    CadUnicoSpaced();
    CadUnicoHyphen();
  }

  lemma CadUnicoSpaced()
    ensures Norm(Some("cad único")) == "cad unico"
  {
  }

  lemma CadUnicoHyphen()
    ensures Norm(Some("cad-único")) == "cad unico"
  {
  }

  /** The test's policy row (the access field written as its two pieces). */
  function TestRow(): Row<Value>
  {
    map[FieldsToScan[0] := VStr("Bolsa Teste"), FieldsToScan[1] := VStr("Auxílio"),
        FieldsToScan[2] := VStr("cpf; " + "cadunico"), FieldsToScan[3] := VStr("Eixo A"),
        LevelKey := VStr("Federal")]
  }

  function TestSynonyms(): Synonyms
  {
    [("cadunico", Some(["cad único", "cad-único"]))]
  }

  /** All four scanned fields are present, in order. */
  lemma TestParts()
    ensures Parts(TestRow(), FieldsToScan) == ["Bolsa Teste", "Auxílio", "cpf; " + "cadunico", "Eixo A"]
  {
    var r := TestRow();
    var f := FieldsToScan;
    assert r[f[0]] == VStr("Bolsa Teste") && r[f[1]] == VStr("Auxílio");
    assert r[f[2]] == VStr("cpf; " + "cadunico") && r[f[3]] == VStr("Eixo A");
    assert f[..1][..0] == [] && f[..2][..1] == f[..1] && f[..3][..2] == f[..2] && f[..4][..3] == f[..3];
    assert Parts(r, f[..1]) == ["Bolsa Teste"];
    assert Parts(r, f[..2]) == ["Bolsa Teste", "Auxílio"];
    assert Parts(r, f[..3]) == ["Bolsa Teste", "Auxílio", "cpf; " + "cadunico"];
    assert Parts(r, f[..4]) == ["Bolsa Teste", "Auxílio", "cpf; " + "cadunico", "Eixo A"];
    assert f[..4] == f;
  }

  /** The row's text has `"cadunico"` as a whole word. */
  lemma TestRowText()
    ensures exists q :: 0 <= q <= |RowText(TestRow())| && WholeAt(RowText(TestRow()), q, "cadunico")
  {
    var x := "Bolsa Teste" + " | " + "Auxílio" + " | " + "cpf; ";
    var y := " | " + "Eixo A";
    assert RowText(TestRow()) == Norm(Some(x)) + "cadunico" + Norm(Some(y)) by {
      TestParts();
      JoinFour("Bolsa Teste", "Auxílio", "cpf; " + "cadunico", "Eixo A", " | ");
      NormAroundWord("Bolsa Teste", "Auxílio", "cpf; ", "cadunico", "Eixo A", " | ");
      CadunicoWord();
    }
    CadunicoWord();
    WholeBetween(x, "cadunico", y);
    assert |x| <= |RowText(TestRow())|;
  }

  /** After the synonym loops the text contains `"cad unico"`, as the test expects. */
  lemma TestInjection()
    ensures Contains(IndexText(TestRow(), Some(TestSynonyms())), "cad unico")
    ensures exists q :: (0 <= q <= |IndexText(TestRow(), Some(TestSynonyms()))|
      && WholeAt(IndexText(TestRow(), Some(TestSynonyms())), q, "cadunico"))
  {
    var text := RowText(TestRow());
    var syns := ["cad único", "cad-único"];
    TestRowText();
    var q :| 0 <= q <= |text| && WholeAt(text, q, "cadunico");
    var first := FirstFrom(text, "cadunico", q, 0);
    CadunicoWord();
    CadUnicoNorm();
    assert TestSynonyms()[..0] == [];
    assert IndexText(TestRow(), Some(TestSynonyms())) == InjectKey(text, "cadunico", syns);
    InjectKeyFirst(text, "cadunico", syns, first);
    var out := InjectKey(text, "cadunico", syns);
    StartsAtTail(out, first, "cadunico" + " ", "cad unico");
  }

  lemma StartsAtTail(s: string, i: nat, u: string, v: string)
    requires StartsAt(s, i, u + v)
    ensures StartsAt(s, i + |u|, v) && Contains(s, v)
  {
    assert s[i + |u|..i + |u| + |v|] == s[i..i + |u| + |v|][|u|..];
    assert 0 <= i + |u| <= |s| && StartsAt(s, i + |u|, v);
  }

  /** The test's frame: the four scanned fields and the level. */
  function TestFrame(): Frame<Value>
  {
    Frame(FieldsToScan + [LevelKey], [TestRow()])
  }

  /** `build_index` on the test's frame: the column exists and its text contains `"cad unico"`. */
  lemma BuildIndexExample()
    ensures var idx := Index(Some(TestFrame()), Some(TestSynonyms()));
      SearchTextKey in idx.columns && |idx.rows| == 1
      && idx.rows[0][SearchTextKey].VStr? && Contains(idx.rows[0][SearchTextKey].s, "cad unico")
  {
    TestInjection();
  }

  /** The query `"cadunico"` has the one token `"cadunico"`. */
  lemma CadunicoTokens()
    ensures Tokens(Some("cadunico")) == ["cadunico"]
  {
    CadunicoWord();
    var w := "cadunico";
    WordsOfWord(w);
    var ws: seq<string> := [w];
    assert Filter(ws, NonEmptyText) == ws by {
      assert ws[1..] == [];
    }
  }

  /**
   * A search whose level view is one text row that scores: one result row,
   * carrying that score.
   */
  lemma SearchSingle(f: Frame<Value>, query: Option<string>, levels: Option<seq<string>>, top: int, row: Row<Value>)
    requires !Empty(f) && Given(query) && |Tokens(query)| > 0 && top >= 1
    requires LevelView(f, levels).rows == [row] && SearchTextKey in LevelView(f, levels).columns
    requires HasText(row) && Score(TextOf(row), Tokens(query)) > 0
    ensures var res := SearchIn(f, query, levels, top);
      res.Returns? && |res.value.rows| == 1
      && ScoreKey in res.value.rows[0] && res.value.rows[0][ScoreKey] == VInt(Score(TextOf(row), Tokens(query)))
  {
    var tokens := Tokens(query);
    var h := Hit(Score(TextOf(row), tokens), row);
    var hs: seq<Hit> := [h];
    assert Hits([row], tokens) == hs;
    assert Filter(hs, Scores) == hs by {
      assert hs[1..] == [];
    }
    assert SortBy(hs, ByScore()) == hs by {
      assert hs[..0] == [];
    }
    assert Head(hs, top) == hs;
  }

  /** The indexed test frame: one row, the test row with its `search_text`. */
  lemma ExampleIndex()
    ensures var idx := Index(Some(TestFrame()), Some(TestSynonyms()));
      !Empty(idx) && LevelKey in idx.columns && SearchTextKey in idx.columns
      && idx.rows == [TestRow()[SearchTextKey := VStr(IndexText(TestRow(), Some(TestSynonyms())))]]
  {
  }

  /** The level filter `["Federal"]` keeps the test row. */
  lemma ExampleView(f: Frame<Value>, row: Row<Value>)
    requires f.rows == [row] && LevelKey in f.columns && LevelKey in row && row[LevelKey] == VStr("Federal")
    ensures LevelView(f, Some(["Federal"])).rows == [row]
    ensures LevelView(f, Some(["Federal"])).columns == f.columns
  {
    var rs: seq<Row<Value>> := [row];
    assert LevelIn(["Federal"])(row);
    assert Filter(rs, LevelIn(["Federal"])) == rs by {
      assert rs[1..] == [];
    }
  }

  /** The query `"cadunico"` scores the indexed test text above zero. */
  lemma ExampleScore()
    ensures Score(IndexText(TestRow(), Some(TestSynonyms())), ["cadunico"]) > 0
  {
    var text := IndexText(TestRow(), Some(TestSynonyms()));
    var tokens: seq<string> := ["cadunico"];
    TestInjection();
    CadunicoWord();
    CountFromZero(text, "cadunico", 0);
    assert tokens[..0] == [];
  }

  /** The test's search: one row, with a positive score. */
  lemma SearchExample()
    ensures var res := SearchIn(Index(Some(TestFrame()), Some(TestSynonyms())), Some("cadunico"), Some(["Federal"]), 10);
      res.Returns? && |res.value.rows| == 1
      && ScoreKey in res.value.rows[0] && res.value.rows[0][ScoreKey].VInt? && res.value.rows[0][ScoreKey].i > 0
  {
    var idx := Index(Some(TestFrame()), Some(TestSynonyms()));
    var text := IndexText(TestRow(), Some(TestSynonyms()));
    var row := TestRow()[SearchTextKey := VStr(text)];
    ExampleIndex();
    ExampleView(idx, row);
    CadunicoTokens();
    ExampleScore();
    SearchSingle(idx, Some("cadunico"), Some(["Federal"]), 10, row);
  }
}
