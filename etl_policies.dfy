/**
 * The text normalisations of the policies ETL: the coverage level, the
 * managing body (cut at connective phrases, reduced to an acronym when it
 * has one), and the short texts built per policy from its requirement,
 * financial and contact rows.
 */
module EtlPolicies {
  import opened PyStr
  import opened PyValue
  import opened Seqs
  import opened Frames

  // ---------------------------------------------------------------------
  // Substring helpers
  // ---------------------------------------------------------------------

  /** A text that lacks some character of `sub` does not contain `sub`. */
  lemma NotContainsChar(s: string, sub: string, k: nat)
    requires k < |sub| && sub[k] !in s
    ensures !Contains(s, sub)
  {
    forall i | 0 <= i <= |s| ensures !StartsAt(s, i, sub) {
      if i + |sub| <= |s| {
        assert s[i..i + |sub|][k] == s[i + k];
      }
    }
  }

  /** What a text does not contain, no infix of it contains either, also after lower-casing. */
  lemma InfixAbsent(s: string, a: nat, b: nat, w: string)
    requires a <= b <= |s| && !Contains(Lower(s), w)
    ensures !Contains(Lower(s[a..b]), w)
  {
    LowerSlice(s, a, b);
    var t := Lower(s)[a..b];
    forall i | 0 <= i <= |t| ensures !StartsAt(t, i, w) {
      if i + |w| <= |t| {
        assert Lower(s)[a + i..a + i + |w|] == t[i..i + |w|];
        assert !StartsAt(Lower(s), a + i, w);
      }
    }
  }

  /** What a text does not contain, no infix of it contains either. */
  lemma ContainsAbsent(p: string, r: string, w: string)
    requires Contains(p, r) && !Contains(Lower(p), w)
    ensures !Contains(Lower(r), w)
  {
    var a :| 0 <= a <= |p| && StartsAt(p, a, r);
    assert r == p[a..a + |r|];
    InfixAbsent(p, a, a + |r|, w);
  }

  /** An infix of an infix is an infix. */
  lemma ContainsPrefix(text: string, k: nat, r: string)
    requires k <= |text| && Contains(text[..k], r)
    ensures Contains(text, r)
  {
    var a :| 0 <= a <= k && StartsAt(text[..k], a, r);
    assert text[..k][a..a + |r|] == text[a..a + |r|];
    assert StartsAt(text, a, r);
  }

  /** An infix of a text free of some characters is free of them. */
  lemma ContainsFree(p: string, r: string, seps: set<char>)
    requires Contains(p, r) && FreeOf(p, seps)
    ensures FreeOf(r, seps)
  {
    var a :| 0 <= a <= |p| && StartsAt(p, a, r);
    forall j | 0 <= j < |r| ensures r[j] !in seps {
      assert r[j] == p[a..a + |r|][j] == p[a + j];
    }
  }

  // ---------------------------------------------------------------------
  // normalize_nivel
  // ---------------------------------------------------------------------

  const NationalKeys: seq<string> := ["federal", "nacional", "uni\U{e3}o", "brasil"]
  const StateKeys: seq<string> := ["estadual", "estado", "uf", "secretaria de estado"]
  const RegionalKeys: seq<string> := ["regional", "amaz\U{f4}nia", "amazonia", "bioma", "interfederativo", "cons\U{f3}rcio"]

  /** `any(k in s for k in keys)` */
  predicate AnyIn(s: string, keys: seq<string>)
  {
    exists k :: k in keys && Contains(s, k)
  }

  /** The level of a stripped, lower-cased, non-blank text. */
  function LevelOf(s: string): string
  {
    if AnyIn(s, NationalKeys) then "Nacional"
    else if AnyIn(s, StateKeys) then "Estadual"
    else if AnyIn(s, RegionalKeys) then "Regional"
    else Capitalize(s)
  }

  /** `normalize_nivel(raw)` */
  function NormalizeNivel(raw: Value): string
  {
    if !raw.VStr? then ""
    else
      var s := Lower(Strip(raw.s));
      if s == "" then "" else LevelOf(s)
  }

  /**
   * A non-string or blank level is empty; otherwise the national keywords
   * are checked first, then the state ones, then the regional ones, and
   * anything else is kept, capitalised.
   */
  lemma NormalizeNivelCases(raw: Value)
    ensures NormalizeNivel(raw) == "" <==> !raw.VStr? || Strip(raw.s) == ""
    ensures raw.VStr? && Strip(raw.s) != "" ==>
      var s := Lower(Strip(raw.s));
      && (AnyIn(s, NationalKeys) ==> NormalizeNivel(raw) == "Nacional")
      && (!AnyIn(s, NationalKeys) && AnyIn(s, StateKeys) ==> NormalizeNivel(raw) == "Estadual")
      && (!AnyIn(s, NationalKeys) && !AnyIn(s, StateKeys) && AnyIn(s, RegionalKeys) ==> NormalizeNivel(raw) == "Regional")
      && (!AnyIn(s, NationalKeys) && !AnyIn(s, StateKeys) && !AnyIn(s, RegionalKeys) ==> NormalizeNivel(raw) == Capitalize(s))
  {
    if raw.VStr? && Strip(raw.s) != "" {
      assert |Lower(Strip(raw.s))| == |Strip(raw.s)|;
    }
  }

  /** Upper-casing a lower-cased character and lower-casing it again gives it back. */
  lemma LowerUpperLower(c: char)
    ensures LowerChar(UpperChar(LowerChar(c))) == LowerChar(c)
    ensures IsSpace(UpperChar(c)) == IsSpace(c)
  {
  }

  /** A capitalised lower-case text lower-cases and strips back to itself. */
  lemma CapitalizeBack(s: string)
    requires s != "" && IsStripped(s) && Lower(s) == s
    ensures Lower(Strip(Capitalize(s))) == s
  {
    var c := Capitalize(s);
    assert forall i :: 0 <= i < |s| ==> LowerChar(s[i]) == s[i] by {
      forall i | 0 <= i < |s| ensures LowerChar(s[i]) == s[i] {
        assert Lower(s)[i] == LowerChar(s[i]);
      }
    }
    CapitalizeStripped(s, c);
    StripOfStripped(c);
    CapitalizeLowerBack(s, c);
  }

  /** Capitalising a stripped lower-case text keeps it stripped. */
  lemma CapitalizeStripped(s: string, c: string)
    requires s != "" && IsStripped(s) && c == Capitalize(s)
    requires forall i :: 0 <= i < |s| ==> LowerChar(s[i]) == s[i]
    ensures IsStripped(c)
  {
    LowerUpperLower(s[0]);
    if |s| > 1 {
      assert c[|c| - 1] == c[1..][|s| - 2] == Lower(s[1..])[|s| - 2] == LowerChar(s[|s| - 1]);
    }
  }

  /** Lower-casing a capitalised lower-case text gives it back. */
  lemma CapitalizeLowerBack(s: string, c: string)
    requires s != "" && c == Capitalize(s)
    requires forall i :: 0 <= i < |s| ==> LowerChar(s[i]) == s[i]
    ensures Lower(c) == s
  {
    forall i | 0 <= i < |s| ensures Lower(c)[i] == s[i] {
      if i == 0 {
        LowerUpperLower(s[0]);
      } else {
        assert c[i] == c[1..][i - 1] == Lower(s[1..])[i - 1] == LowerChar(s[i]);
      }
    }
  }

  /** A stripped text whose lower-case form has a level normalises to that level. */
  lemma LevelFixed(w: string, lw: string, lvl: string)
    requires Strip(w) == w && Lower(w) == lw && lw != "" && LevelOf(lw) == lvl
    ensures NormalizeNivel(VStr(w)) == lvl
  {
    NormalizeNivelText(w, lw);
  }

  /** A text whose lower-cased strip `s` is non-blank reads as the level of `s`. */
  lemma NormalizeNivelText(x: string, s: string)
    requires s == Lower(Strip(x)) && s != ""
    ensures NormalizeNivel(VStr(x)) == LevelOf(s)
  {
  }

  lemma NacionalLevel()
    ensures LevelOf("nacional") == "Nacional"
  {
    assert Contains("nacional", "nacional") by { assert StartsAt("nacional", 0, "nacional"); }
    assert "nacional" in NationalKeys;
  }

  lemma EstadualNotNational()
    ensures !AnyIn("estadual", NationalKeys)
  {
    NotContainsChar("estadual", "federal", 0);
    NotContainsChar("estadual", "nacional", 0);
    NotContainsChar("estadual", "uni\U{e3}o", 1);
    NotContainsChar("estadual", "brasil", 0);
  }

  lemma EstadualState()
    ensures AnyIn("estadual", StateKeys)
  {
    assert StartsAt("estadual", 0, "estadual");
    assert Contains("estadual", StateKeys[0]);
  }

  lemma EstadualLevel()
    ensures LevelOf("estadual") == "Estadual"
  {
    EstadualNotNational();
    EstadualState();
  }

  lemma RegionalNotNational()
    ensures !AnyIn("regional", NationalKeys)
  {
    NotContainsChar("regional", "federal", 0);
    NotContainsChar("regional", "nacional", 2);
    NotContainsChar("regional", "uni\U{e3}o", 0);
    NotContainsChar("regional", "brasil", 0);
  }

  lemma RegionalNotState()
    ensures !AnyIn("regional", StateKeys)
  {
    NotContainsChar("regional", "estadual", 2);
    NotContainsChar("regional", "estado", 2);
    NotContainsChar("regional", "uf", 0);
    NotContainsChar("regional", "secretaria de estado", 5);
  }

  lemma RegionalRegional()
    ensures AnyIn("regional", RegionalKeys)
  {
    assert StartsAt("regional", 0, "regional");
    assert Contains("regional", RegionalKeys[0]);
  }

  lemma RegionalLevel()
    ensures LevelOf("regional") == "Regional"
  {
    RegionalNotNational();
    RegionalNotState();
    RegionalRegional();
  }

  lemma LowerNacional() ensures Lower("Nacional") == "nacional" { }
  lemma LowerEstadual() ensures Lower("Estadual") == "estadual" { }
  lemma LowerRegional() ensures Lower("Regional") == "regional" { }

  /** `Nacional` stays `Nacional`. */
  lemma NacionalFixed(w: string)
    requires w == "Nacional"
    ensures NormalizeNivel(VStr(w)) == w
  {
    assert IsStripped(w) by {
      assert w[0] == 'N' && w[|w| - 1] == 'l';
    }
    StripOfStripped(w);
    LowerNacional();
    NacionalLevel();
    LevelFixed(w, "nacional", w);
  }

  /** `Estadual` stays `Estadual`. */
  lemma EstadualFixed(w: string)
    requires w == "Estadual"
    ensures NormalizeNivel(VStr(w)) == w
  {
    assert IsStripped(w) by {
      assert w[0] == 'E' && w[|w| - 1] == 'l';
    }
    StripOfStripped(w);
    LowerEstadual();
    EstadualLevel();
    LevelFixed(w, "estadual", w);
  }

  /** `Regional` stays `Regional`. */
  lemma RegionalFixed(w: string)
    requires w == "Regional"
    ensures NormalizeNivel(VStr(w)) == w
  {
    assert IsStripped(w) by {
      assert w[0] == 'R' && w[|w| - 1] == 'l';
    }
    StripOfStripped(w);
    LowerRegional();
    RegionalLevel();
    LevelFixed(w, "regional", w);
  }

  /** The capitalised fallback level normalises back to itself. */
  lemma CapitalizedFixed(raw: Value)
    requires raw.VStr? && Lower(Strip(raw.s)) != ""
    requires NormalizeNivel(raw) == Capitalize(Lower(Strip(raw.s)))
    ensures NormalizeNivel(VStr(NormalizeNivel(raw))) == NormalizeNivel(raw)
  {
    var s := Lower(Strip(raw.s));
    LowerStripped(Strip(raw.s));
    LowerIdempotent(Strip(raw.s));
    CapitalizeBack(s);
  }

  /** A result equal to a fixed level normalises back to itself. */
  lemma SameFixed(raw: Value, lvl: string)
    requires NormalizeNivel(raw) == lvl && NormalizeNivel(VStr(lvl)) == lvl
    ensures NormalizeNivel(VStr(NormalizeNivel(raw))) == NormalizeNivel(raw)
  {
  }

  /** Normalising a normalised level changes nothing. */
  lemma NormalizeNivelIdempotent(raw: Value)
    ensures NormalizeNivel(VStr(NormalizeNivel(raw))) == NormalizeNivel(raw)
  {
    if raw.VStr? && Lower(Strip(raw.s)) != "" {
      var s := Lower(Strip(raw.s));
      if AnyIn(s, NationalKeys) {
        NacionalFixed("Nacional");
        SameFixed(raw, "Nacional");
      } else if AnyIn(s, StateKeys) {
        EstadualFixed("Estadual");
        SameFixed(raw, "Estadual");
      } else if AnyIn(s, RegionalKeys) {
        RegionalFixed("Regional");
        SameFixed(raw, "Regional");
      } else {
        CapitalizedFixed(raw);
      }
    }
  }

  // ---------------------------------------------------------------------
  // _first_chunk
  // ---------------------------------------------------------------------

  /** The connective phrases a managing body is cut at, in the order they are tried. */
  const StopPhrases: seq<string> := [
    " em articula\U{e7}\U{e3}o", "articula\U{e7}\U{e3}o com", " em parceria", " parceria com",
    " executado por", " executor", " implementa", " implementado por",
    " coordena\U{e7}\U{e3}o", " com apoio", " apoio de", " juntamente com"]

  /** The separators of `re.split(r"[;|,]", s)`. */
  const ChunkSeps: set<char> := {';', '|', ','}

  /** One step of the loop: `s[:idx]` when the lower-cased text holds the phrase at `idx`. */
  function Cut(s: string, key: string): (r: string)
    ensures |r| <= |s| && r == s[..|r|]
  {
    var idx := Find(Lower(s), key);
    if idx.Some? then s[..idx.value] else s
  }

  /** The loop over the given phrases, in order. */
  function CutAll(s: string, keys: seq<string>): (r: string)
    ensures |r| <= |s| && r == s[..|r|]
    decreases |keys|
  {
    if |keys| == 0 then s else Cut(CutAll(s, keys[..|keys| - 1]), keys[|keys| - 1])
  }

  /** `_first_chunk(text)` */
  function FirstChunkOf(text: string): string
  {
    var s := CutAll(text, StopPhrases);
    Strip(s[..FirstIn(s, ChunkSeps)])
  }

  /** `_first_chunk`: the phrase loop, then the first separator and the strip. */
  method FirstChunk(text: string) returns (r: string)
    ensures r == FirstChunkOf(text)
  {
    var s := text;
    for i := 0 to |StopPhrases|
      invariant s == CutAll(text, StopPhrases[..i])
    {
      var key := StopPhrases[i];
      var idx := Find(Lower(s), key);
      if idx.Some? {
        s := s[..idx.value];
      }
      assert StopPhrases[..i + 1][..i] == StopPhrases[..i];
    }
    assert StopPhrases[..|StopPhrases|] == StopPhrases;
    r := Strip(s[..FirstIn(s, ChunkSeps)]);
  }

  /** After a cut the phrase no longer occurs. */
  lemma CutRemoves(s: string, key: string)
    requires key != ""
    ensures !Contains(Lower(Cut(s, key)), key)
  {
    var idx := Find(Lower(s), key);
    if idx.Some? {
      var k := idx.value;
      LowerSlice(s, 0, k);
      var t := Lower(s[..k]);
      assert Cut(s, key) == s[..k];
      forall i | 0 <= i <= |t| ensures !StartsAt(t, i, key) {
        if i + |key| <= |t| {
          assert i < k;
          assert !StartsAt(Lower(s), i, key);
          assert Lower(s)[i..i + |key|] == t[i..i + |key|];
        }
      }
    }
  }

  /** After the loop none of the phrases it went through occurs. */
  lemma {:induction false} CutAllRemoves(s: string, keys: seq<string>)
    requires forall w :: w in keys ==> w != ""
    ensures forall w :: w in keys ==> !Contains(Lower(CutAll(s, keys)), w)
    decreases |keys|
  {
    if |keys| > 0 {
      var n := |keys| - 1;
      var before := CutAll(s, keys[..n]);
      var after := Cut(before, keys[n]);
      assert forall w :: w in keys[..n] ==> w in keys;
      assert keys[n] in keys;
      CutAllRemoves(s, keys[..n]);
      CutRemoves(before, keys[n]);
      forall w | w in keys ensures !Contains(Lower(after), w) {
        if w != keys[n] {
          assert w in keys[..n] by {
            var j :| 0 <= j < |keys| && keys[j] == w;
            assert j < n && keys[..n][j] == w;
          }
          InfixAbsent(before, 0, |after|, w);
        }
      }
    }
  }

  /** The loop changes nothing when none of the phrases occurs. */
  lemma {:induction false} CutAllNone(s: string, keys: seq<string>)
    requires forall w :: w in keys ==> !Contains(Lower(s), w)
    ensures CutAll(s, keys) == s
    decreases |keys|
  {
    if |keys| > 0 {
      var n := |keys| - 1;
      assert forall w :: w in keys[..n] ==> w in keys;
      CutAllNone(s, keys[..n]);
      assert keys[n] in keys;
    }
  }

  /**
   * The first chunk is a stripped infix of the text, holds none of the
   * separators `;`, `|` and `,`, and none of the connective phrases occurs
   * in it, whatever the case.
   */
  lemma FirstChunkSpec(text: string)
    ensures Contains(text, FirstChunkOf(text))
    ensures IsStripped(FirstChunkOf(text))
    ensures FreeOf(FirstChunkOf(text), ChunkSeps)
    ensures forall w :: w in StopPhrases ==> !Contains(Lower(FirstChunkOf(text)), w)
  {
    var s := CutAll(text, StopPhrases);
    var k := FirstIn(s, ChunkSeps);
    assert FirstChunkOf(text) == Strip(s[..k]);
    StopPhrasesNonEmpty();
    CutPrefixChunk(text, StopPhrases, k);
    FirstChunkFree(s, k);
    CutNoPhrase(text, StopPhrases, k);
  }

  /** No connective phrase is empty. */
  lemma StopPhrasesNonEmpty()
    ensures forall w :: w in StopPhrases ==> w != ""
  {
  }

  /** A stripped prefix of what the phrase loop leaves is an infix of the text. */
  lemma CutPrefixChunk(text: string, keys: seq<string>, k: nat)
    requires k <= |CutAll(text, keys)|
    ensures Contains(text, Strip(CutAll(text, keys)[..k]))
  {
    var s := CutAll(text, keys);
    assert s[..k] == text[..k];
    ContainsPrefix(text, k, Strip(s[..k]));
  }

  /** The part in front of the first separator holds none, and neither does its stripped form. */
  lemma FirstChunkFree(s: string, k: nat)
    requires k == FirstIn(s, ChunkSeps)
    ensures FreeOf(Strip(s[..k]), ChunkSeps)
  {
    var p := s[..k];
    assert FreeOf(p, ChunkSeps) by {
      FirstInIsFirst(s, ChunkSeps);
    }
    ContainsFree(p, Strip(p), ChunkSeps);
  }

  /** No non-empty phrase survives the loop, so none occurs in a stripped prefix of what it leaves. */
  lemma CutNoPhrase(text: string, keys: seq<string>, k: nat)
    requires forall w :: w in keys ==> w != ""
    requires k <= |CutAll(text, keys)|
    ensures forall w :: w in keys ==> !Contains(Lower(Strip(CutAll(text, keys)[..k])), w)
  {
    var s := CutAll(text, keys);
    var p := s[..k];
    var r := Strip(p);
    CutAllRemoves(text, keys);
    forall w | w in keys ensures !Contains(Lower(r), w) {
      InfixAbsent(s, 0, k, w);
      assert s[0..k] == p;
      ContainsAbsent(p, r, w);
    }
  }

  /** A text with no separator and no connective phrase is only stripped. */
  lemma FirstChunkClean(text: string)
    requires FreeOf(text, ChunkSeps)
    requires forall w :: w in StopPhrases ==> !Contains(Lower(text), w)
    ensures FirstChunkOf(text) == Strip(text)
  {
    CutAllNone(text, StopPhrases);
    FirstInFree(text, ChunkSeps);
  }

  // ---------------------------------------------------------------------
  // _first_acronym
  // ---------------------------------------------------------------------

  /** `\b` in front of position `i`, whose character is a word character. */
  predicate BoundaryBefore(s: string, i: nat)
  {
    i == 0 || (i <= |s| && !IsWordChar(s[i - 1]))
  }

  /** `\b` at position `e`, after a word character. */
  predicate BoundaryAfter(s: string, e: nat)
  {
    e >= |s| || !IsWordChar(s[e])
  }

  /** Length of the run of `A`-`Z` that starts at `i`. */
  function CapsRun(s: string, i: nat): (n: nat)
    ensures n == 0 || i + n <= |s|
    ensures forall j :: i <= j < i + n ==> IsAsciiUpper(s[j])
    ensures i + n < |s| ==> !IsAsciiUpper(s[i + n])
    decreases |s| - i
  {
    if i < |s| && IsAsciiUpper(s[i]) then 1 + CapsRun(s, i + 1) else 0
  }

  /**
   * `s[i..e]` is `[A-Z]{2,}(?:/[A-Z]{2,})*`: capitals and slashes, at least
   * two capitals before the first slash, after the last one and between
   * any two.
   */
  predicate RunSpan(s: string, i: nat, e: nat)
  {
    && i + 2 <= e <= |s|
    && (forall j :: i <= j < e ==> IsAsciiUpper(s[j]) || s[j] == '/')
    && (forall j :: i <= j < e && s[j] == '/' ==> i + 2 <= j && j + 3 <= e)
    && (forall j, k :: i <= j < k < e && s[j] == '/' && s[k] == '/' ==> j + 3 <= k)
  }

  /** `\b([A-Z]{2,}(?:/[A-Z]{2,})+)\b` matches exactly `s[i..e]`. */
  predicate CompoundMatch(s: string, i: nat, e: nat)
  {
    BoundaryBefore(s, i) && RunSpan(s, i, e) && (exists j :: i <= j < e && s[j] == '/') && BoundaryAfter(s, e)
  }

  /** `\b([A-Z]{2,})\b` matches exactly `s[i..e]`. */
  predicate SimpleMatch(s: string, i: nat, e: nat)
  {
    BoundaryBefore(s, i) && i + 2 <= e <= |s| && (forall j :: i <= j < e ==> IsAsciiUpper(s[j])) && BoundaryAfter(s, e)
  }

  /**
   * The greedy repetitions of `/[A-Z]{2,}` after a run that ends at `e`,
   * backtracked to the furthest end that a `\b` follows.
   */
  function CompoundFrom(s: string, e: nat): (r: Option<nat>)
    ensures r.Some? ==> e < r.value <= |s|
    decreases |s| - e
  {
    if e < |s| && s[e] == '/' && CapsRun(s, e + 1) >= 2 then
      var e2 := e + 1 + CapsRun(s, e + 1);
      var more := CompoundFrom(s, e2);
      if more.Some? then more
      else if BoundaryAfter(s, e2) then Some(e2)
      else None
    else None
  }

  /** Where the compound pattern tried at position `i` ends, if it matches there. */
  function CompoundAt(s: string, i: nat): (r: Option<nat>)
    ensures r.Some? ==> i + 2 < r.value <= |s|
  {
    if BoundaryBefore(s, i) && CapsRun(s, i) >= 2 then CompoundFrom(s, i + CapsRun(s, i)) else None
  }

  /** Where the simple pattern tried at position `i` ends, if it matches there. */
  function SimpleAt(s: string, i: nat): (r: Option<nat>)
    ensures r.Some? ==> i + 2 <= r.value <= |s|
  {
    var n := CapsRun(s, i);
    if BoundaryBefore(s, i) && n >= 2 && BoundaryAfter(s, i + n) then Some(i + n) else None
  }

  /** The two patterns `_first_acronym` tries, in that order. */
  datatype Pattern = Compound | Simple

  /** Where `p` tried at position `i` ends, if it matches there. */
  function MatchAt(p: Pattern, s: string, i: nat): (r: Option<nat>)
    ensures r.Some? ==> i + 2 <= r.value <= |s|
  {
    match p
    case Compound => CompoundAt(s, i)
    case Simple => SimpleAt(s, i)
  }

  /** `re.search`: the leftmost position from `i` on at which `p` matches, with the end of that match. */
  function SearchFrom(p: Pattern, s: string, i: nat): (r: Option<(nat, nat)>)
    ensures r.Some? ==> i <= r.value.0 <= |s| && MatchAt(p, s, r.value.0) == Some(r.value.1)
    ensures r.Some? ==> forall k :: i <= k < r.value.0 ==> MatchAt(p, s, k).None?
    ensures r.None? ==> forall k :: i <= k <= |s| ==> MatchAt(p, s, k).None?
    decreases |s| + 1 - i
  {
    if i > |s| then None
    else if MatchAt(p, s, i).Some? then Some((i, MatchAt(p, s, i).value))
    else SearchFrom(p, s, i + 1)
  }

  function CompoundSearch(text: string): Option<(nat, nat)>
  {
    SearchFrom(Compound, text, 0)
  }

  function SimpleSearch(text: string): Option<(nat, nat)>
  {
    SearchFrom(Simple, text, 0)
  }

  /** `_first_acronym(text)`: the first compound acronym, else the first simple one, upper-cased. */
  function FirstAcronym(text: string): Option<string>
  {
    var c := CompoundSearch(text);
    if c.Some? then
      assert CompoundAt(text, c.value.0) == Some(c.value.1);
      Some(Upper(text[c.value.0..c.value.1]))
    else
      var m := SimpleSearch(text);
      if m.Some? then
        assert SimpleAt(text, m.value.0) == Some(m.value.1);
        Some(Upper(text[m.value.0..m.value.1]))
      else None
  }

  /** Inside a run of capitals every character is a word character. */
  lemma CapsRunWord(s: string, i: nat, r: nat)
    ensures i <= r < i + CapsRun(s, i) ==> IsWordChar(s[r])
  {
  }

  /** One more `/[A-Z]{2,}` keeps the span well formed. */
  lemma RunSpanStep(s: string, i: nat, e: nat)
    requires RunSpan(s, i, e) && e < |s| && s[e] == '/' && CapsRun(s, e + 1) >= 2
    ensures RunSpan(s, i, e + 1 + CapsRun(s, e + 1))
  {
    var e2 := e + 1 + CapsRun(s, e + 1);
    assert IsAsciiUpper(s[e - 1]) && IsAsciiUpper(s[e - 2]);
    forall j | i <= j < e2 ensures IsAsciiUpper(s[j]) || s[j] == '/' {
      if j > e {
        assert e + 1 <= j < e + 1 + CapsRun(s, e + 1);
      }
    }
  }

  /** What the repetitions reach is a compound span followed by `\b`. */
  lemma {:induction false} CompoundFromSound(s: string, i: nat, e: nat)
    requires RunSpan(s, i, e)
    ensures CompoundFrom(s, e).Some? ==>
      var r := CompoundFrom(s, e).value;
      RunSpan(s, i, r) && e < r && s[e] == '/' && BoundaryAfter(s, r)
    decreases |s| - e
  {
    if e < |s| && s[e] == '/' && CapsRun(s, e + 1) >= 2 {
      var e2 := e + 1 + CapsRun(s, e + 1);
      RunSpanStep(s, i, e);
      CompoundFromSound(s, i, e2);
      if CompoundFrom(s, e2).Some? {
        var r := CompoundFrom(s, e2).value;
        assert s[e] == '/' && e < e2 < r;
        forall j | i <= j < r ensures IsAsciiUpper(s[j]) || s[j] == '/' {
        }
      }
    }
  }

  /** No compound span that a `\b` follows reaches further than the repetitions. */
  lemma {:induction false} CompoundFromComplete(s: string, i: nat, e: nat, r: nat)
    requires RunSpan(s, i, e) && (e == |s| || !IsAsciiUpper(s[e]))
    requires e < r && RunSpan(s, i, r) && BoundaryAfter(s, r)
    ensures CompoundFrom(s, e).Some? && r <= CompoundFrom(s, e).value
    decreases |s| - e
  {
    assert s[e] == '/';
    assert IsAsciiUpper(s[e + 1]) && IsAsciiUpper(s[e + 2]);
    assert CapsRun(s, e + 1) >= 2 by {
      assert CapsRun(s, e + 1) == 1 + CapsRun(s, e + 2);
    }
    var e2 := e + 1 + CapsRun(s, e + 1);
    CapsRunWord(s, e + 1, r);
    RunSpanStep(s, i, e);
    if r > e2 {
      CompoundFromComplete(s, i, e2, r);
    }
  }

  /** No compound match at position `i` is longer than what the pattern returns there. */
  lemma CompoundAtComplete(s: string, i: nat, e: nat)
    requires CompoundMatch(s, i, e)
    ensures CompoundAt(s, i).Some? && e <= CompoundAt(s, i).value
  {
    var n := CapsRun(s, i);
    assert IsAsciiUpper(s[i]) && IsAsciiUpper(s[i + 1]);
    assert n >= 2 by {
      assert n == 1 + CapsRun(s, i + 1);
    }
    var j :| i <= j < e && s[j] == '/';
    assert j >= i + n;
    CompoundFromComplete(s, i, i + n, e);
  }

  /**
   * The compound pattern at position `i`: what it returns is a match, and
   * no match at `i` is longer.
   */
  lemma CompoundAtSpec(s: string, i: nat)
    ensures CompoundAt(s, i).Some? ==> CompoundMatch(s, i, CompoundAt(s, i).value)
    ensures forall e: nat :: CompoundMatch(s, i, e) ==> CompoundAt(s, i).Some? && e <= CompoundAt(s, i).value
  {
    var n := CapsRun(s, i);
    if BoundaryBefore(s, i) && n >= 2 {
      assert RunSpan(s, i, i + n);
      CompoundFromSound(s, i, i + n);
    }
    forall e: nat | CompoundMatch(s, i, e) ensures CompoundAt(s, i).Some? && e <= CompoundAt(s, i).value {
      CompoundAtComplete(s, i, e);
    }
  }

  /** The simple pattern at position `i` returns exactly the match there. */
  lemma SimpleAtSpec(s: string, i: nat)
    ensures forall e: nat :: SimpleAt(s, i) == Some(e) <==> SimpleMatch(s, i, e)
  {
    var n := CapsRun(s, i);
    forall e: nat | SimpleMatch(s, i, e) ensures SimpleAt(s, i) == Some(e) {
      CapsRunWord(s, i, e);
    }
  }

  /** Upper-casing capitals and slashes changes nothing. */
  lemma UpperOfCaps(w: string)
    requires forall j :: 0 <= j < |w| ==> IsAsciiUpper(w[j]) || w[j] == '/'
    ensures Upper(w) == w
  {
  }

  /** `s[i..e]` is the leftmost match of the compound pattern, and the longest one there. */
  ghost predicate FirstCompound(s: string, i: nat, e: nat)
  {
    CompoundMatch(s, i, e)
    && forall i2: nat, e2: nat :: CompoundMatch(s, i2, e2) ==> i < i2 || (i == i2 && e2 <= e)
  }

  /** `s[i..e]` is the leftmost match of the simple pattern. */
  ghost predicate FirstSimple(s: string, i: nat, e: nat)
  {
    SimpleMatch(s, i, e) && forall i2: nat, e2: nat :: SimpleMatch(s, i2, e2) ==> i <= i2
  }

  /** Before the first match found, the pattern matches nowhere. */
  lemma SearchBefore(p: Pattern, s: string, k: nat)
    ensures SearchFrom(p, s, 0).Some? && k < SearchFrom(p, s, 0).value.0 ==> MatchAt(p, s, k).None?
  {
  }

  /** `re.search` with the compound pattern finds its leftmost, longest match, if there is one. */
  lemma CompoundSearchSpec(text: string)
    ensures CompoundSearch(text).Some? ==> FirstCompound(text, CompoundSearch(text).value.0, CompoundSearch(text).value.1)
    ensures CompoundSearch(text).None? ==> forall i: nat, e: nat :: !CompoundMatch(text, i, e)
  {
    var r := CompoundSearch(text);
    if r.Some? {
      var (i, e) := r.value;
      assert CompoundAt(text, i) == Some(e);
      CompoundAtSpec(text, i);
      forall i2: nat, e2: nat | CompoundMatch(text, i2, e2) ensures i < i2 || (i == i2 && e2 <= e) {
        CompoundAtSpec(text, i2);
        SearchBefore(Compound, text, i2);
      }
    } else {
      forall i: nat, e: nat ensures !CompoundMatch(text, i, e) {
        CompoundAtSpec(text, i);
        if i <= |text| {
          assert MatchAt(Compound, text, i).None?;
        }
      }
    }
  }

  /** `re.search` with the simple pattern finds its leftmost match, if there is one. */
  lemma SimpleSearchSpec(text: string)
    ensures SimpleSearch(text).Some? ==> FirstSimple(text, SimpleSearch(text).value.0, SimpleSearch(text).value.1)
    ensures SimpleSearch(text).None? ==> forall i: nat, e: nat :: !SimpleMatch(text, i, e)
  {
    var r := SimpleSearch(text);
    if r.Some? {
      var (i, e) := r.value;
      assert SimpleAt(text, i) == Some(e);
      SimpleAtSpec(text, i);
      forall i2: nat, e2: nat | SimpleMatch(text, i2, e2) ensures i <= i2 {
        SimpleAtSpec(text, i2);
        SearchBefore(Simple, text, i2);
      }
    } else {
      forall i: nat, e: nat ensures !SimpleMatch(text, i, e) {
        SimpleAtSpec(text, i);
        if i <= |text| {
          assert MatchAt(Simple, text, i).None?;
        }
      }
    }
  }

  /** `w` as a whole reads `[A-Z]{2,}(?:/[A-Z]{2,})*`. */
  predicate IsAcronym(w: string)
  {
    RunSpan(w, 0, |w|)
  }

  /** The matched part of a compound span is an acronym that occurs in the text. */
  lemma RunSpanSlice(s: string, i: nat, e: nat)
    requires RunSpan(s, i, e)
    ensures IsAcronym(s[i..e]) && Upper(s[i..e]) == s[i..e] && Contains(s, s[i..e])
  {
    var w := s[i..e];
    assert forall j :: 0 <= j < |w| ==> w[j] == s[i + j];
    UpperOfCaps(w);
    assert StartsAt(s, i, w);
  }

  /**
   * `_first_acronym`: the leftmost, longest compound acronym when there is
   * one, otherwise the leftmost simple one, otherwise nothing; what it
   * returns is an acronym that occurs in the text.
   */
  lemma FirstAcronymSpec(text: string)
    ensures FirstAcronym(text).Some? <==>
      (exists i: nat, e: nat :: CompoundMatch(text, i, e)) || (exists i: nat, e: nat :: SimpleMatch(text, i, e))
    ensures (exists i: nat, e: nat :: CompoundMatch(text, i, e)) ==>
      exists i: nat, e: nat :: FirstCompound(text, i, e) && FirstAcronym(text) == Some(text[i..e])
    ensures (forall i: nat, e: nat :: !CompoundMatch(text, i, e)) && (exists i: nat, e: nat :: SimpleMatch(text, i, e)) ==>
      exists i: nat, e: nat :: FirstSimple(text, i, e) && FirstAcronym(text) == Some(text[i..e])
    ensures FirstAcronym(text).Some? ==> IsAcronym(FirstAcronym(text).value) && Contains(text, FirstAcronym(text).value)
  {
    CompoundSearchSpec(text);
    SimpleSearchSpec(text);
    var c := CompoundSearch(text);
    var m := SimpleSearch(text);
    if c.Some? {
      RunSpanSlice(text, c.value.0, c.value.1);
    } else if m.Some? {
      assert RunSpan(text, m.value.0, m.value.1);
      RunSpanSlice(text, m.value.0, m.value.1);
    }
  }

  /** A compound acronym is its own first acronym. */
  lemma CompoundFixed(w: string)
    requires IsAcronym(w) && exists j :: 0 <= j < |w| && w[j] == '/'
    ensures FirstAcronym(w) == Some(w)
  {
    assert CompoundMatch(w, 0, |w|);
    CompoundSearchSpec(w);
    var c := CompoundSearch(w);
    assert c.Some? && c.value == (0, |w|);
    UpperOfCaps(w);
    assert w[0..|w|] == w;
  }

  /** A plain run of capitals is its own first acronym. */
  lemma SimpleFixed(w: string)
    requires IsAcronym(w) && forall j :: 0 <= j < |w| ==> w[j] != '/'
    ensures FirstAcronym(w) == Some(w)
  {
    assert SimpleMatch(w, 0, |w|);
    CompoundSearchSpec(w);
    assert CompoundSearch(w).None?;
    SimpleSearchSpec(w);
    var m := SimpleSearch(w);
    assert m.Some? && m.value.0 == 0;
    assert m.value.1 == |w|;
    UpperOfCaps(w);
    assert w[0..|w|] == w;
  }

  /** An acronym is its own first acronym. */
  lemma AcronymFixed(w: string)
    requires IsAcronym(w)
    ensures FirstAcronym(w) == Some(w)
  {
    if exists j :: 0 <= j < |w| && w[j] == '/' {
      CompoundFixed(w);
    } else {
      SimpleFixed(w);
    }
  }

  // ---------------------------------------------------------------------
  // normalize_responsavel
  // ---------------------------------------------------------------------

  /** `_ACRONYM_MAP`: full names of managing bodies and their acronyms, in insertion order. */
  const AcronymMap: seq<(string, string)> := [
    ("minist\U{e9}rio do meio ambiente e mudan\U{e7}a do clima", "MMA"),
    ("minist\U{e9}rio do meio ambiente", "MMA"),
    ("minist\U{e9}rio da pesca e aquicultura", "MPA"),
    ("minist\U{e9}rio do trabalho e emprego", "MTE"),
    ("minist\U{e9}rio do desenvolvimento agr\U{e1}rio e agricultura familiar", "MDA"),
    ("instituto nacional do seguro social", "INSS"),
    ("banco central do brasil", "BCB"),
    ("minist\U{e9}rio da cidadania", "MCID"),
    ("secretaria de estado de meio ambiente e sustentabilidade", "SEMAS/PA"),
    ("secretaria de estado de desenvolvimento econ\U{f4}mico, minera\U{e7}\U{e3}o e energia", "SEDEME/PA"),
    ("secretaria de desenvolvimento agropecu\U{e1}rio e da pesca", "SEDAP/PA")]

  /** The first entry whose full name occurs in `key`, as the loop over the map finds it. */
  function MapLookup(key: string, entries: seq<(string, string)>): Option<string>
    decreases |entries|
  {
    if |entries| == 0 then None
    else if Contains(key, entries[0].0) then Some(entries[0].1)
    else MapLookup(key, entries[1..])
  }

  /** The lookup finds an entry iff some full name occurs, and then the first such entry. */
  lemma {:induction false} MapLookupSpec(key: string, entries: seq<(string, string)>)
    ensures MapLookup(key, entries).Some? <==> exists k :: 0 <= k < |entries| && Contains(key, entries[k].0)
    ensures MapLookup(key, entries).Some? ==>
      exists k :: 0 <= k < |entries| && Contains(key, entries[k].0) && MapLookup(key, entries).value == entries[k].1
        && forall j :: 0 <= j < k ==> !Contains(key, entries[j].0)
    decreases |entries|
  {
    if |entries| > 0 && !Contains(key, entries[0].0) {
      MapLookupSpec(key, entries[1..]);
      assert forall k :: 0 < k < |entries| ==> entries[k] == entries[1..][k - 1];
      if MapLookup(key, entries).Some? {
        var k :| 0 <= k < |entries[1..]| && Contains(key, entries[1..][k].0) && MapLookup(key, entries).value == entries[1..][k].1
          && forall j :: 0 <= j < k ==> !Contains(key, entries[1..][j].0);
        assert Contains(key, entries[k + 1].0);
      }
    }
  }

  /** `acr.replace("\u2013", "-").replace("\u2014", "-")` */
  function Dashes(acr: string): string
  {
    ReplaceChar(ReplaceChar(acr, '\U{2013}', '-'), '\U{2014}', '-')
  }

  /** Steps 2 to 4 of `normalize_responsavel`, on the first chunk `s0`. */
  function ResponsavelOfChunk(s0: string): string
  {
    var acr := FirstAcronym(s0);
    if acr.Some? && acr.value != "" then Dashes(acr.value)
    else
      var ac := MapLookup(Lower(s0), AcronymMap);
      if ac.Some? then ac.value else Title(Strip(Collapse(s0)))
  }

  /** `normalize_responsavel(raw)` */
  function NormalizeResponsavel(raw: Value): string
  {
    if !raw.VStr? then ""
    else
      var s := Strip(raw.s);
      if s == "" then "" else ResponsavelOfChunk(FirstChunkOf(s))
  }

  /** An acronym holds no dash, so the dash replacement keeps it. */
  lemma DashesOfAcronym(w: string)
    requires IsAcronym(w)
    ensures Dashes(w) == w
  {
  }

  /** Every acronym the map gives is an acronym. */
  lemma AcronymMapValues()
    ensures forall k :: 0 <= k < |AcronymMap| ==> IsAcronym(AcronymMap[k].1)
  {
  }

  /** Every connective phrase holds a blank. */
  lemma StopPhrasesBlank()
    ensures forall p :: p in StopPhrases ==> ' ' in p
  {
  }

  /** Case mapping keeps blanks and makes none. */
  lemma TitleSpaced(x: string)
    requires IsSpaced(x)
    ensures IsSpaced(Title(x))
  {
    var r := Title(x);
    forall j | 0 <= j < |x| ensures IsSpace(r[j]) == IsSpace(x[j]) && (x[j] == ' ' ==> r[j] == ' ') {
      LowerKeepsSpace(x[j]);
      LowerUpperLower(x[j]);
    }
  }

  /** `str.title` never leaves two capitals side by side. */
  lemma TitleNoCapsPair(x: string)
    ensures forall j :: 0 <= j < |x| - 1 ==> !(IsAsciiUpper(Title(x)[j]) && IsAsciiUpper(Title(x)[j + 1]))
  {
  }

  /** An acronym holds no blank after lower-casing, so no connective phrase occurs in it. */
  lemma AcronymNoPhrase(w: string)
    requires IsAcronym(w)
    ensures forall p :: p in StopPhrases ==> !Contains(Lower(w), p)
  {
    assert ' ' !in Lower(w);
    forall p | p in StopPhrases ensures !Contains(Lower(w), p) {
      StopPhrasesBlank();
      var k :| 0 <= k < |p| && p[k] == ' ';
      NotContainsChar(Lower(w), p, k);
    }
  }

  /** An acronym is its own strip and its own first chunk. */
  lemma AcronymChunk(w: string)
    requires IsAcronym(w)
    ensures w != "" && Strip(w) == w && FirstChunkOf(w) == w
  {
    assert forall j :: 0 <= j < |w| ==> !IsSpace(w[j]);
    StripNoSpace(w);
    assert FreeOf(w, ChunkSeps);
    AcronymNoPhrase(w);
    FirstChunkClean(w);
  }

  /** Steps 2 to 4 keep an acronym as it is. */
  lemma AcronymChunkKept(w: string)
    requires IsAcronym(w)
    ensures ResponsavelOfChunk(w) == w
  {
    AcronymFixed(w);
    DashesOfAcronym(w);
  }

  /** A stripped text that is its own first chunk and is kept by steps 2 to 4 normalises to itself. */
  lemma ResponsavelOfClean(w: string)
    requires Strip(w) == w && w != "" && FirstChunkOf(w) == w && ResponsavelOfChunk(w) == w
    ensures NormalizeResponsavel(VStr(w)) == w
  {
    NormalizeResponsavelText(w, w, w);
  }

  /** A text whose stripped form `s` is non-blank normalises to the steps 2 to 4 reading of its first chunk `c`. */
  lemma NormalizeResponsavelText(x: string, s: string, c: string)
    requires s == Strip(x) && s != "" && c == FirstChunkOf(s)
    ensures NormalizeResponsavel(VStr(x)) == ResponsavelOfChunk(c)
  {
  }

  /** An acronym is a managing body that normalises to itself. */
  lemma ResponsavelOfAcronym(w: string)
    requires IsAcronym(w)
    ensures NormalizeResponsavel(VStr(w)) == w
  {
    AcronymChunk(w);
    AcronymChunkKept(w);
    ResponsavelOfClean(w);
  }

  /** An acronym starts with two capitals. */
  lemma AcronymStartsCaps(w: string)
    ensures IsAcronym(w) ==> IsAsciiUpper(w[0]) && IsAsciiUpper(w[1])
  {
  }

  /** A title-cased text never reads as an acronym. */
  lemma TitleNotAcronym(x: string)
    ensures !IsAcronym(Title(x))
  {
    TitleNoCapsPair(x);
    AcronymStartsCaps(Title(x));
  }

  /** The title-case fallback is blank-normalised and never reads as an acronym. */
  lemma FallbackShape(s0: string)
    ensures IsSpaced(Title(Strip(Collapse(s0)))) && !IsAcronym(Title(Strip(Collapse(s0))))
  {
    var x := Strip(Collapse(s0));
    CollapseStripSpaced(s0);
    TitleSpaced(x);
    TitleNotAcronym(x);
  }

  /**
   * Steps 2 to 4: the first acronym of the chunk, kept as it is; else the
   * acronym of the first full name the chunk mentions, in map order; else
   * the chunk with its blanks collapsed, in title case, which never reads
   * as an acronym.
   */
  lemma ResponsavelOfChunkCases(s0: string)
    ensures FirstAcronym(s0).Some? ==>
      var r := ResponsavelOfChunk(s0);
      r == FirstAcronym(s0).value && IsAcronym(r) && Contains(s0, r)
    ensures FirstAcronym(s0).None? && MapLookup(Lower(s0), AcronymMap).Some? ==>
      var r := ResponsavelOfChunk(s0);
      IsAcronym(r)
      && exists k :: 0 <= k < |AcronymMap| && Contains(Lower(s0), AcronymMap[k].0) && r == AcronymMap[k].1
           && forall j :: 0 <= j < k ==> !Contains(Lower(s0), AcronymMap[j].0)
    ensures FirstAcronym(s0).None? && MapLookup(Lower(s0), AcronymMap).None? ==>
      IsSpaced(ResponsavelOfChunk(s0)) && !IsAcronym(ResponsavelOfChunk(s0))
  {
    var a := FirstAcronym(s0);
    if a.Some? {
      assert IsAcronym(a.value) && Contains(s0, a.value) by { FirstAcronymSpec(s0); }
      DashesOfAcronym(a.value);
    } else if MapLookup(Lower(s0), AcronymMap).Some? {
      AcronymMapValues();
      MapLookupSpec(Lower(s0), AcronymMap);
    } else {
      FallbackShape(s0);
    }
  }

  /** `normalize_responsavel`: empty for a non-string or blank body, else steps 2 to 4 on the first chunk. */
  lemma NormalizeResponsavelCases(raw: Value)
    ensures !raw.VStr? || Strip(raw.s) == "" ==> NormalizeResponsavel(raw) == ""
    ensures raw.VStr? && Strip(raw.s) != "" ==>
      NormalizeResponsavel(raw) == ResponsavelOfChunk(FirstChunkOf(Strip(raw.s)))
  {
  }

  /** A managing body normalised to an acronym normalises to the same acronym again. */
  lemma NormalizeResponsavelIdempotent(raw: Value)
    requires IsAcronym(NormalizeResponsavel(raw))
    ensures NormalizeResponsavel(VStr(NormalizeResponsavel(raw))) == NormalizeResponsavel(raw)
  {
    ResponsavelOfAcronym(NormalizeResponsavel(raw));
  }

  // The full name of SEDEME/PA holds a comma; the first chunk never does.

  /** Lower-casing never makes a comma. */
  lemma LowerNoComma(t: string)
    requires ',' !in t
    ensures ',' !in Lower(t)
  {
  }

  /** As written, the SEDEME/PA entry never matches: its name holds a comma, and the first chunk is cut at every comma. */
  lemma SedemeNeverMatches(text: string)
    ensures !Contains(Lower(FirstChunkOf(text)), AcronymMap[9].0)
  {
    var s := CutAll(text, StopPhrases);
    var k := FirstIn(s, ChunkSeps);
    var c := Strip(s[..k]);
    assert c == FirstChunkOf(text);
    FirstChunkFree(s, k);
    CommaFree(c);
    LowerNoComma(c);
    SedemeComma(AcronymMap[9].0);
    NotContainsChar(Lower(c), AcronymMap[9].0, 49);
  }

  lemma CommaFree(c: string)
    requires FreeOf(c, ChunkSeps)
    ensures ',' !in c
  {
    assert ',' in ChunkSeps;
  }

  lemma SedemeComma(name: string)
    requires name == AcronymMap[9].0
    ensures |name| > 49 && name[49] == ','
  {
  }

  /** Steps 2 to 4 with the full names also looked up in `cut`, the text cut at the connective phrases only. */
  function ResponsavelOfChunkFixed(s0: string, cut: string): string
  {
    var acr := FirstAcronym(s0);
    if acr.Some? && acr.value != "" then Dashes(acr.value)
    else
      var ac := MapLookup(Lower(s0), AcronymMap);
      if ac.Some? then ac.value
      else
        var whole := MapLookup(Lower(cut), AcronymMap);
        if whole.Some? then whole.value else Title(Strip(Collapse(s0)))
  }

  /** `normalize_responsavel` with comma-holding full names looked up before the text is cut at separators. */
  function NormalizeResponsavelFixed(raw: Value): string
  {
    if !raw.VStr? then ""
    else
      var s := Strip(raw.s);
      if s == "" then "" else ResponsavelOfChunkFixed(FirstChunkOf(s), Strip(CutAll(s, StopPhrases)))
  }

  /** Where the written fourth step gives an acronym, the corrected one gives the same. */
  lemma ChunkFixedAgrees(s0: string, cut: string)
    ensures IsAcronym(ResponsavelOfChunk(s0)) ==> ResponsavelOfChunkFixed(s0, cut) == ResponsavelOfChunk(s0)
  {
    var acr := FirstAcronym(s0);
    if !(acr.Some? && acr.value != "") && MapLookup(Lower(s0), AcronymMap).None? {
      FallbackShape(s0);
    }
  }

  /** The first listed full name contained in the lower-cased `key`, when that is entry `k`. */
  lemma MapLookupAt(key: string, entries: seq<(string, string)>, k: nat)
    requires k < |entries| && Contains(key, entries[k].0)
    requires forall j :: 0 <= j < k ==> !Contains(key, entries[j].0)
    ensures MapLookup(key, entries) == Some(entries[k].1)
  {
    MapLookupSpec(key, entries);
    var m :| 0 <= m < |entries| && Contains(key, entries[m].0) && MapLookup(key, entries).value == entries[m].1
      && forall j :: 0 <= j < m ==> !Contains(key, entries[j].0);
    assert m == k;
  }

  /** With the correction, a phrase-cut text naming SEDEME/PA, and no full name listed before it, gets that acronym. */
  lemma ChunkFixedSedeme(s0: string, cut: string)
    requires FirstAcronym(s0).None? && MapLookup(Lower(s0), AcronymMap).None?
    requires Contains(Lower(cut), AcronymMap[9].0)
    requires forall j :: 0 <= j < 9 ==> !Contains(Lower(cut), AcronymMap[j].0)
    ensures ResponsavelOfChunkFixed(s0, cut) == "SEDEME/PA"
  {
    MapLookupAt(Lower(cut), AcronymMap, 9);
  }

  /**
   * The correction changes only the title-case fallback: whenever the
   * written code finds an acronym or a full name it gives the same answer,
   * and a text whose phrase-cut form names SEDEME/PA (and no full name
   * listed before it) now gets that acronym.
   */
  lemma NormalizeResponsavelFixedSpec(raw: Value)
    ensures IsAcronym(NormalizeResponsavel(raw)) ==> NormalizeResponsavelFixed(raw) == NormalizeResponsavel(raw)
    ensures !raw.VStr? || Strip(raw.s) == "" ==> NormalizeResponsavelFixed(raw) == ""
  {
    NormalizeResponsavelCases(raw);
    if raw.VStr? && Strip(raw.s) != "" {
      var s := Strip(raw.s);
      ChunkFixedAgrees(FirstChunkOf(s), Strip(CutAll(s, StopPhrases)));
    }
  }

  // ---------------------------------------------------------------------
  // Per-policy summaries: one optional line per row, at most eight lines
  // ---------------------------------------------------------------------

  /** `r.get(col, "")` on a row of a policy table. */
  function Field(r: Row<Value>, col: string): Value
  {
    if col in r then r[col] else VStr("")
  }

  /** `str(v or "").strip()`: a falsy cell reads as the empty text, a NaN cell as "nan". */
  function CellText(v: Value): (t: string)
    ensures IsStripped(t)
    ensures !Truthy(v) ==> t == ""
    ensures v.VStr? ==> t == Strip(v.s)
  {
    Strip(Str(Or(v, VStr(""))))
  }

  /** The cell text with missing (NaN) cells read as blank, as the summaries evidently intend. */
  function CellTextFixed(v: Value): (t: string)
    ensures IsStripped(t)
    ensures v.VNaN? ==> t == ""
    ensures !v.VNaN? ==> t == CellText(v)
  {
    if v.VNaN? then "" else CellText(v)
  }

  /** The lines kept, in row order: `line(r)` for every row where it is present. */
  function Lines(rows: seq<Row<Value>>, line: Row<Value> -> Option<string>): (r: seq<string>)
    ensures |r| <= |rows|
    decreases |rows|
  {
    if |rows| == 0 then []
    else
      var l := line(rows[|rows| - 1]);
      Lines(rows[..|rows| - 1], line) + (if l.Some? then [l.value] else [])
  }

  /** Wrapping the lines gives exactly the present results, in order. */
  lemma {:induction false} LinesArePresentResults(rows: seq<Row<Value>>, line: Row<Value> -> Option<string>)
    ensures Map(Lines(rows, line), (x: string) => Some(x)) == Filter(Map(rows, line), (o: Option<string>) => o.Some?)
    decreases |rows|
  {
    var wrap := (x: string) => Some(x);
    var present := (o: Option<string>) => o.Some?;
    if |rows| > 0 {
      var init := rows[..|rows| - 1];
      var last := rows[|rows| - 1];
      LinesArePresentResults(init, line);
      assert rows == init + [last];
      MapSnoc(init, last, line);
      FilterSnoc(Map(init, line), line(last), present);
      if line(last).Some? {
        MapSnoc(Lines(init, line), line(last).value, wrap);
      } else {
        assert Lines(rows, line) == Lines(init, line);
      }
    }
  }

  /** `parts[:8]`: the first eight lines. */
  function FirstEight(parts: seq<string>): (r: seq<string>)
    ensures |r| <= 8 && |r| <= |parts| && r == parts[..|r|]
    ensures |parts| <= 8 ==> r == parts
    ensures |parts| > 8 ==> |r| == 8
  {
    if |parts| <= 8 then parts else parts[..8]
  }

  // summarize_requirements

  /** What `strip("- ")` removes. */
  const DashChars: set<char> := {'-', ' '}

  /** Lower-cased mandatory flags that mark a requirement as mandatory. */
  const MandatoryYes: set<string> := {"y", "yes", "sim", "true", "1"}

  const MandatoryNote: string := " (obrigat\U{f3}rio)"

  /** The requirement's text: its name when there is one, otherwise its description. */
  function ReqText(r: Row<Value>, text: Value -> string): (t: string)
    ensures IsStripped(t)
    ensures text(Field(r, "requirement_name")) != "" ==> t == Strip(text(Field(r, "requirement_name")))
    ensures text(Field(r, "requirement_name")) == "" ==> t == Strip(text(Field(r, "requirement_description")))
  {
    var name := text(Field(r, "requirement_name"));
    var desc := text(Field(r, "requirement_description"));
    Strip(if name != "" then name else if desc != "" then desc else "")
  }

  /** A mandatory flag that marks its requirement as mandatory. */
  predicate IsYes(flag: string)
  {
    flag != "" && Lower(flag) in MandatoryYes
  }

  predicate Mandatory(r: Row<Value>, text: Value -> string)
  {
    IsYes(text(Field(r, "mandatory_flag")))
  }

  /** The line for a requirement text and its mandatory flag. */
  function DashLine(t: string, flag: string): Option<string>
  {
    var txt := "- " + t;
    if Strip(StripChars(txt, DashChars)) == "" then None
    else Some(if IsYes(flag) then txt + MandatoryNote else txt)
  }

  /** One requirement row: dropped when nothing but dashes and blanks is left, marked when mandatory. */
  function ReqLine(r: Row<Value>, text: Value -> string): Option<string>
  {
    DashLine(ReqText(r, text), text(Field(r, "mandatory_flag")))
  }

  /** The summary text `summarize_requirements` returns. */
  function RequirementsSummary(rows: seq<Row<Value>>, text: Value -> string): string
  {
    Join(FirstEight(Lines(rows, r => ReqLine(r, text))), "\n")
  }

  /** `summarize_requirements` over the rows of one policy, with `text` reading a cell. */
  method SummarizeRequirements(rows: seq<Row<Value>>, text: Value -> string) returns (out: string)
    ensures out == RequirementsSummary(rows, text)
  {
    var parts: seq<string> := [];
    for i := 0 to |rows|
      invariant parts == Lines(rows[..i], r => ReqLine(r, text))
    {
      assert rows[..i + 1][..i] == rows[..i];
      var txt := "- " + ReqText(rows[i], text);
      if Strip(StripChars(txt, DashChars)) != "" {
        if Mandatory(rows[i], text) {
          txt := txt + MandatoryNote;
        }
        parts := parts + [txt];
      }
    }
    assert rows[..|rows|] == rows;
    out := Join(FirstEight(parts), "\n");
  }

  /** A dash line whose text is only dashes and spaces is blank once its dashes and spaces are stripped. */
  lemma DashLineBlank(t: string)
    requires forall j :: 0 <= j < |t| ==> t[j] in DashChars
    ensures Strip(StripChars("- " + t, DashChars)) == ""
  {
    var txt := "- " + t;
    forall j | 0 <= j < |txt|
      ensures txt[j] in DashChars
    {
      if j >= 2 {
        assert txt[j] == t[j - 2];
      }
    }
    StripCharsAll(txt, DashChars);
  }

  /** A dash line whose text holds any other non-blank character is kept. */
  lemma DashLineKept(t: string, j: nat)
    requires j < |t| && t[j] != '-' && !IsSpace(t[j])
    ensures Strip(StripChars("- " + t, DashChars)) != ""
  {
    var txt := "- " + t;
    assert txt[j + 2] == t[j];
    assert t[j] !in DashChars;
    StripCharsKeeps(txt, DashChars, j + 2);
    var x := StripChars(txt, DashChars);
    var q :| 0 <= q < |x| && x[q] == t[j];
    StripKeepsNonBlank(x, q);
  }

  /**
   * When a requirement gets a line: never when its text is only dashes and
   * spaces, always when its text holds another non-blank character; a
   * present line is the dash, the text, and the note exactly when the row
   * is mandatory.
   */
  lemma ReqLineSpec(r: Row<Value>, text: Value -> string)
    ensures var t := ReqText(r, text);
      (forall j :: 0 <= j < |t| ==> t[j] in DashChars) ==> ReqLine(r, text).None?
    ensures var t := ReqText(r, text);
      (exists j :: 0 <= j < |t| && t[j] != '-' && !IsSpace(t[j])) ==> ReqLine(r, text).Some?
    ensures ReqLine(r, text).Some? ==>
      ReqLine(r, text).value == "- " + ReqText(r, text) + (if Mandatory(r, text) then MandatoryNote else "")
  {
    var t := ReqText(r, text);
    if forall j :: 0 <= j < |t| ==> t[j] in DashChars {
      DashLineBlank(t);
    }
    if exists j :: 0 <= j < |t| && t[j] != '-' && !IsSpace(t[j]) {
      var j :| 0 <= j < |t| && t[j] != '-' && !IsSpace(t[j]);
      DashLineKept(t, j);
    }
    if !Mandatory(r, text) {
      assert "- " + t + "" == "- " + t;
    }
  }

  /** The summary keeps at most eight lines, all of them requirement lines of the rows, in row order. */
  lemma RequirementsSummarySpec(rows: seq<Row<Value>>, text: Value -> string)
    ensures var kept := FirstEight(Lines(rows, r => ReqLine(r, text)));
      RequirementsSummary(rows, text) == Join(kept, "\n") && |kept| <= 8
      && Map(Lines(rows, r => ReqLine(r, text)), (x: string) => Some(x))
         == Filter(Map(rows, r => ReqLine(r, text)), (o: Option<string>) => o.Some?)
  {
    LinesArePresentResults(rows, r => ReqLine(r, text));
  }

  /** "nan" is its own strip and holds no dash. */
  lemma NanText()
    ensures CellText(VNaN) == "nan"
  {
    assert Or(VNaN, VStr("")) == VNaN;
    assert Str(VNaN) == "nan";
    NanStripped();
  }

  lemma NanStripped()
    ensures Strip("nan") == "nan"
  {
    var s := "nan";
    assert s[0] == 'n' && s[1] == 'a' && s[2] == 'n' && |s| == 3;
    assert !IsSpace(s[0]) && !IsSpace(s[1]) && !IsSpace(s[2]);
    StripNoSpace(s);
  }

  /** A requirement with neither a name nor a description gets no line. */
  lemma ReqLineNoText(r: Row<Value>, text: Value -> string)
    requires text(Field(r, "requirement_name")) == "" && text(Field(r, "requirement_description")) == ""
    ensures ReqLine(r, text).None?
  {
    assert Strip("") == "";
    DashLineBlank(ReqText(r, text));
  }

  /** A requirement whose stripped name starts with neither a dash nor a blank gets a line starting with that name. */
  lemma NamedRequirementLine(r: Row<Value>, text: Value -> string)
    requires var n := Strip(text(Field(r, "requirement_name"))); n != "" && n[0] != '-'
    ensures ReqLine(r, text).Some?
    ensures StartsWith(ReqLine(r, text).value, "- " + Strip(text(Field(r, "requirement_name"))))
  {
    var t := ReqText(r, text);
    assert t[0] != '-' && !IsSpace(t[0]);
    ReqLineSpec(r, text);
    var v := ReqLine(r, text).value;
    assert v == "- " + t + (if Mandatory(r, text) then MandatoryNote else "");
    assert v[..|"- " + t|] == "- " + t;
  }

  /** Two ways of reading cells that agree on a row's three cells give it the same line. */
  lemma ReqLineSameCells(r: Row<Value>, f: Value -> string, g: Value -> string)
    requires f(Field(r, "requirement_name")) == g(Field(r, "requirement_name"))
    requires f(Field(r, "requirement_description")) == g(Field(r, "requirement_description"))
    requires f(Field(r, "mandatory_flag")) == g(Field(r, "mandatory_flag"))
    ensures ReqLine(r, f) == ReqLine(r, g)
  {
    assert ReqText(r, f) == ReqText(r, g);
  }

  /** A missing cell reads as "nan", which starts with a letter. */
  lemma NanCell(v: Value)
    requires v.VNaN?
    ensures CellText(v) == "nan" && CellText(v)[0] == 'n' && CellText(v)[|CellText(v)| - 1] == 'n'
  {
    NanText();
  }

  lemma DashNan(v: string, n: string)
    requires n == "nan" && StartsWith(v, "- " + n)
    ensures StartsWith(v, "- nan")
  {
  }

  /** As written, a requirement whose name cell is missing (NaN) is listed as "- nan". */
  lemma NanRequirementListed(r: Row<Value>)
    requires "requirement_name" in r && r["requirement_name"] == VNaN
    ensures ReqLine(r, CellText).Some? && StartsWith(ReqLine(r, CellText).value, "- nan")
  {
    NanCell(Field(r, "requirement_name"));
    ReqNanListed(r, CellText);
  }

  /** A requirement whose name reads as "nan" is listed under that name. */
  lemma ReqNanListed(r: Row<Value>, text: Value -> string)
    requires text(Field(r, "requirement_name")) == "nan"
    ensures ReqLine(r, text).Some? && StartsWith(ReqLine(r, text).value, "- nan")
  {
    NanStripped();
    NamedRequirementLine(r, text);
    DashNan(ReqLine(r, text).value, "nan");
  }

  /**
   * With missing cells read as blank, a requirement whose name and
   * description are both missing gets no line, and rows without missing
   * cells are summarised as before.
   */
  lemma NanRequirementSkipped(r: Row<Value>)
    ensures Field(r, "requirement_name").VNaN? && Field(r, "requirement_description").VNaN? ==>
      ReqLine(r, CellTextFixed).None?
    ensures (!Field(r, "requirement_name").VNaN? && !Field(r, "requirement_description").VNaN?
             && !Field(r, "mandatory_flag").VNaN?) ==> ReqLine(r, CellTextFixed) == ReqLine(r, CellText)
  {
    ReqLineSpec(r, CellTextFixed);
    if !Field(r, "requirement_name").VNaN? && !Field(r, "requirement_description").VNaN?
       && !Field(r, "mandatory_flag").VNaN? {
      ReqLineSameCells(r, CellTextFixed, CellText);
    }
  }

  // financial_blurb

  /** What `strip(": ")` removes. */
  const BlurbChars: set<char> := {':', ' '}

  const BulletMark: char := '\U{2022}'

  /** One financial parameter row: "• name: value" with colons and spaces stripped from its ends. */
  function BlurbLine(r: Row<Value>, text: Value -> string): Option<string>
  {
    var name := text(Field(r, "param_name"));
    var val := text(Field(r, "param_value"));
    if name != "" || val != "" then Some(StripChars([BulletMark] + " " + name + ": " + val, BlurbChars))
    else None
  }

  /** The summary text `financial_blurb` returns. */
  function FinancialSummary(rows: seq<Row<Value>>, text: Value -> string): string
  {
    Join(FirstEight(Lines(rows, r => BlurbLine(r, text))), "\n")
  }

  /** `financial_blurb` over the parameter rows of one policy. */
  method FinancialBlurb(rows: seq<Row<Value>>, text: Value -> string) returns (out: string)
    ensures out == FinancialSummary(rows, text)
  {
    var vals: seq<string> := [];
    for i := 0 to |rows|
      invariant vals == Lines(rows[..i], r => BlurbLine(r, text))
    {
      assert rows[..i + 1][..i] == rows[..i];
      var name := text(Field(rows[i], "param_name"));
      var val := text(Field(rows[i], "param_value"));
      if name != "" || val != "" {
        vals := vals + [StripChars([BulletMark] + " " + name + ": " + val, BlurbChars)];
      }
    }
    assert rows[..|rows|] == rows;
    out := Join(FirstEight(vals), "\n");
  }

  /**
   * A parameter row gets a line exactly when its name or value is non-empty;
   * the line always starts with the bullet, is "• name: value" when the
   * value ends in neither a colon nor a space, and "• name" when the value
   * is empty and the name ends in neither.
   */
  lemma BlurbLineSpec(r: Row<Value>, text: Value -> string)
    ensures var name := text(Field(r, "param_name")); var val := text(Field(r, "param_value"));
      BlurbLine(r, text).Some? <==> name != "" || val != ""
    ensures BlurbLine(r, text).Some? ==> |BlurbLine(r, text).value| > 0 && BlurbLine(r, text).value[0] == BulletMark
    ensures var name := text(Field(r, "param_name")); var val := text(Field(r, "param_value"));
      val != "" && val[|val| - 1] !in BlurbChars ==> BlurbLine(r, text) == Some([BulletMark] + " " + name + ": " + val)
    ensures var name := text(Field(r, "param_name")); var val := text(Field(r, "param_value"));
      val == "" && name != "" && name[|name| - 1] !in BlurbChars ==> BlurbLine(r, text) == Some([BulletMark] + " " + name)
  {
    var name := text(Field(r, "param_name"));
    var val := text(Field(r, "param_value"));
    var full := [BulletMark] + " " + name + ": " + val;
    if name != "" || val != "" {
      assert full[0] == BulletMark;
      StripCharsHead(full, BlurbChars);
      if val != "" && val[|val| - 1] !in BlurbChars {
        assert full[|full| - 1] == val[|val| - 1];
        StripCharsTail(full, "", BlurbChars);
        assert full + "" == full;
      }
      if val == "" && name != "" && name[|name| - 1] !in BlurbChars {
        var head := [BulletMark] + " " + name;
        assert full == head + ": ";
        assert head[|head| - 1] == name[|name| - 1];
        StripCharsTail(head, ": ", BlurbChars);
      }
    }
  }

  /** The blurb keeps at most eight lines, all of them parameter lines of the rows, in row order. */
  lemma FinancialSummarySpec(rows: seq<Row<Value>>, text: Value -> string)
    ensures var kept := FirstEight(Lines(rows, r => BlurbLine(r, text)));
      FinancialSummary(rows, text) == Join(kept, "\n") && |kept| <= 8
      && Map(Lines(rows, r => BlurbLine(r, text)), (x: string) => Some(x))
         == Filter(Map(rows, r => BlurbLine(r, text)), (o: Option<string>) => o.Some?)
  {
    LinesArePresentResults(rows, r => BlurbLine(r, text));
  }

  /** As written, a named parameter whose value cell is missing (NaN) is shown with the value "nan". */
  lemma NanValueShown(r: Row<Value>, name: string)
    requires Field(r, "param_name") == VStr(name) && IsStripped(name) && name != "" && name[|name| - 1] != ':'
    requires "param_value" in r && r["param_value"] == VNaN
    ensures BlurbLine(r, CellText) == Some([BulletMark] + " " + name + ": nan")
  {
    CellTextOfStripped(name);
    NanCell(Field(r, "param_value"));
    BlurbNan(r, CellText, name);
  }

  /** A parameter whose value reads as "nan" is shown with that value. */
  lemma BlurbNan(r: Row<Value>, text: Value -> string, name: string)
    requires text(Field(r, "param_name")) == name && text(Field(r, "param_value")) == "nan"
    ensures BlurbLine(r, text) == Some([BulletMark] + " " + name + ": nan")
  {
    var val := text(Field(r, "param_value"));
    assert val[|val| - 1] == 'n';
    BlurbValued(r, text, name, val);
    BulletNan(name, val);
  }

  lemma BlurbValued(r: Row<Value>, text: Value -> string, name: string, val: string)
    requires text(Field(r, "param_name")) == name && text(Field(r, "param_value")) == val
    requires val != "" && val[|val| - 1] !in BlurbChars
    ensures BlurbLine(r, text) == Some([BulletMark] + " " + name + ": " + val)
  {
    BlurbLineSpec(r, text);
  }

  lemma BulletNan(name: string, val: string)
    requires val == "nan"
    ensures [BulletMark] + " " + name + ": " + val == [BulletMark] + " " + name + ": nan"
  {
  }

  /** With missing cells read as blank, the same parameter is shown by name alone. */
  lemma NanValueDropped(r: Row<Value>, name: string)
    requires Field(r, "param_name") == VStr(name) && IsStripped(name) && name != "" && name[|name| - 1] != ':'
    requires "param_value" in r && r["param_value"] == VNaN
    ensures BlurbLine(r, CellTextFixed) == Some([BulletMark] + " " + name)
  {
    CellTextOfStripped(name);
    FixedCellsOf(Field(r, "param_name"), Field(r, "param_value"), name);
    BlurbNameOnly(r, CellTextFixed, name);
  }

  /** A stripped text cell reads as itself. */
  lemma CellTextOfStripped(x: string)
    requires IsStripped(x)
    ensures CellText(VStr(x)) == x
  {
    StripOfStripped(x);
  }

  /** With missing cells read as blank, a NaN value reads as blank and a stripped name as itself. */
  lemma FixedCellsOf(n: Value, v: Value, name: string)
    requires n.VStr? && CellText(n) == name && IsStripped(name) && name != "" && name[|name| - 1] != ':'
    requires v.VNaN?
    ensures CellTextFixed(v) == "" && CellTextFixed(n) == name && name[|name| - 1] !in BlurbChars
  {
    var e := name[|name| - 1];
    assert !IsSpace(e);
    assert e != ' ' && e != ':';
    NotBlurbChar(e);
  }

  lemma NotBlurbChar(e: char)
    requires e != ' ' && e != ':'
    ensures e !in BlurbChars
  {
  }

  /** A parameter whose value reads as blank is shown by name alone. */
  lemma BlurbNameOnly(r: Row<Value>, text: Value -> string, name: string)
    requires text(Field(r, "param_name")) == name && text(Field(r, "param_value")) == ""
    requires name != "" && name[|name| - 1] !in BlurbChars
    ensures BlurbLine(r, text) == Some([BulletMark] + " " + name)
  {
    BlurbLineSpec(r, text);
  }

  // ---------------------------------------------------------------------
  // build_howto
  // ---------------------------------------------------------------------

  /** The output columns `build_howto` looks at, in the order its tips appear. */
  const HowtoFields: seq<string> := ["criterios", "info_url", "contact_site", "phone", "email"]

  /** The cell is a string that is not blank. */
  predicate Present(row: Row<Value>, col: string)
  {
    col in row && row[col].VStr? && Strip(row[col].s) != ""
  }

  /** Field `k` of `HowtoFields` is present. */
  predicate PresentAt(row: Row<Value>, k: nat)
  {
    k < |HowtoFields| && Present(row, HowtoFields[k])
  }

  /** The tip for field `k` of `HowtoFields`; phone numbers and e-mails are quoted unstripped. */
  function Tip(row: Row<Value>, k: nat): string
  {
    if k == 0 then "Confira os crit\U{e9}rios listados."
    else if k == 1 then "Acesse a p\U{e1}gina oficial (Mais informa\U{e7}\U{f5}es)."
    else if k == 2 then "Use o site de atendimento informado."
    else if k == 3 then "Telefones: " + Str(Field(row, "phone")) + "."
    else "E-mails: " + Str(Field(row, "email")) + "."
  }

  function IfPresent(row: Row<Value>, k: nat): seq<string>
  {
    if PresentAt(row, k) then [Tip(row, k)] else []
  }

  /** The tips `build_howto` collects, one per present field, in the order it tests them. */
  function HowtoTips(row: Row<Value>): seq<string>
  {
    IfPresent(row, 0) + IfPresent(row, 1) + IfPresent(row, 2) + IfPresent(row, 3) + IfPresent(row, 4)
  }

  /** `build_howto`: the tips joined by single spaces. */
  function BuildHowto(row: Row<Value>): string
  {
    Join(HowtoTips(row), " ")
  }

  /** The field positions, in order. */
  const HowtoOrder: seq<nat> := [0, 1, 2, 3, 4]

  /** The tips of the first `k` fields. */
  function TipsUpTo(row: Row<Value>, k: nat): seq<string>
  {
    if k == 0 then [] else TipsUpTo(row, k - 1) + IfPresent(row, k - 1)
  }

  /** Every tip is non-empty. */
  lemma TipNonEmpty(row: Row<Value>, k: nat)
    ensures Tip(row, k) != ""
  {
    if k == 0 {
      assert Tip(row, k)[0] == 'C';
    } else if k == 1 {
      assert Tip(row, k)[0] == 'A';
    } else if k == 2 {
      assert Tip(row, k)[0] == 'U';
    } else if k == 3 {
      assert Tip(row, k)[0] == 'T';
    } else {
      assert Tip(row, k)[0] == 'E';
    }
  }

  /** Joining non-empty parts gives the empty string only for no parts. */
  lemma {:induction false} JoinNonEmpty(parts: seq<string>, sep: string)
    requires forall k :: 0 <= k < |parts| ==> parts[k] != ""
    ensures Join(parts, sep) == "" <==> parts == []
    decreases |parts|
  {
    if |parts| > 1 {
      JoinNonEmpty(parts[1..], sep);
      assert |Join(parts, sep)| >= |parts[0]|;
    }
  }

  /** The first `k` field positions, selected by presence and mapped to their tips. */
  lemma TipsUpToSpec(row: Row<Value>, k: nat)
    requires k <= |HowtoOrder|
    ensures TipsUpTo(row, k) == Map(Filter(HowtoOrder[..k], (j: nat) => PresentAt(row, j)), (j: nat) => Tip(row, j))
  {
    HowtoOrderIds(HowtoOrder);
    TipsUpToOver(row, k, HowtoOrder);
  }

  lemma HowtoOrderIds(order: seq<nat>)
    requires order == HowtoOrder
    ensures forall j :: 0 <= j < |order| ==> order[j] == j
  {
  }

  /** The same over any list of field numbers that counts up from 0. */
  lemma {:induction false} TipsUpToOver(row: Row<Value>, k: nat, order: seq<nat>)
    requires k <= |order| && forall j :: 0 <= j < |order| ==> order[j] == j
    ensures TipsUpTo(row, k) == Map(Filter(order[..k], (j: nat) => PresentAt(row, j)), (j: nat) => Tip(row, j))
  {
    if k > 0 {
      var p: nat -> bool := (j: nat) => PresentAt(row, j);
      var f: nat -> string := (j: nat) => Tip(row, j);
      var last: nat := k - 1;
      TipsUpToOver(row, last, order);
      assert order[..k] == order[..last] + [last];
      MapFilterSnoc<nat, string>(order[..last], last, p, f);
    }
  }

  /** The tips are exactly the tips of the present fields, in field order. */
  lemma HowtoTipsSpec(row: Row<Value>)
    ensures HowtoTips(row) == Map(Filter(HowtoOrder, (j: nat) => PresentAt(row, j)), (j: nat) => Tip(row, j))
  {
    HowtoTipsUpTo(row);
    TipsUpToSpec(row, 5);
    assert HowtoOrder[..5] == HowtoOrder;
  }

  lemma HowtoTipsUpTo(row: Row<Value>)
    ensures HowtoTips(row) == TipsUpTo(row, 5)
  {
    assert TipsUpTo(row, 1) == IfPresent(row, 0);
    assert TipsUpTo(row, 2) == IfPresent(row, 0) + IfPresent(row, 1);
    assert TipsUpTo(row, 3) == IfPresent(row, 0) + IfPresent(row, 1) + IfPresent(row, 2);
    assert TipsUpTo(row, 4) == IfPresent(row, 0) + IfPresent(row, 1) + IfPresent(row, 2) + IfPresent(row, 3);
  }

  /** Every collected tip is non-empty. */
  lemma HowtoTipsNonEmpty(row: Row<Value>)
    ensures forall i :: 0 <= i < |HowtoTips(row)| ==> HowtoTips(row)[i] != ""
  {
    var sel := Filter(HowtoOrder, (j: nat) => PresentAt(row, j));
    var tips := HowtoTips(row);
    HowtoTipsSpec(row);
    forall i | 0 <= i < |tips|
      ensures tips[i] != ""
    {
      MapAt(sel, (j: nat) => Tip(row, j), i);
      TipNonEmpty(row, sel[i]);
    }
  }

  /** No tip is collected exactly when no field is present. */
  lemma HowtoTipsNone(row: Row<Value>)
    ensures HowtoTips(row) == [] <==> forall k :: 0 <= k < |HowtoFields| ==> !PresentAt(row, k)
  {
    HowtoTipsLength(row);
    IfPresentLength(row, 0);
    IfPresentLength(row, 1);
    IfPresentLength(row, 2);
    IfPresentLength(row, 3);
    IfPresentLength(row, 4);
    assert |HowtoFields| == 5;
    if !PresentAt(row, 0) && !PresentAt(row, 1) && !PresentAt(row, 2) && !PresentAt(row, 3) && !PresentAt(row, 4) {
      forall k | 0 <= k < |HowtoFields| ensures !PresentAt(row, k) {
        assert k == 0 || k == 1 || k == 2 || k == 3 || k == 4;
      }
    }
  }

  lemma HowtoTipsLength(row: Row<Value>)
    ensures |HowtoTips(row)| == |IfPresent(row, 0)| + |IfPresent(row, 1)| + |IfPresent(row, 2)|
      + |IfPresent(row, 3)| + |IfPresent(row, 4)|
  {
  }

  lemma IfPresentLength(row: Row<Value>, k: nat)
    ensures |IfPresent(row, k)| == if PresentAt(row, k) then 1 else 0
  {
  }

  /** `build_howto` is empty exactly when none of the five fields is present. */
  lemma BuildHowtoEmpty(row: Row<Value>)
    ensures BuildHowto(row) == "" <==> forall k :: 0 <= k < |HowtoFields| ==> !Present(row, HowtoFields[k])
  {
    HowtoTipsNonEmpty(row);
    JoinNonEmpty(HowtoTips(row), " ");
    HowtoTipsNone(row);
    assert forall k :: 0 <= k < |HowtoFields| ==> (PresentAt(row, k) <==> Present(row, HowtoFields[k]));
  }
}
