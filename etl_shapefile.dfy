/**
 * The input lookup of the IBGE shapefile script: choosing the state (UF)
 * and municipality files among the entries of the raw-data directory, and
 * resolving which columns of each layer hold the identifier, the
 * abbreviation (sigla) and the name. The recursive directory walk is its
 * list of entries, in walk order; a layer is its list of column names and
 * its number of rows.
 */
module EtlShapefile {
  import opened PyStr
  import opened Seqs
  import opened Frames

  // ---------------------------------------------------------------------
  // Directory entries and `Path.suffix`
  // ---------------------------------------------------------------------

  /** One entry of `path.rglob("*")`: its final name and whether it is a regular file. */
  datatype FsEntry = FsEntry(name: string, isFile: bool)

  /** `s.rfind(".")` */
  function LastDot(s: string): (r: Option<nat>)
    ensures r.Some? ==> r.value < |s| && s[r.value] == '.'
                        && forall j :: r.value < j < |s| ==> s[j] != '.'
    ensures r.None? ==> forall j :: 0 <= j < |s| ==> s[j] != '.'
    decreases |s|
  {
    if |s| == 0 then None
    else if s[|s| - 1] == '.' then Some(|s| - 1)
    else LastDot(s[..|s| - 1])
  }

  /**
   * `Path(name).suffix`: from the last dot on, when that dot is neither the
   * first nor the last character; otherwise empty.
   */
  function Suffix(name: string): (r: string)
    ensures r != "" ==> 2 <= |r| < |name| && r == name[|name| - |r|..]
                        && r[0] == '.' && forall j :: 0 < j < |r| ==> r[j] != '.'
    ensures r == "" <==> forall i :: 0 < i < |name| - 1 && name[i] == '.' ==>
                           exists j :: i < j < |name| && name[j] == '.'
  {
    match LastDot(name)
    case None => ""
    case Some(i) => if 0 < i < |name| - 1 then name[i..] else ""
  }

  /** The suffixes `find` accepts, compared after lower-casing. */
  predicate ValidSuffix(x: string)
  {
    x == ".shp" || x == ".gpkg" || x == ".geojson"
  }

  /** The tie-break priority of a lower-cased suffix: .shp over .gpkg over .geojson. */
  function Prio(x: string): (r: nat)
    ensures r <= 3
    ensures ValidSuffix(x) <==> r > 0
  {
    if x == ".shp" then 3 else if x == ".gpkg" then 2 else if x == ".geojson" then 1 else 0
  }

  /** `any(pat in name for pat in patterns)` */
  predicate AnyPatternIn(name: string, patterns: seq<string>)
  {
    exists k :: 0 <= k < |patterns| && Contains(name, patterns[k])
  }

  /** An entry `find` keeps: a file with a valid suffix whose lower-cased name holds a pattern. */
  predicate IsCandidate(e: FsEntry, patterns: seq<string>)
  {
    e.isFile && ValidSuffix(Lower(Suffix(e.name))) && AnyPatternIn(Lower(e.name), patterns)
  }

  function CandidateOf(patterns: seq<string>): FsEntry -> bool
  {
    (e: FsEntry) => IsCandidate(e, patterns)
  }

  /** The candidates, in walk order. */
  function Candidates(files: seq<FsEntry>, patterns: seq<string>): seq<FsEntry>
  {
    Filter(files, CandidateOf(patterns))
  }

  // ---------------------------------------------------------------------
  // The ranking `(len(p.name), prio)`
  // ---------------------------------------------------------------------

  function Rank(e: FsEntry): nat
  {
    Prio(Lower(Suffix(e.name)))
  }

  /** `score(a) > score(b)`: a longer name, or as long with a higher priority. */
  predicate Outranks(a: FsEntry, b: FsEntry)
  {
    |a.name| > |b.name| || (|a.name| == |b.name| && Rank(a) > Rank(b))
  }

  /** `a` goes first in the descending sort: `score(a) >= score(b)`. */
  predicate ByRank(a: FsEntry, b: FsEntry)
  {
    !Outranks(b, a)
  }

  lemma ByRankPreorder()
    ensures TotalPreorder(ByRank)
  {
  }

  /** Every entry `a` of `files` such that no candidate outranks it. */
  predicate Unbeaten(files: seq<FsEntry>, patterns: seq<string>, a: FsEntry)
  {
    forall e :: e in files && IsCandidate(e, patterns) ==> !Outranks(e, a)
  }

  /** `a` occurs at a position before which every candidate ranks strictly lower. */
  predicate FirstOfRank(files: seq<FsEntry>, patterns: seq<string>, a: FsEntry)
  {
    exists i :: 0 <= i < |files| && files[i] == a
                && forall j :: 0 <= j < i && IsCandidate(files[j], patterns) ==> Outranks(a, files[j])
  }

  /**
   * `find(path, patterns)`: `None` without candidates; otherwise the head of
   * the candidates sorted by score in reverse. Python's sort stays stable
   * under `reverse=True`, so the result is the first best-ranked candidate
   * in walk order.
   */
  method Find(files: seq<FsEntry>, patterns: seq<string>) returns (r: Option<FsEntry>)
    ensures r.None? <==> forall i :: 0 <= i < |files| ==> !IsCandidate(files[i], patterns)
    ensures r.Some? ==> r.value in files && IsCandidate(r.value, patterns)
    ensures r.Some? ==> Unbeaten(files, patterns, r.value) && FirstOfRank(files, patterns, r.value)
  {
    var candidates: seq<FsEntry> := [];
    var i := 0;
    while i < |files|
      invariant 0 <= i <= |files|
      invariant candidates == Candidates(files[..i], patterns)
    {
      var p := files[i];
      PrefixSnoc(files, i);
      FilterSnoc(files[..i], p, CandidateOf(patterns));
      if p.isFile && ValidSuffix(Lower(Suffix(p.name))) {
        var name := Lower(p.name);
        if AnyPatternIn(name, patterns) {
          candidates := candidates + [p];
        }
      }
      i := i + 1;
    }
    assert files[..|files|] == files;
    if |candidates| == 0 {
      NoCandidates(files, patterns);
      return None;
    }
    var sorted := SortBy(candidates, ByRank);
    HeadIsFirstBest(files, patterns);
    r := Some(sorted[0]);
  }

  lemma NoCandidates(files: seq<FsEntry>, patterns: seq<string>)
    requires Candidates(files, patterns) == []
    ensures forall i :: 0 <= i < |files| ==> !IsCandidate(files[i], patterns)
  {
    forall i | 0 <= i < |files| ensures !IsCandidate(files[i], patterns) {
      FilterMember(files, CandidateOf(patterns), files[i]);
    }
  }

  /** The head of the descending sort is a candidate, unbeaten, and the first of its rank. */
  lemma HeadIsFirstBest(files: seq<FsEntry>, patterns: seq<string>)
    requires Candidates(files, patterns) != []
    ensures var h := SortBy(Candidates(files, patterns), ByRank)[0];
            h in files && IsCandidate(h, patterns)
            && Unbeaten(files, patterns, h) && FirstOfRank(files, patterns, h)
  {
    var cands := Candidates(files, patterns);
    var h := SortBy(cands, ByRank)[0];
    HeadBest(cands);
    FilterMember(files, CandidateOf(patterns), h);
    forall e | e in files && IsCandidate(e, patterns) ensures !Outranks(e, h) {
      FilterMember(files, CandidateOf(patterns), e);
    }
    HeadFirst(cands);
    HeadFirstInFiles(files, patterns, h);
  }

  /** The head of the sort is one of the sorted elements and ranks at least as high as each. */
  lemma HeadBest(cands: seq<FsEntry>)
    requires cands != []
    ensures var h := SortBy(cands, ByRank)[0];
            h in cands && forall e :: e in cands ==> ByRank(h, e)
  {
    var sorted := SortBy(cands, ByRank);
    var h := sorted[0];
    ByRankPreorder();
    SortBySorted(cands, ByRank);
    SortByPerm(cands, ByRank);
    assert h in multiset(cands) by { assert h in multiset(sorted); }
    forall e | e in cands ensures ByRank(h, e) {
      assert e in multiset(sorted) by { assert e in multiset(cands); }
      var k :| 0 <= k < |sorted| && sorted[k] == e;
      if k > 0 { assert ByRank(sorted[0], sorted[k]); }
    }
  }

  /** Stability: the head is the first element of its rank in the input. */
  lemma HeadFirst(cands: seq<FsEntry>)
    requires cands != []
    ensures var h := SortBy(cands, ByRank)[0];
            Filter(cands, (y: FsEntry) => Equiv(ByRank, y, h)) != []
            && Filter(cands, (y: FsEntry) => Equiv(ByRank, y, h))[0] == h
  {
    var sorted := SortBy(cands, ByRank);
    var h := sorted[0];
    var same := (y: FsEntry) => Equiv(ByRank, y, h);
    ByRankPreorder();
    SortByStable(cands, ByRank, h, same);
    ConsSplit(sorted);
    FilterCons(h, sorted[1..], same);
  }

  lemma HeadFirstInFiles(files: seq<FsEntry>, patterns: seq<string>, h: FsEntry)
    requires h in files && IsCandidate(h, patterns) && Unbeaten(files, patterns, h)
    requires Filter(Candidates(files, patterns), (y: FsEntry) => Equiv(ByRank, y, h)) != []
    requires Filter(Candidates(files, patterns), (y: FsEntry) => Equiv(ByRank, y, h))[0] == h
    ensures FirstOfRank(files, patterns, h)
  {
    var same := (y: FsEntry) => Equiv(ByRank, y, h);
    var i := FirstOfSelection(files, CandidateOf(patterns), same);
    forall j | 0 <= j < i && IsCandidate(files[j], patterns) ensures Outranks(h, files[j]) {
      assert !same(files[j]);
      assert files[j] in files;
    }
  }

  /** The first element of a selection from a selection, located in the original sequence. */
  lemma FirstOfSelection<T>(s: seq<T>, p: T -> bool, q: T -> bool) returns (i: nat)
    requires Filter(Filter(s, p), q) != []
    ensures i < |s| && s[i] == Filter(Filter(s, p), q)[0]
    ensures forall j :: 0 <= j < i && p(s[j]) ==> !q(s[j])
  {
    var both := (y: T) => p(y) && q(y);
    FilterFilter(s, p, q, both);
    i := FilterFirst(s, both);
  }

  // ---------------------------------------------------------------------
  // Locating both layers
  // ---------------------------------------------------------------------

  /** The patterns naming the state layer. */
  const UfPatterns: seq<string> := ["unidades", "uf_", "br_uf", "federacao", "unidade_federacao"]

  /** The patterns naming the municipality layer. */
  const MunPatterns: seq<string> := ["municip", "br_municip", "municipios", "mun_"]

  datatype Inputs = Inputs(uf: FsEntry, mun: FsEntry)

  /**
   * The two lookups and the guard before reading: either one missing raises
   * FileNotFoundError. A walked entry exists, so only a missing match fails.
   */
  method LocateInputs(files: seq<FsEntry>) returns (r: Outcome<Inputs>)
    ensures r.Raises? <==> (forall i :: 0 <= i < |files| ==> !IsCandidate(files[i], UfPatterns))
                           || (forall i :: 0 <= i < |files| ==> !IsCandidate(files[i], MunPatterns))
    ensures r.Raises? ==> r.error == "FileNotFoundError"
    ensures r.Returns? ==> IsCandidate(r.value.uf, UfPatterns) && Unbeaten(files, UfPatterns, r.value.uf)
    ensures r.Returns? ==> IsCandidate(r.value.mun, MunPatterns) && Unbeaten(files, MunPatterns, r.value.mun)
  {
    var uf := Find(files, UfPatterns);
    var mun := Find(files, MunPatterns);
    if uf.None? || mun.None? {
      return Raises("FileNotFoundError");
    }
    r := Returns(Inputs(uf.value, mun.value));
  }

  // ---------------------------------------------------------------------
  // `first_present`
  // ---------------------------------------------------------------------

  /** `{c.lower(): c for c in cols}`: a later column overwrites an earlier one. */
  function LowerIndex(cols: seq<string>): map<string, string>
    decreases |cols|
  {
    if |cols| == 0 then map[]
    else LowerIndex(cols[..|cols| - 1])[Lower(cols[|cols| - 1]) := cols[|cols| - 1]]
  }

  /** Some column equals `cand` case-insensitively. */
  predicate HasColumn(cols: seq<string>, cand: string)
  {
    exists i :: 0 <= i < |cols| && Lower(cols[i]) == Lower(cand)
  }

  /** `c` is the last column whose lower-cased name is `key`. */
  predicate LastWithLower(cols: seq<string>, key: string, c: string)
  {
    exists i :: 0 <= i < |cols| && cols[i] == c && Lower(c) == key
                && forall j :: i < j < |cols| ==> Lower(cols[j]) != key
  }

  /** The lookup holds every lower-cased name, mapped to its last column. */
  lemma {:induction false} LowerIndexKey(cols: seq<string>, key: string)
    ensures key in LowerIndex(cols) <==> exists i :: 0 <= i < |cols| && Lower(cols[i]) == key
    ensures key in LowerIndex(cols) ==> LastWithLower(cols, key, LowerIndex(cols)[key])
    decreases |cols|
  {
    if |cols| > 0 {
      var init := cols[..|cols| - 1];
      var x := cols[|cols| - 1];
      assert cols == init + [x];
      LowerIndexKey(init, key);
      if Lower(x) == key {
        LastColumnWins(init, x);
      } else {
        OtherColumnAdded(init, x, key);
      }
    }
  }

  lemma LastColumnWins(init: seq<string>, x: string)
    ensures LowerIndex(init + [x])[Lower(x)] == x
    ensures LastWithLower(init + [x], Lower(x), x)
  {
    var cols := init + [x];
    assert cols[..|cols| - 1] == init;
    assert cols[|cols| - 1] == x;
  }

  lemma OtherColumnAdded(init: seq<string>, x: string, key: string)
    requires Lower(x) != key
    requires key in LowerIndex(init) <==> exists i :: 0 <= i < |init| && Lower(init[i]) == key
    requires key in LowerIndex(init) ==> LastWithLower(init, key, LowerIndex(init)[key])
    ensures key in LowerIndex(init + [x]) <==> exists i :: 0 <= i < |init + [x]| && Lower((init + [x])[i]) == key
    ensures key in LowerIndex(init + [x]) ==> LastWithLower(init + [x], key, LowerIndex(init + [x])[key])
  {
    var cols := init + [x];
    assert cols[..|cols| - 1] == init;
    assert LowerIndex(cols) == LowerIndex(init)[Lower(x) := x];
    if key in LowerIndex(init) {
      var i :| 0 <= i < |init| && init[i] == LowerIndex(init)[key] && Lower(init[i]) == key
               && forall j :: i < j < |init| ==> Lower(init[j]) != key;
      assert cols[i] == init[i];
      forall j | i < j < |cols| ensures Lower(cols[j]) != key {
        if j < |init| { assert cols[j] == init[j]; }
      }
    }
    if exists i :: 0 <= i < |cols| && Lower(cols[i]) == key {
      var i :| 0 <= i < |cols| && Lower(cols[i]) == key;
      assert i < |init| && cols[i] == init[i];
    }
  }

  /** The first candidate present, by recursion over the candidates. */
  function Present(cols: seq<string>, cands: seq<string>): Option<string>
    decreases |cands|
  {
    if |cands| == 0 then None
    else if Lower(cands[0]) in LowerIndex(cols) then Some(LowerIndex(cols)[Lower(cands[0])])
    else Present(cols, cands[1..])
  }

  /** Candidate `k` is the first one present, and `c` is its last matching column. */
  predicate ChosenFor(cols: seq<string>, cands: seq<string>, k: nat, c: string)
    requires k < |cands|
  {
    (forall j :: 0 <= j < k ==> !HasColumn(cols, cands[j]))
    && LastWithLower(cols, Lower(cands[k]), c)
  }

  /** `first_present` finds the first candidate some column matches, or nothing when none does. */
  lemma {:induction false} PresentSpec(cols: seq<string>, cands: seq<string>)
    ensures Present(cols, cands).None? <==> forall k :: 0 <= k < |cands| ==> !HasColumn(cols, cands[k])
    ensures Present(cols, cands).Some? ==>
              exists k :: 0 <= k < |cands| && ChosenFor(cols, cands, k, Present(cols, cands).value)
    decreases |cands|
  {
    if |cands| > 0 {
      var key := Lower(cands[0]);
      LowerIndexKey(cols, key);
      if key in LowerIndex(cols) {
        assert ChosenFor(cols, cands, 0, Present(cols, cands).value);
      } else {
        var tail := cands[1..];
        PresentSpec(cols, tail);
        assert forall k :: 0 < k < |cands| ==> cands[k] == tail[k - 1];
        if Present(cols, cands).Some? {
          var k :| 0 <= k < |tail| && ChosenFor(cols, tail, k, Present(cols, tail).value);
          assert ChosenFor(cols, cands, k + 1, Present(cols, cands).value) by {
            forall j | 0 <= j < k + 1 ensures !HasColumn(cols, cands[j]) {
              if j > 0 { assert cands[j] == tail[j - 1]; }
            }
          }
        } else {
          forall k | 0 <= k < |cands| ensures !HasColumn(cols, cands[k]) {
            if k > 0 { assert cands[k] == tail[k - 1]; }
          }
        }
      }
    }
  }

  /**
   * `first_present(cols, *cands)`: the original name of the first candidate
   * some column equals case-insensitively, or nothing.
   */
  method FirstPresent(cols: seq<string>, cands: seq<string>) returns (r: Option<string>)
    ensures r == Present(cols, cands)
    ensures r.None? <==> forall k :: 0 <= k < |cands| ==> !HasColumn(cols, cands[k])
    ensures r.Some? ==> exists k :: 0 <= k < |cands| && ChosenFor(cols, cands, k, r.value)
  {
    PresentSpec(cols, cands);
    var low := LowerIndex(cols);
    var i := 0;
    while i < |cands|
      invariant 0 <= i <= |cands|
      invariant Present(cols, cands) == Present(cols, cands[i..])
    {
      var cand := cands[i];
      if Lower(cand) in low {
        assert cands[i..][0] == cand;
        return Some(low[Lower(cand)]);
      }
      assert cands[i..][1..] == cands[i + 1..];
      i := i + 1;
    }
    r := None;
  }

  /**
   * A column name found for non-empty candidates is itself non-empty, so
   * `not col` holds exactly when nothing was found.
   */
  lemma PresentNamed(cols: seq<string>, cands: seq<string>)
    requires forall k :: 0 <= k < |cands| ==> cands[k] != ""
    ensures Present(cols, cands).Some? ==> Present(cols, cands).value != ""
  {
    PresentSpec(cols, cands);
    if Present(cols, cands).Some? {
      var c := Present(cols, cands).value;
      var k :| 0 <= k < |cands| && ChosenFor(cols, cands, k, c);
      assert |Lower(c)| == |Lower(cands[k])|;
    }
  }

  /** `not col` for a looked-up column name. */
  predicate Falsy(o: Option<string>)
  {
    o.None? || o.value == ""
  }

  /** A column whose name matches no candidate changes no lookup. */
  lemma PresentOther(cols: seq<string>, cands: seq<string>, x: string)
    requires forall k :: 0 <= k < |cands| ==> |cands[k]| != |x|
    ensures Present(cols + [x], cands) == Present(cols, cands)
  {
    var k2 := cols + [x];
    assert k2[..|k2| - 1] == cols;
    forall k | 0 <= k < |cands| ensures Lower(cands[k]) != Lower(x) {
      assert |Lower(cands[k])| != |Lower(x)|;
    }
    PresentOtherFrom(cols, cands, x);
  }

  lemma {:induction false} PresentOtherFrom(cols: seq<string>, cands: seq<string>, x: string)
    requires forall k :: 0 <= k < |cands| ==> Lower(cands[k]) != Lower(x)
    ensures Present(cols + [x], cands) == Present(cols, cands)
    decreases |cands|
  {
    if |cands| > 0 {
      var k2 := cols + [x];
      assert k2[..|k2| - 1] == cols;
      assert LowerIndex(k2) == LowerIndex(cols)[Lower(x) := x];
      PresentOtherFrom(cols, cands[1..], x);
    }
  }

  // ---------------------------------------------------------------------
  // Column resolution
  // ---------------------------------------------------------------------

  const UfIdNames: seq<string> := ["CD_UF", "CD_GEOCUF", "ID_UF", "coduf"]
  const UfSiglaNames: seq<string> := ["SIGLA_UF", "SG_UF", "UF"]
  const UfNomeNames: seq<string> := ["NM_UF", "NOME_UF", "NM_ESTADO", "nome"]
  const MunIdNames: seq<string> := ["CD_MUN", "CD_GEOCMU", "ID_MUN", "codmun"]
  const MunNomeNames: seq<string> := ["NM_MUN", "NOME", "NM_MUNIC", "municipio"]
  const MunUfNames: seq<string> := ["SIGLA_UF", "UF", "SG_UF"]
  const MunUfFallbackNames: seq<string> := ["NM_UF", "NOME_UF"]

  /** An identifier column: one of the layer's, or a new one numbered from 1. */
  datatype IdColumn = Existing(name: string) | Numbered(name: string, ids: seq<int>)

  /** `range(1, n + 1)` */
  function Numbering(n: nat): (r: seq<int>)
    ensures |r| == n && forall i :: 0 <= i < n ==> r[i] == i + 1
  {
    seq(n, i => i + 1)
  }

  datatype UfColumns = UfColumns(id: IdColumn, sigla: string, nome: string)
  datatype MunColumns = MunColumns(id: IdColumn, nome: string, ufSigla: string)

  /** The id column when `found` is the lookup's answer. */
  function IdFrom(found: Option<string>, tmp: string, n: nat): IdColumn
  {
    if found.Some? then Existing(found.value) else Numbered(tmp, Numbering(n))
  }

  /** Every candidate name is non-empty. */
  predicate NonEmptyNames(cands: seq<string>)
  {
    forall k :: 0 <= k < |cands| ==> cands[k] != ""
  }

  lemma ColumnNamesNonEmpty()
    ensures NonEmptyNames(UfIdNames) && NonEmptyNames(UfSiglaNames) && NonEmptyNames(UfNomeNames)
    ensures NonEmptyNames(MunIdNames) && NonEmptyNames(MunNomeNames) && NonEmptyNames(MunUfNames)
    ensures NonEmptyNames(MunUfFallbackNames)
    ensures forall k :: 0 <= k < |MunUfFallbackNames| ==> |MunUfFallbackNames[k]| != |"mun_id_tmp"|
  {
  }

  /**
   * The state layer's columns: a missing sigla column raises ValueError; a
   * missing name column falls back to the sigla column; a missing id column
   * is replaced by `uf_id_tmp` holding 1..n.
   */
  method ResolveUfColumns(cols: seq<string>, n: nat) returns (r: Outcome<UfColumns>)
    ensures r.Raises? <==> !HasAny(cols, UfSiglaNames)
    ensures r.Raises? ==> r.error == "ValueError"
    ensures r.Returns? ==> Present(cols, UfSiglaNames) == Some(r.value.sigla)
    ensures r.Returns? && HasAny(cols, UfNomeNames) ==> Present(cols, UfNomeNames) == Some(r.value.nome)
    ensures r.Returns? && !HasAny(cols, UfNomeNames) ==> r.value.nome == r.value.sigla
    ensures r.Returns? ==> r.value.id == IdFrom(Present(cols, UfIdNames), "uf_id_tmp", n)
    ensures r.Returns? ==> r.value.sigla in cols && r.value.nome in cols
  {
    ColumnNamesNonEmpty();
    r := ResolveUfWith(cols, n, UfIdNames, UfSiglaNames, UfNomeNames);
  }

  /** The state-layer resolution for given candidate lists. */
  method ResolveUfWith(cols: seq<string>, n: nat, idNames: seq<string>, sigNames: seq<string>,
                       nomNames: seq<string>) returns (r: Outcome<UfColumns>)
    requires NonEmptyNames(idNames) && NonEmptyNames(sigNames) && NonEmptyNames(nomNames)
    ensures r.Raises? <==> !HasAny(cols, sigNames)
    ensures r.Raises? ==> r.error == "ValueError"
    ensures r.Returns? ==> Present(cols, sigNames) == Some(r.value.sigla)
    ensures r.Returns? && HasAny(cols, nomNames) ==> Present(cols, nomNames) == Some(r.value.nome)
    ensures r.Returns? && !HasAny(cols, nomNames) ==> r.value.nome == r.value.sigla
    ensures r.Returns? ==> r.value.id == IdFrom(Present(cols, idNames), "uf_id_tmp", n)
    ensures r.Returns? ==> r.value.sigla in cols && r.value.nome in cols
  {
    var idCol := FirstPresent(cols, idNames);
    var sigCol := FirstPresent(cols, sigNames);
    var nomCol := FirstPresent(cols, nomNames);
    PresentNamed(cols, idNames);
    PresentNamed(cols, sigNames);
    PresentNamed(cols, nomNames);
    FoundInColumns(cols, sigNames);
    FoundInColumns(cols, nomNames);
    if Falsy(sigCol) {
      return Raises("ValueError");
    }
    if Falsy(nomCol) {
      nomCol := sigCol;
    }
    var id: IdColumn;
    if Falsy(idCol) {
      id := Numbered("uf_id_tmp", Numbering(n));
    } else {
      id := Existing(idCol.value);
    }
    r := Returns(UfColumns(id, sigCol.value, nomCol.value));
  }

  /** Some candidate names a column. */
  predicate HasAny(cols: seq<string>, cands: seq<string>)
  {
    exists k :: 0 <= k < |cands| && HasColumn(cols, cands[k])
  }

  /** A found name is one of the layer's columns. */
  lemma FoundInColumns(cols: seq<string>, cands: seq<string>)
    ensures Present(cols, cands).Some? <==> HasAny(cols, cands)
    ensures Present(cols, cands).Some? ==> Present(cols, cands).value in cols
  {
    PresentSpec(cols, cands);
    if Present(cols, cands).Some? {
      var c := Present(cols, cands).value;
      var k :| 0 <= k < |cands| && ChosenFor(cols, cands, k, c);
      var i :| 0 <= i < |cols| && cols[i] == c && Lower(c) == Lower(cands[k])
               && forall j :: i < j < |cols| ==> Lower(cols[j]) != Lower(cands[k]);
    }
  }

  /** `gdf[name] = ...` adds the column unless the frame already has it. */
  function WithColumn(cols: seq<string>, name: string): seq<string>
  {
    if name in cols then cols else cols + [name]
  }

  /**
   * The municipality layer's columns: a missing name column raises
   * ValueError; a missing id column is replaced by `mun_id_tmp` holding
   * 1..n; a missing state column falls back to NM_UF / NOME_UF, and raises
   * ValueError when neither is there.
   */
  method ResolveMunColumns(cols: seq<string>, n: nat) returns (r: Outcome<MunColumns>)
    ensures r.Raises? <==> !HasAny(cols, MunNomeNames)
                           || (!HasAny(cols, MunUfNames) && !HasAny(cols, MunUfFallbackNames))
    ensures r.Raises? ==> r.error == "ValueError"
    ensures r.Returns? ==> Present(cols, MunNomeNames) == Some(r.value.nome)
    ensures r.Returns? ==> r.value.id == IdFrom(Present(cols, MunIdNames), "mun_id_tmp", n)
    ensures r.Returns? && HasAny(cols, MunUfNames) ==> Present(cols, MunUfNames) == Some(r.value.ufSigla)
    ensures r.Returns? && !HasAny(cols, MunUfNames) ==> Present(cols, MunUfFallbackNames) == Some(r.value.ufSigla)
    ensures r.Returns? ==> r.value.nome in cols && r.value.ufSigla in cols
  {
    ColumnNamesNonEmpty();
    r := ResolveMunWith(cols, n, MunIdNames, MunNomeNames, MunUfNames, MunUfFallbackNames);
  }

  /** The municipality-layer resolution for given candidate lists. */
  method ResolveMunWith(cols: seq<string>, n: nat, idNames: seq<string>, nomNames: seq<string>,
                        ufNames: seq<string>, fallbackNames: seq<string>) returns (r: Outcome<MunColumns>)
    requires NonEmptyNames(idNames) && NonEmptyNames(nomNames) && NonEmptyNames(ufNames)
    requires NonEmptyNames(fallbackNames)
    requires forall k :: 0 <= k < |fallbackNames| ==> |fallbackNames[k]| != |"mun_id_tmp"|
    ensures r.Raises? <==> !HasAny(cols, nomNames) || (!HasAny(cols, ufNames) && !HasAny(cols, fallbackNames))
    ensures r.Raises? ==> r.error == "ValueError"
    ensures r.Returns? ==> Present(cols, nomNames) == Some(r.value.nome)
    ensures r.Returns? ==> r.value.id == IdFrom(Present(cols, idNames), "mun_id_tmp", n)
    ensures r.Returns? && HasAny(cols, ufNames) ==> Present(cols, ufNames) == Some(r.value.ufSigla)
    ensures r.Returns? && !HasAny(cols, ufNames) ==> Present(cols, fallbackNames) == Some(r.value.ufSigla)
    ensures r.Returns? ==> r.value.nome in cols && r.value.ufSigla in cols
  {
    var idCol := FirstPresent(cols, idNames);
    var nomCol := FirstPresent(cols, nomNames);
    var ufCol := FirstPresent(cols, ufNames);
    PresentNamed(cols, idNames);
    PresentNamed(cols, nomNames);
    FoundInColumns(cols, nomNames);
    if Falsy(nomCol) {
      return Raises("ValueError");
    }
    var layer := cols;
    var id: IdColumn;
    if Falsy(idCol) {
      layer := WithColumn(cols, "mun_id_tmp");
      id := Numbered("mun_id_tmp", Numbering(n));
    } else {
      id := Existing(idCol.value);
    }
    ufCol := StateColumn(cols, layer, ufCol, ufNames, fallbackNames);
    if Falsy(ufCol) {
      return Raises("ValueError");
    }
    r := Returns(MunColumns(id, nomCol.value, ufCol.value));
  }

  /**
   * `mun_ufsig`, after the fallback when the first lookup found nothing:
   * the fallback lookup runs on the layer as it is then, which may hold the
   * temporary id column.
   */
  method StateColumn(cols: seq<string>, layer: seq<string>, found: Option<string>,
                     ufNames: seq<string>, fallbackNames: seq<string>) returns (u: Option<string>)
    requires found == Present(cols, ufNames)
    requires layer == cols || layer == WithColumn(cols, "mun_id_tmp")
    requires NonEmptyNames(ufNames) && NonEmptyNames(fallbackNames)
    requires forall k :: 0 <= k < |fallbackNames| ==> |fallbackNames[k]| != |"mun_id_tmp"|
    ensures Falsy(u) <==> !HasAny(cols, ufNames) && !HasAny(cols, fallbackNames)
    ensures HasAny(cols, ufNames) ==> u == Present(cols, ufNames)
    ensures !HasAny(cols, ufNames) ==> u == Present(cols, fallbackNames)
    ensures u.Some? ==> u.value in cols
  {
    PresentNamed(cols, ufNames);
    PresentNamed(cols, fallbackNames);
    FoundInColumns(cols, ufNames);
    FoundInColumns(cols, fallbackNames);
    u := found;
    if Falsy(u) {
      u := FirstPresent(layer, fallbackNames);
      FallbackIgnoresTemp(cols, layer, fallbackNames);
    }
  }

  /** The temporary id column never answers the fallback state lookup. */
  lemma FallbackIgnoresTemp(cols: seq<string>, layer: seq<string>, cands: seq<string>)
    requires layer == cols || layer == WithColumn(cols, "mun_id_tmp")
    requires forall k :: 0 <= k < |cands| ==> |cands[k]| != |"mun_id_tmp"|
    ensures Present(layer, cands) == Present(cols, cands)
  {
    if layer != cols {
      PresentOther(cols, cands, "mun_id_tmp");
    }
  }
}
