/**
 * The policies catalog builder (`make_policies_catalog`): spreadsheet
 * column names are normalised and mapped onto the catalog's columns through
 * an alias table, every sheet is reshaped into the eleven output columns,
 * and the sheets are concatenated, de-duplicated by (id, name) and sorted by
 * name and id.
 *
 * A data frame is held here as pandas holds it, column by column: a map from
 * column name to the column's cells (`Columns`). Reading the files is not
 * modelled: the builder starts from the frames the readers returned.
 */
module EtlCatalog {
  import opened PyStr
  import opened PyValue
  import opened Seqs
  import opened Frames
  import TextUtils
  import EtlDefesos

  // ---------------------------------------------------------------------
  // _norm
  // ---------------------------------------------------------------------

  /** `_norm(s)`: strip, lower-case, every whitespace run made one blank. */
  function Norm(s: string): string
  {
    Collapse(Lower(Strip(s)))
  }

  /** `lstrip` keeps a last character that is not whitespace. */
  lemma LStripKeepsLast(s: string)
    requires |s| > 0 && !IsSpace(s[|s| - 1])
    ensures |LStrip(s)| > 0 && LStrip(s)[|LStrip(s)| - 1] == s[|s| - 1]
  {
    LStripStopsAt(s, |s| - 1);
  }

  /** `re.sub(r"\s+", " ", …)` keeps a last character that is not whitespace. */
  lemma {:induction false} CollapseEnd(x: string)
    requires |x| > 0 && !IsSpace(x[|x| - 1])
    ensures |Collapse(x)| > 0 && Collapse(x)[|Collapse(x)| - 1] == x[|x| - 1]
    decreases |x|
  {
    if IsSpace(x[0]) {
      var s := x[1..];
      assert s[|s| - 1] == x[|x| - 1];
      LStripKeepsLast(s);
      var t := LStrip(s);
      CollapseEnd(t);
      var c := Collapse(t);
      assert Collapse(x) == [' '] + c;
    } else {
      var c := Collapse(x[1..]);
      assert Collapse(x) == [x[0]] + c;
      if |x| > 1 {
        CollapseEnd(x[1..]);
      }
    }
  }

  /** Every character `Collapse` leaves is a blank or a character of its input. */
  lemma {:induction false} CollapseChars(x: string)
    ensures forall i :: 0 <= i < |Collapse(x)| ==> Collapse(x)[i] == ' ' || Collapse(x)[i] in x
    decreases |x|
  {
    if |x| > 0 {
      var t := if IsSpace(x[0]) then LStrip(x[1..]) else x[1..];
      CollapseChars(t);
      assert forall ch :: ch in t ==> ch in x;
    }
  }

  /** Collapsing whitespace in a lower-case text leaves it lower-case. */
  lemma CollapseLower(x: string)
    requires Lower(x) == x
    ensures Lower(Collapse(x)) == Collapse(x)
  {
    CollapseChars(x);
    forall ch | ch in x ensures LowerChar(ch) == ch {
      var i :| 0 <= i < |x| && x[i] == ch;
      assert Lower(x)[i] == LowerChar(x[i]);
    }
  }

  /**
   * A normalised name has no whitespace at the ends, only single blanks
   * inside, and is lower-case.
   */
  lemma NormShape(s: string)
    ensures IsSpaced(Norm(s))
    ensures Lower(Norm(s)) == Norm(s)
  {
    var l := Lower(Strip(s));
    LowerStripped(Strip(s));
    LowerIdempotent(Strip(s));
    CollapseSingleBlanks(l);
    if |l| > 0 {
      CollapseEnd(l);
    }
    CollapseLower(l);
  }

  /** `_norm` is idempotent: a normalised name is its own normalisation. */
  lemma NormIdempotent(s: string)
    ensures Norm(Norm(s)) == Norm(s)
  {
    var t := Norm(s);
    NormShape(s);
    StripOfStripped(t);
    TextUtils.CollapseOfSingleBlanks(t);
  }

  // ---------------------------------------------------------------------
  // ALIASES and _standardize_columns
  // ---------------------------------------------------------------------

  /** One entry of the alias table: a catalog column and the spellings that stand for it. */
  datatype ColumnAlias = ColumnAlias(target: string, variants: seq<string>)

  /** `ALIASES`, in its declaration order. */
  const Aliases: seq<ColumnAlias> := [
    ColumnAlias("policy_id", ["policy_id", "id", "c\U{f3}digo", "codigo", "n\U{fa}mero", "numero", "cod"]),
    ColumnAlias("policy_name", ["policy_name", "pol\U{ed}tica", "politica", "nome", "titulo", "t\U{ed}tulo",
                                "pol\U{ed}ticas p\U{fa}blicas", "politicas publicas"]),
    ColumnAlias("level", ["nivel", "n\U{ed}vel", "coverage_level", "alcance", "abrangencia", "abrang\U{ea}ncia"]),
    ColumnAlias("execution", ["operacionaliza\U{e7}\U{e3}o/aplica\U{e7}\U{e3}o", "execu\U{e7}\U{e3}o",
                              "operacionalizacao", "aplicacao", "como funciona", "implementa\U{e7}\U{e3}o",
                              "implementacao"]),
    ColumnAlias("rights_desc", ["descri\U{e7}\U{e3}o dos direitos", "descricao dos direitos", "beneficios",
                                "benef\U{ed}cios", "o que oferece", "direitos"]),
    ColumnAlias("access", ["acesso", "como acessar", "requisitos gerais", "crit\U{e9}rios gerais",
                           "criterios gerais"]),
    ColumnAlias("internal_org", ["organiza\U{e7}\U{e3}o interna (subprogramas e/ou eixos)", "organizacao interna",
                                 "subprogramas", "eixos", "estrutura interna", "organiza\U{e7}\U{e3}o interna"]),
    ColumnAlias("link", ["link", "url", "site", "fonte", "pagina oficial", "p\U{e1}gina oficial"]),
    ColumnAlias("notes", ["observa\U{e7}\U{f5}es", "observacoes", "notas", "comentarios", "coment\U{e1}rios", "obs"])
  ]

  /** The nine data columns of the catalog, in output order. */
  const DataCols: seq<string> := ["policy_id", "policy_name", "level", "execution", "rights_desc",
                                  "access", "internal_org", "link", "notes"]

  /** `OUTPUT_COLS`: the data columns and the two provenance columns. */
  const OutputCols: seq<string> := DataCols + ["source_file", "source_sheet"]

  /** The alias table's targets are exactly the data columns, in the same order. */
  lemma AliasTargets()
    ensures |Aliases| == |DataCols| && forall k :: 0 <= k < |Aliases| ==> Aliases[k].target == DataCols[k]
  {
  }

  /** `all_names`: the target itself and every normalised variant. */
  function Names(a: ColumnAlias, norm: string -> string): set<string>
  {
    {a.target} + set v | v in a.variants :: norm(v)
  }

  /** The alias table as the inner loop sees it: each target with its set of names. */
  function NameTable(aliases: seq<ColumnAlias>, norm: string -> string): (t: seq<(string, set<string>)>)
    ensures |t| == |aliases| && forall k :: 0 <= k < |aliases| ==> t[k] == (aliases[k].target, Names(aliases[k], norm))
  {
    seq(|aliases|, k requires 0 <= k < |aliases| => (aliases[k].target, Names(aliases[k], norm)))
  }

  /** Index of the first entry at or after `i` whose names contain `cn`. */
  function FirstAliasFrom(cn: string, table: seq<(string, set<string>)>, i: nat): (r: Option<nat>)
    requires i <= |table|
    ensures r.Some? ==> i <= r.value < |table| && cn in table[r.value].1
                        && forall j :: i <= j < r.value ==> cn !in table[j].1
    ensures r.None? ==> forall j :: i <= j < |table| ==> cn !in table[j].1
    decreases |table| - i
  {
    if i == |table| then None
    else if cn in table[i].1 then Some(i)
    else FirstAliasFrom(cn, table, i + 1)
  }

  /** The target the inner loop of `_standardize_columns` settles on for `cn`, or `None`. */
  function MappedTarget(cn: string, table: seq<(string, set<string>)>): Option<string>
  {
    var k := FirstAliasFrom(cn, table, 0);
    if k.Some? then Some(table[k.value].0) else None
  }

  /**
   * The inner loop settles on the target of the first entry whose names
   * contain `cn`, and on nothing exactly when no entry does.
   */
  lemma MappedTargetSpec(cn: string, table: seq<(string, set<string>)>)
    ensures forall k :: (0 <= k < |table| && cn in table[k].1
                         && forall j :: 0 <= j < k ==> cn !in table[j].1) ==> MappedTarget(cn, table) == Some(table[k].0)
    ensures (forall k :: 0 <= k < |table| ==> cn !in table[k].1) <==> MappedTarget(cn, table) == None
    ensures MappedTarget(cn, table).Some? ==> exists k :: 0 <= k < |table| && MappedTarget(cn, table) == Some(table[k].0)
  {
    var m := FirstAliasFrom(cn, table, 0);
    if m.Some? {
      forall k | 0 <= k < |table| && cn in table[k].1 && forall j :: 0 <= j < k ==> cn !in table[j].1
        ensures MappedTarget(cn, table) == Some(table[k].0)
      {
        assert !(m.value < k) && !(k < m.value);
      }
    }
  }

  /**
   * The name `_standardize_columns` gives column `c`: the target of the
   * first alias whose names contain the normalised column (when that target
   * is a non-empty string), otherwise `c` unchanged.
   */
  function StandardBy(c: string, aliases: seq<ColumnAlias>, norm: string -> string): string
  {
    var m := MappedTarget(norm(c), NameTable(aliases, norm));
    if m.Some? && m.value != "" then m.value else c
  }

  /**
   * `_standardize_columns` renames a column to the target of the first
   * alias whose names contain its normalised name (when that target is not
   * empty), keeps every unmatched column as it is, and never invents a
   * name: the result is the column itself or one of the targets.
   */
  lemma StandardBySpec(c: string, aliases: seq<ColumnAlias>, norm: string -> string)
    ensures forall k :: (0 <= k < |aliases| && norm(c) in Names(aliases[k], norm) && aliases[k].target != ""
                         && forall j :: 0 <= j < k ==> norm(c) !in Names(aliases[j], norm)) ==> StandardBy(c, aliases, norm) == aliases[k].target
    ensures (forall k :: 0 <= k < |aliases| ==> norm(c) !in Names(aliases[k], norm)) ==> StandardBy(c, aliases, norm) == c
    ensures StandardBy(c, aliases, norm) == c || exists k :: 0 <= k < |aliases| && StandardBy(c, aliases, norm) == aliases[k].target
  {
    MappedTargetSpec(norm(c), NameTable(aliases, norm));
  }

  /**
   * The inner `for target, variants in ALIASES.items()` loop: the first
   * alias whose names contain `cn` breaks the loop with its target.
   */
  method FindTarget(cn: string, aliases: seq<ColumnAlias>) returns (mapped: Option<string>)
    ensures mapped == MappedTarget(cn, NameTable(aliases, Norm))
  {
    mapped := None;
    var i := 0;
    while i < |aliases|
      invariant 0 <= i <= |aliases|
      invariant FirstAliasFrom(cn, NameTable(aliases, Norm), i) == FirstAliasFrom(cn, NameTable(aliases, Norm), 0)
    {
      var allNames := Names(aliases[i], Norm);
      if cn in allNames {
        mapped := Some(aliases[i].target);
        break;
      }
      i := i + 1;
    }
  }

  /** `c => StandardBy(c, aliases, _norm)`: the name every column gets. */
  function Standardizer(aliases: seq<ColumnAlias>): string -> string
  {
    c => StandardBy(c, aliases, Norm)
  }

  /** One pass of the outer loop: `mapped if mapped else c` for the normalised column. */
  method StandardName(c: string, aliases: seq<ColumnAlias>) returns (name: string)
    ensures name == Standardizer(aliases)(c)
  {
    var cn := Norm(c);
    var mapped := FindTarget(cn, aliases);
    name := if mapped.Some? && mapped.value != "" then mapped.value else c;
  }

  /** The dict built by the loop over the first `i` columns, `std` giving each its name: later entries overwrite. */
  function StandardMap(cols: seq<string>, std: string -> string, i: nat): map<string, string>
    requires i <= |cols|
  {
    if i == 0 then map[]
    else StandardMap(cols, std, i - 1)[cols[i - 1] := std(cols[i - 1])]
  }

  /**
   * The dict has a key for every column seen and nothing else, and maps
   * each column to its standard name.
   */
  lemma {:induction false} StandardMapSpec(cols: seq<string>, std: string -> string, n: nat)
    requires n <= |cols|
    ensures forall i :: 0 <= i < n ==> cols[i] in StandardMap(cols, std, n)
    ensures forall c :: c in StandardMap(cols, std, n) ==> exists i :: 0 <= i < n && cols[i] == c
    ensures forall c :: c in StandardMap(cols, std, n) ==> StandardMap(cols, std, n)[c] == std(c)
  {
    if n > 0 {
      StandardMapSpec(cols, std, n - 1);
    }
  }

  /**
   * `_standardize_columns(cols)`: the dict from every input column to its
   * standard name.
   */
  method StandardizeColumns(cols: seq<string>, aliases: seq<ColumnAlias>) returns (out: map<string, string>)
    ensures out == StandardMap(cols, Standardizer(aliases), |cols|)
  {
    out := map[];
    for i := 0 to |cols|
      invariant out == StandardMap(cols, Standardizer(aliases), i)
    {
      var name := StandardName(cols[i], aliases);
      out := out[cols[i] := name];
    }
  }

  /** The name pandas gives each column once the frame is renamed with that dict. */
  function NewNames(cols: seq<string>, std: string -> string): (names: seq<string>)
    ensures |names| == |cols| && forall i :: 0 <= i < |cols| ==> names[i] == std(cols[i])
  {
    seq(|cols|, i requires 0 <= i < |cols| => std(cols[i]))
  }

  // ---------------------------------------------------------------------
  // The synthesised id: a slug of the name
  // ---------------------------------------------------------------------

  predicate IsAscii(c: char) { c as int < 0x80 }

  /** What the slug pattern `[^a-z0-9]+` does not replace. */
  predicate IsSlugChar(c: char) { IsAsciiLower(c) || IsDigit(c) }

  /** `s` without its leading characters outside `keep`. */
  function SkipOutside(s: string, keep: char -> bool): (r: string)
    ensures |r| <= |s| && r == s[|s| - |r|..]
    ensures |r| == 0 || keep(r[0])
    decreases |s|
  {
    if |s| > 0 && !keep(s[0]) then SkipOutside(s[1..], keep) else s
  }

  /** `re.sub("[^…]+", fill, s)`: every run of characters outside `keep` becomes one `fill`. */
  function ReplaceRuns(s: string, keep: char -> bool, fill: char): (r: string)
    decreases |s|
  {
    if |s| == 0 then ""
    else if keep(s[0]) then [s[0]] + ReplaceRuns(s[1..], keep, fill)
    else [fill] + ReplaceRuns(SkipOutside(s[1..], keep), keep, fill)
  }

  /**
   * After the replacement only kept characters and the filler remain, and
   * the filler never follows itself when it is not a kept character.
   */
  lemma {:induction false} ReplaceRunsShape(s: string, keep: char -> bool, fill: char)
    ensures forall i :: 0 <= i < |ReplaceRuns(s, keep, fill)| ==>
      keep(ReplaceRuns(s, keep, fill)[i]) || ReplaceRuns(s, keep, fill)[i] == fill
    ensures !keep(fill) ==> forall i :: 0 <= i < |ReplaceRuns(s, keep, fill)| - 1 ==>
      !(ReplaceRuns(s, keep, fill)[i] == fill && ReplaceRuns(s, keep, fill)[i + 1] == fill)
    decreases |s|
  {
    if |s| > 0 {
      var t := if keep(s[0]) then s[1..] else SkipOutside(s[1..], keep);
      var h := if keep(s[0]) then s[0] else fill;
      var rest := ReplaceRuns(t, keep, fill);
      ReplaceRunsShape(t, keep, fill);
      assert ReplaceRuns(s, keep, fill) == [h] + rest;
      ConsKeptOrFill(h, rest, keep, fill);
      if !keep(fill) {
        if !keep(s[0]) && |rest| > 0 {
          assert keep(t[0]);
          assert rest[0] == t[0];
        }
        ConsNoDoubleFill(h, rest, fill);
      }
    }
  }

  lemma ConsKeptOrFill(h: char, rest: string, keep: char -> bool, fill: char)
    requires keep(h) || h == fill
    requires forall i :: 0 <= i < |rest| ==> keep(rest[i]) || rest[i] == fill
    ensures forall i :: 0 <= i < |[h] + rest| ==> keep(([h] + rest)[i]) || ([h] + rest)[i] == fill
  {
    assert forall i :: 1 <= i < |[h] + rest| ==> ([h] + rest)[i] == rest[i - 1];
  }

  lemma ConsNoDoubleFill(h: char, rest: string, fill: char)
    requires h == fill && |rest| > 0 ==> rest[0] != fill
    requires forall i :: 0 <= i < |rest| - 1 ==> !(rest[i] == fill && rest[i + 1] == fill)
    ensures forall i :: 0 <= i < |[h] + rest| - 1 ==> !(([h] + rest)[i] == fill && ([h] + rest)[i + 1] == fill)
  {
    assert forall i :: 1 <= i < |[h] + rest| ==> ([h] + rest)[i] == rest[i - 1];
  }

  /**
   * The id synthesised from a name (lines 129-137): strip, drop accents
   * and any other non-ASCII character, lower-case, and replace each run of
   * characters outside `[a-z0-9]` by one `_`.
   */
  function Slug(t: string): string
  {
    ReplaceRuns(Lower(KeepOnly(FoldAccents(Strip(t)), IsAscii)), IsSlugChar, '_')
  }

  /** The replacement with `_` leaves only `[a-z0-9_]`, never `__`, and no whitespace. */
  lemma SlugRunsShape(x: string)
    ensures forall i :: 0 <= i < |ReplaceRuns(x, IsSlugChar, '_')| ==>
      IsSlugChar(ReplaceRuns(x, IsSlugChar, '_')[i]) || ReplaceRuns(x, IsSlugChar, '_')[i] == '_'
    ensures forall i :: 0 <= i < |ReplaceRuns(x, IsSlugChar, '_')| - 1 ==>
      !(ReplaceRuns(x, IsSlugChar, '_')[i] == '_' && ReplaceRuns(x, IsSlugChar, '_')[i + 1] == '_')
    ensures Strip(ReplaceRuns(x, IsSlugChar, '_')) == ReplaceRuns(x, IsSlugChar, '_')
  {
    var s := ReplaceRuns(x, IsSlugChar, '_');
    ReplaceRunsShape(x, IsSlugChar, '_');
    assert !IsSlugChar('_');
    forall i | 0 <= i < |s| ensures !IsSpace(s[i]) {
      assert IsSlugChar(s[i]) || s[i] == '_';
    }
    StripNoSpace(s);
  }

  /** A slug holds only `[a-z0-9_]`, never `__`, and so is its own `strip()`. */
  lemma SlugShape(t: string)
    ensures forall i :: 0 <= i < |Slug(t)| ==> IsSlugChar(Slug(t)[i]) || Slug(t)[i] == '_'
    ensures forall i :: 0 <= i < |Slug(t)| - 1 ==> !(Slug(t)[i] == '_' && Slug(t)[i + 1] == '_')
    ensures Strip(Slug(t)) == Slug(t)
  {
    SlugRunsShape(Lower(KeepOnly(FoldAccents(Strip(t)), IsAscii)));
  }

  // ---------------------------------------------------------------------
  // _normalize_frame
  // ---------------------------------------------------------------------

  /** A frame held column by column, as pandas holds it: each column's cells in row order. */
  type Columns = map<string, seq<Value>>

  /** A missing cell for pandas: `None`, NaN, or the `pd.NA` the fill step writes (held as `VNone`). */
  predicate IsNa(v: Value) { v.VNone? || v.VNaN? }

  /** The cell of row `r` in column `c`, missing when the row has none. */
  function Cell(r: Row<Value>, c: string): Value
  {
    if c in r then r[c] else VNone
  }

  /** `df[c]` of a row frame. */
  function Column(f: Frame<Value>, c: string): (col: seq<Value>)
    ensures |col| == |f.rows| && forall k :: 0 <= k < |f.rows| ==> col[k] == Cell(f.rows[k], c)
  {
    seq(|f.rows|, k requires 0 <= k < |f.rows| => Cell(f.rows[k], c))
  }

  /**
   * `astype(str)`: every cell becomes its text, a missing one included
   * (NaN becomes "nan"). With `keepNa` a missing cell stays missing instead,
   * which is what the drop of empty rows at line 163 expects.
   */
  function AsText(v: Value, keepNa: bool): Value
  {
    if keepNa && IsNa(v) then VNone else VStr(Str(v))
  }

  /** `astype(str).str.strip()` on one cell. */
  function StripCell(v: Value, keepNa: bool): Value
  {
    if keepNa && IsNa(v) then VNone else VStr(Strip(Str(v)))
  }

  /** The synthesised id of one name cell. */
  function SlugCell(v: Value, keepNa: bool): Value
  {
    if keepNa && IsNa(v) then VNone else VStr(Slug(Str(v)))
  }

  function TextCol(col: seq<Value>, keepNa: bool): (r: seq<Value>)
    ensures |r| == |col| && forall k :: 0 <= k < |col| ==> r[k] == AsText(col[k], keepNa)
  {
    seq(|col|, k requires 0 <= k < |col| => AsText(col[k], keepNa))
  }

  function StripCol(col: seq<Value>, keepNa: bool): (r: seq<Value>)
    ensures |r| == |col| && forall k :: 0 <= k < |col| ==> r[k] == StripCell(col[k], keepNa)
  {
    seq(|col|, k requires 0 <= k < |col| => StripCell(col[k], keepNa))
  }

  function SlugCol(col: seq<Value>, keepNa: bool): (r: seq<Value>)
    ensures |r| == |col| && forall k :: 0 <= k < |col| ==> r[k] == SlugCell(col[k], keepNa)
  {
    seq(|col|, k requires 0 <= k < |col| => SlugCell(col[k], keepNa))
  }

  /** A column of `n` copies of `v` (a scalar assigned to a column). */
  function Fill(n: nat, v: Value): (r: seq<Value>)
    ensures |r| == n && forall k :: 0 <= k < n ==> r[k] == v
  {
    seq(n, _ => v)
  }

  /** Stripping twice is stripping once. */
  lemma StripColTwice(col: seq<Value>, keepNa: bool)
    ensures StripCol(StripCol(col, keepNa), keepNa) == StripCol(col, keepNa)
  {
    forall k | 0 <= k < |col| ensures StripCell(StripCell(col[k], keepNa), keepNa) == StripCell(col[k], keepNa) {
      StripIdempotent(Str(col[k]));
    }
  }

  /** Two renamed columns land on the same data column: pandas then holds two columns of that name. */
  predicate DataClash(names: seq<string>)
  {
    exists i, j :: 0 <= i < j < |names| && names[i] == names[j] && names[i] in DataCols
  }

  /** Column `c` is the target of two renamed columns. */
  predicate Repeated(names: seq<string>, c: string)
  {
    exists i, j :: 0 <= i < j < |names| && names[i] == c && names[j] == c
  }

  /**
   * The error a repeated data column raises. With two `policy_id` columns
   * and no `policy_name`, line 139 assigns a two-column frame to one column
   * (`ValueError`); in every other case the first `.str` on a two-column
   * selection fails (`AttributeError`, line 129 or 150).
   */
  function ClashError(names: seq<string>): string
  {
    if Repeated(names, "policy_id") && "policy_name" !in names then "ValueError" else "AttributeError"
  }

  /** `df.rename(columns=…)` over the first `i` columns. */
  function RenamedFrom(f: Frame<Value>, names: seq<string>, i: nat): Columns
    requires |names| == |f.columns| && i <= |names|
  {
    if i == 0 then map[]
    else RenamedFrom(f, names, i - 1)[names[i - 1] := Column(f, f.columns[i - 1])]
  }

  /** Lines 127-139: a missing id is synthesised from the name, then a missing name copied from the id. */
  function WithIdName(d: Columns, keepNa: bool): Columns
  {
    var d1 := if "policy_id" !in d && "policy_name" in d then d["policy_id" := SlugCol(d["policy_name"], keepNa)] else d;
    if "policy_name" !in d1 && "policy_id" in d1 then d1["policy_name" := TextCol(d1["policy_id"], keepNa)] else d1
  }

  /** `df[cols_present]`: only the columns of `keep` (the data columns). */
  function Selected(d: Columns, keep: seq<string>): Columns
  {
    map c | c in d && c in keep :: d[c]
  }

  /** Lines 148-150: every column of `cols` (the data columns) that is present, stripped. */
  function Stripped(d: Columns, cols: seq<string>, keepNa: bool): Columns
  {
    map c | c in d :: if c in cols then StripCol(d[c], keepNa) else d[c]
  }

  /** The sheet name written to `source_sheet`: empty for a file without sheets. */
  function SheetName(sheet: Option<string>): string
  {
    if sheet.Some? then sheet.value else ""
  }

  /** Lines 153-154: the provenance columns. */
  function WithSource(d: Columns, n: nat, file: string, sheet: Option<string>): Columns
  {
    d["source_file" := Fill(n, VStr(file))]["source_sheet" := Fill(n, VStr(SheetName(sheet)))]
  }

  /** Lines 157-159: every column of `cols` (the output columns) that is still absent, filled with `pd.NA`. */
  function Filled(d: Columns, cols: seq<string>, n: nat): Columns
  {
    map c | c in d.Keys + (set o | o in cols) :: if c in d then d[c] else Fill(n, VNone)
  }

  /** The cell in row `k` of column `c`. */
  function CellAt(d: Columns, c: string, k: nat): Value
  {
    if c in d && k < |d[c]| then d[c][k] else VNone
  }

  /** A row with the columns `cols`, cell `c` holding `cell(c)`. */
  function RowOver(cols: seq<string>, cell: string -> Value): (r: Row<Value>)
    ensures forall c :: c in r <==> c in cols
  {
    map c | c in cols :: cell(c)
  }

  /** Two rows over the same columns agree when their cells do. */
  lemma RowOverEqual(cols: seq<string>, cell1: string -> Value, cell2: string -> Value)
    requires forall c :: c in cols ==> cell1(c) == cell2(c)
    ensures RowOver(cols, cell1) == RowOver(cols, cell2)
  {
  }

  /** `df[OUTPUT_COLS]` read row by row. */
  function RowsOf(d: Columns, n: nat): (rows: seq<Row<Value>>)
    ensures |rows| == n
  {
    seq(n, k requires 0 <= k < n => RowOver(OutputCols, c => CellAt(d, c, k)))
  }

  /** What `dropna(subset=["policy_id", "policy_name"], how="all")` keeps. */
  predicate HasIdOrName(r: Row<Value>)
  {
    !IsNa(Cell(r, "policy_id")) || !IsNa(Cell(r, "policy_name"))
  }

  /** The columns of a non-empty sheet once reshaped, before the drop of empty rows. */
  function Shaped(f: Frame<Value>, names: seq<string>, file: string, sheet: Option<string>, keepNa: bool): Columns
    requires |names| == |f.columns|
  {
    var n := |f.rows|;
    var d := WithIdName(RenamedFrom(f, names, |names|), keepNa);
    Filled(WithSource(Stripped(Selected(d, DataCols), DataCols, keepNa), n, file, sheet), OutputCols, n)
  }

  /**
   * `_normalize_frame(df, source_file, source_sheet)`: `keepNa` is false for
   * the code as written and true for the corrected conversion that keeps
   * missing cells missing.
   */
  function NormalizedBy(df: Option<Frame<Value>>, file: string, sheet: Option<string>,
                        aliases: seq<ColumnAlias>, keepNa: bool): Outcome<Frame<Value>>
  {
    if df.None? || Empty(df.value) then Returns(Frame(OutputCols, []))
    else
      var f := df.value;
      var names := NewNames(f.columns, Standardizer(aliases));
      if DataClash(names) then Raises(ClashError(names))
      else Returns(Frame(OutputCols, Filter(RowsOf(Shaped(f, names, file, sheet, keepNa), |f.rows|), HasIdOrName)))
  }

  /** The labels of `cols` looked up in a rename dict. */
  function LookUp(cols: seq<string>, m: map<string, string>): (names: seq<string>)
    requires forall i :: 0 <= i < |cols| ==> cols[i] in m
    ensures |names| == |cols|
  {
    seq(|cols|, i requires 0 <= i < |cols| => m[cols[i]])
  }

  /** Looking the columns up in the dict the loop built gives each column its standard name. */
  lemma LookUpStandard(cols: seq<string>, std: string -> string)
    ensures forall i :: 0 <= i < |cols| ==> cols[i] in StandardMap(cols, std, |cols|)
    ensures LookUp(cols, StandardMap(cols, std, |cols|)) == NewNames(cols, std)
  {
    StandardMapSpec(cols, std, |cols|);
  }

  /** The column labels once `df.rename(columns=_standardize_columns(df.columns))` has run. */
  method RenamedColumns(cols: seq<string>, aliases: seq<ColumnAlias>) returns (names: seq<string>)
    ensures names == NewNames(cols, Standardizer(aliases))
  {
    var renameMap := StandardizeColumns(cols, aliases);
    LookUpStandard(cols, Standardizer(aliases));
    names := LookUp(cols, renameMap);
  }

  /** `df.rename(columns=rename_map)`: each column's cells under its new name. */
  method RenameColumns(f: Frame<Value>, names: seq<string>) returns (d: Columns)
    requires |names| == |f.columns|
    ensures d == RenamedFrom(f, names, |names|)
  {
    d := map[];
    for i := 0 to |f.columns|
      invariant d == RenamedFrom(f, names, i)
    {
      d := d[names[i] := Column(f, f.columns[i])];
    }
  }

  /** The loop at lines 148-150 over `cols` (the data columns). */
  method StripColumns(sel: Columns, cols: seq<string>, keepNa: bool) returns (d: Columns)
    ensures d == Stripped(sel, cols, keepNa)
  {
    d := sel;
    for i := 0 to |cols|
      invariant forall c :: c in d <==> c in sel
      invariant forall c :: c in d ==> d[c] == if c in cols[..i] then StripCol(sel[c], keepNa) else sel[c]
    {
      var c := cols[i];
      if c in d {
        StripColTwice(sel[c], keepNa);
        d := d[c := StripCol(d[c], keepNa)];
      }
      assert cols[..i + 1] == cols[..i] + [c];
    }
    assert cols[..|cols|] == cols;
  }

  /** The loop at lines 157-158 over `cols` (the output columns). */
  method FillColumns(meta: Columns, cols: seq<string>, n: nat) returns (d: Columns)
    ensures d == Filled(meta, cols, n)
  {
    d := meta;
    for i := 0 to |cols|
      invariant forall c :: c in d <==> c in meta || c in cols[..i]
      invariant forall c :: c in d ==> d[c] == if c in meta then meta[c] else Fill(n, VNone)
    {
      var c := cols[i];
      if c !in d {
        d := d[c := Fill(n, VNone)];
      }
      assert cols[..i + 1] == cols[..i] + [c];
    }
    assert cols[..|cols|] == cols;
  }

  /** Lines 127-139: the id synthesised from the name, or the name copied from the id. */
  method AddIdName(d0: Columns, keepNa: bool) returns (d: Columns)
    ensures d == WithIdName(d0, keepNa)
  {
    d := d0;
    if "policy_id" !in d && "policy_name" in d {
      d := d["policy_id" := SlugCol(d["policy_name"], keepNa)];
    }
    if "policy_name" !in d && "policy_id" in d {
      d := d["policy_name" := TextCol(d["policy_id"], keepNa)];
    }
  }

  /**
   * `_normalize_frame`, column assignment by column assignment. A data
   * column that two source columns were renamed to makes pandas hold a
   * frame under that name: assigning it to the name column raises
   * `ValueError`, and its `.str` raises `AttributeError`.
   */
  method NormalizeFrame(df: Option<Frame<Value>>, file: string, sheet: Option<string>,
                        aliases: seq<ColumnAlias>, keepNa: bool) returns (r: Outcome<Frame<Value>>)
    ensures r == NormalizedBy(df, file, sheet, aliases, keepNa)
  {
    if df.None? || Empty(df.value) {
      return Returns(Frame(OutputCols, []));
    }
    var f := df.value;
    var n := |f.rows|;
    var names := RenamedColumns(f.columns, aliases);
    var d := RenameColumns(f, names);
    if DataClash(names) {
      if Repeated(names, "policy_id") && "policy_name" !in names {
        return Raises("ValueError");
      }
      return Raises("AttributeError");
    }
    d := AddIdName(d, keepNa);
    d := map c | c in d && c in DataCols :: d[c];
    d := StripColumns(d, DataCols, keepNa);
    d := d["source_file" := Fill(n, VStr(file))];
    d := d["source_sheet" := Fill(n, VStr(if sheet.Some? then sheet.value else ""))];
    d := FillColumns(d, OutputCols, n);
    var rows := RowsOf(d, n);
    return Returns(Frame(OutputCols, Filter(rows, HasIdOrName)));
  }

  // ---------------------------------------------------------------------
  // What _normalize_frame writes, cell by cell
  // ---------------------------------------------------------------------

  /** Every column holds `n` cells. */
  ghost predicate Uniform(d: Columns, n: nat)
  {
    forall c :: c in d ==> |d[c]| == n
  }

  /**
   * Renaming keeps exactly the new labels, and a label holds the cells of
   * the last source column renamed to it.
   */
  lemma {:induction false} RenamedSpec(f: Frame<Value>, names: seq<string>, n: nat)
    requires |names| == |f.columns| && n <= |names|
    ensures forall c :: c in RenamedFrom(f, names, n) <==> exists i :: 0 <= i < n && names[i] == c
    ensures forall i :: 0 <= i < n && (forall j :: i < j < n ==> names[j] != names[i]) ==>
      RenamedFrom(f, names, n)[names[i]] == Column(f, f.columns[i])
    ensures Uniform(RenamedFrom(f, names, n), |f.rows|)
  {
    RenamedKeys(f, names, n);
    RenamedLast(f, names, n);
    RenamedUniform(f, names, n);
  }

  lemma {:induction false} RenamedKeys(f: Frame<Value>, names: seq<string>, n: nat)
    requires |names| == |f.columns| && n <= |names|
    ensures forall c :: c in RenamedFrom(f, names, n) <==> exists i :: 0 <= i < n && names[i] == c
  {
    if n > 0 {
      RenamedKeys(f, names, n - 1);
      var r := RenamedFrom(f, names, n);
      assert r == RenamedFrom(f, names, n - 1)[names[n - 1] := Column(f, f.columns[n - 1])];
      forall c ensures c in r <==> exists i :: 0 <= i < n && names[i] == c {
        if c in r && c != names[n - 1] {
          assert c in RenamedFrom(f, names, n - 1);
          var i :| 0 <= i < n - 1 && names[i] == c;
          assert 0 <= i < n && names[i] == c;
        }
        if exists i :: 0 <= i < n && names[i] == c {
          var i :| 0 <= i < n && names[i] == c;
          if i < n - 1 {
            assert c in RenamedFrom(f, names, n - 1);
          }
        }
      }
    }
  }

  lemma {:induction false} RenamedLast(f: Frame<Value>, names: seq<string>, n: nat)
    requires |names| == |f.columns| && n <= |names|
    ensures forall i :: 0 <= i < n && (forall j :: i < j < n ==> names[j] != names[i]) ==>
      names[i] in RenamedFrom(f, names, n) && RenamedFrom(f, names, n)[names[i]] == Column(f, f.columns[i])
  {
    if n > 0 {
      RenamedLast(f, names, n - 1);
      RenamedKeys(f, names, n - 1);
      var prev := RenamedFrom(f, names, n - 1);
      assert RenamedFrom(f, names, n) == prev[names[n - 1] := Column(f, f.columns[n - 1])];
      forall i | 0 <= i < n && (forall j :: i < j < n ==> names[j] != names[i])
        ensures names[i] in RenamedFrom(f, names, n) && RenamedFrom(f, names, n)[names[i]] == Column(f, f.columns[i])
      {
        if i < n - 1 {
          assert names[n - 1] != names[i];
          assert forall j :: i < j < n - 1 ==> names[j] != names[i];
          assert names[i] in prev;
          assert prev[names[i]] == Column(f, f.columns[i]);
        }
      }
    }
  }

  lemma {:induction false} RenamedUniform(f: Frame<Value>, names: seq<string>, n: nat)
    requires |names| == |f.columns| && n <= |names|
    ensures Uniform(RenamedFrom(f, names, n), |f.rows|)
  {
    if n > 0 {
      RenamedUniform(f, names, n - 1);
    }
  }

  /** The first source column renamed to `c`, if any. */
  function SourceIndex(names: seq<string>, c: string, i: nat): (r: Option<nat>)
    requires i <= |names|
    ensures r.Some? ==> i <= r.value < |names| && names[r.value] == c && forall j :: i <= j < r.value ==> names[j] != c
    ensures r.None? ==> forall j :: i <= j < |names| ==> names[j] != c
    decreases |names| - i
  {
    if i == |names| then None
    else if names[i] == c then Some(i)
    else SourceIndex(names, c, i + 1)
  }

  /** The cell row `k` of the sheet holds for the output column `c`, if a source column was renamed to `c`. */
  function SourceCell(f: Frame<Value>, names: seq<string>, c: string, k: nat): Option<Value>
    requires |names| == |f.columns| && k < |f.rows|
  {
    var i := SourceIndex(names, c, 0);
    if i.Some? then Some(Cell(f.rows[k], f.columns[i.value])) else None
  }

  /**
   * The cell `_normalize_frame` writes in row `k`, column `c`, read off
   * the source row: the provenance columns hold the file and sheet; a data
   * column holds its source cell as stripped text; a missing id is the slug
   * of the name, a missing name the text of the id; anything else is missing.
   */
  function ExpectedCell(f: Frame<Value>, names: seq<string>, file: string, sheet: Option<string>,
                        keepNa: bool, k: nat, c: string): Value
    requires |names| == |f.columns| && k < |f.rows|
  {
    if c == "source_file" then VStr(file)
    else if c == "source_sheet" then VStr(SheetName(sheet))
    else if c !in DataCols then VNone
    else
      var src := SourceCell(f, names, c, k);
      var id := SourceCell(f, names, "policy_id", k);
      var name := SourceCell(f, names, "policy_name", k);
      if src.Some? then StripCell(src.value, keepNa)
      else if c == "policy_id" && name.Some? then SlugCell(name.value, keepNa)
      else if c == "policy_name" && id.Some? then StripCell(id.value, keepNa)
      else VNone
  }

  /** Under no clash, a data column present after renaming holds its source cells. */
  lemma RenamedData(f: Frame<Value>, names: seq<string>, c: string, k: nat)
    requires |names| == |f.columns| && k < |f.rows| && !DataClash(names) && c in DataCols
    ensures Uniform(RenamedFrom(f, names, |names|), |f.rows|)
    ensures c in RenamedFrom(f, names, |names|) <==> SourceCell(f, names, c, k).Some?
    ensures c in RenamedFrom(f, names, |names|) ==> RenamedFrom(f, names, |names|)[c][k] == SourceCell(f, names, c, k).value
  {
    RenamedSpec(f, names, |names|);
    var i := SourceIndex(names, c, 0);
    if i.Some? {
      assert forall j :: i.value < j < |names| ==> names[j] != names[i.value];
    }
  }

  /** The id and name steps, read off the renamed columns. */
  lemma WithIdNameSpec(d: Columns, n: nat, keepNa: bool, c: string)
    requires Uniform(d, n)
    ensures Uniform(WithIdName(d, keepNa), n)
    ensures c != "policy_id" && c != "policy_name" ==> (c in WithIdName(d, keepNa) <==> c in d)
    ensures c != "policy_id" && c != "policy_name" && c in d ==> WithIdName(d, keepNa)[c] == d[c]
    ensures c == "policy_id" && c in d ==> WithIdName(d, keepNa)[c] == d[c]
    ensures c == "policy_id" && c !in d ==> (c in WithIdName(d, keepNa) <==> "policy_name" in d)
    ensures c == "policy_id" && c !in d && "policy_name" in d ==> WithIdName(d, keepNa)[c] == SlugCol(d["policy_name"], keepNa)
    ensures c == "policy_name" && c in d ==> WithIdName(d, keepNa)[c] == d[c]
    ensures c == "policy_name" && c !in d ==> (c in WithIdName(d, keepNa) <==> "policy_id" in d)
    ensures c == "policy_name" && c !in d && "policy_id" in d ==> WithIdName(d, keepNa)[c] == TextCol(d["policy_id"], keepNa)
  {
  }

  /** The rest of the pipeline, read off the columns after the id and name steps. */
  lemma AfterIdName(w: Columns, n: nat, file: string, sheet: Option<string>, keepNa: bool, c: string, k: nat)
    requires Uniform(w, n) && k < n && c in OutputCols
    ensures CellAt(Filled(WithSource(Stripped(Selected(w, DataCols), DataCols, keepNa), n, file, sheet), OutputCols, n), c, k)
      == if c == "source_file" then VStr(file)
         else if c == "source_sheet" then VStr(SheetName(sheet))
         else if c in w then StripCell(w[c][k], keepNa)
         else VNone
  {
    assert c in DataCols || c == "source_file" || c == "source_sheet";
  }

  /** The provenance cells of a reshaped row. */
  lemma ShapedSource(f: Frame<Value>, names: seq<string>, file: string, sheet: Option<string>, keepNa: bool,
                     k: nat, c: string)
    requires |names| == |f.columns| && k < |f.rows| && (c == "source_file" || c == "source_sheet")
    ensures CellAt(Shaped(f, names, file, sheet, keepNa), c, k) == ExpectedCell(f, names, file, sheet, keepNa, k, c)
  {
    var d := RenamedFrom(f, names, |names|);
    RenamedSpec(f, names, |names|);
    WithIdNameSpec(d, |f.rows|, keepNa, c);
    AfterIdName(WithIdName(d, keepNa), |f.rows|, file, sheet, keepNa, c, k);
  }

  /** A data column other than the id and the name holds its stripped source cell, or nothing. */
  lemma ShapedPlain(f: Frame<Value>, names: seq<string>, file: string, sheet: Option<string>, keepNa: bool,
                    k: nat, c: string)
    requires |names| == |f.columns| && k < |f.rows| && !DataClash(names)
    requires c in DataCols && c != "policy_id" && c != "policy_name"
    ensures CellAt(Shaped(f, names, file, sheet, keepNa), c, k) == ExpectedCell(f, names, file, sheet, keepNa, k, c)
  {
    var d := RenamedFrom(f, names, |names|);
    RenamedData(f, names, c, k);
    WithIdNameSpec(d, |f.rows|, keepNa, c);
    AfterIdName(WithIdName(d, keepNa), |f.rows|, file, sheet, keepNa, c, k);
  }

  /** What the pipeline writes in a data column, read off the renamed columns `d`. */
  function RenamedCell(d: Columns, n: nat, keepNa: bool, k: nat, c: string): Value
    requires Uniform(d, n) && k < n
  {
    if c in d then StripCell(d[c][k], keepNa)
    else if c == "policy_id" && "policy_name" in d then SlugCell(d["policy_name"][k], keepNa)
    else if c == "policy_name" && "policy_id" in d then StripCell(d["policy_id"][k], keepNa)
    else VNone
  }

  /** The id and name steps followed by the stripping, on the renamed columns. */
  lemma IdNameCell(d: Columns, n: nat, keepNa: bool, k: nat, c: string)
    requires Uniform(d, n) && k < n && (c == "policy_id" || c == "policy_name")
    ensures Uniform(WithIdName(d, keepNa), n)
    ensures c in WithIdName(d, keepNa) <==> c in d || "policy_name" in d || "policy_id" in d
    ensures c in WithIdName(d, keepNa) ==> StripCell(WithIdName(d, keepNa)[c][k], keepNa) == RenamedCell(d, n, keepNa, k, c)
  {
    WithIdNameShape(d, n, keepNa);
    if c == "policy_id" && c !in d && "policy_name" in d {
      SlugCellStripped(d["policy_name"][k], keepNa);
    } else if c == "policy_name" && c !in d && "policy_id" in d {
      TextCellStripped(d["policy_id"][k], keepNa);
    }
  }

  /** What the id and name steps leave in the two columns, and that all columns keep their length. */
  lemma WithIdNameShape(d: Columns, n: nat, keepNa: bool)
    requires Uniform(d, n)
    ensures var w := WithIdName(d, keepNa);
      && Uniform(w, n)
      && ("policy_id" in w <==> "policy_id" in d || "policy_name" in d)
      && ("policy_name" in w <==> "policy_id" in d || "policy_name" in d)
      && ("policy_id" in d ==> w["policy_id"] == d["policy_id"])
      && ("policy_name" in d ==> w["policy_name"] == d["policy_name"])
      && ("policy_id" !in d && "policy_name" in d ==> w["policy_id"] == SlugCol(d["policy_name"], keepNa))
      && ("policy_name" !in d && "policy_id" in d ==> w["policy_name"] == TextCol(d["policy_id"], keepNa))
  {
    var d1 := if "policy_id" !in d && "policy_name" in d then d["policy_id" := SlugCol(d["policy_name"], keepNa)] else d;
    assert Uniform(d1, n);
    var w := if "policy_name" !in d1 && "policy_id" in d1 then d1["policy_name" := TextCol(d1["policy_id"], keepNa)] else d1;
    assert w == WithIdName(d, keepNa);
    assert Uniform(w, n);
  }

  /** A synthesised id is already stripped. */
  lemma SlugCellStripped(v: Value, keepNa: bool)
    ensures StripCell(SlugCell(v, keepNa), keepNa) == SlugCell(v, keepNa)
  {
    if !(keepNa && IsNa(v)) {
      var t := Slug(Str(v));
      SlugShape(Str(v));
      assert Strip(t) == t;
      assert Str(VStr(t)) == t;
      assert !IsNa(VStr(t));
    }
  }

  /** Stripping the text of a cell is stripping the cell. */
  lemma TextCellStripped(v: Value, keepNa: bool)
    ensures StripCell(AsText(v, keepNa), keepNa) == StripCell(v, keepNa)
  {
  }

  /** The id and name cells of a reshaped row, read off the renamed columns. */
  lemma ShapedIdNameRenamed(f: Frame<Value>, names: seq<string>, file: string, sheet: Option<string>, keepNa: bool,
                            k: nat, c: string)
    requires |names| == |f.columns| && k < |f.rows| && (c == "policy_id" || c == "policy_name")
    ensures Uniform(RenamedFrom(f, names, |names|), |f.rows|)
    ensures CellAt(Shaped(f, names, file, sheet, keepNa), c, k) == RenamedCell(RenamedFrom(f, names, |names|), |f.rows|, keepNa, k, c)
  {
    var d := RenamedFrom(f, names, |names|);
    RenamedSpec(f, names, |names|);
    IdNameCell(d, |f.rows|, keepNa, k, c);
    AfterIdName(WithIdName(d, keepNa), |f.rows|, file, sheet, keepNa, c, k);
  }

  /** The id and name cells of a reshaped row, read off the source row. */
  lemma ShapedIdName(f: Frame<Value>, names: seq<string>, file: string, sheet: Option<string>, keepNa: bool,
                     k: nat, c: string)
    requires |names| == |f.columns| && k < |f.rows| && !DataClash(names) && (c == "policy_id" || c == "policy_name")
    ensures CellAt(Shaped(f, names, file, sheet, keepNa), c, k) == ExpectedCell(f, names, file, sheet, keepNa, k, c)
  {
    ShapedIdNameRenamed(f, names, file, sheet, keepNa, k, c);
    RenamedData(f, names, "policy_id", k);
    RenamedData(f, names, "policy_name", k);
  }

  lemma ShapedCell(f: Frame<Value>, names: seq<string>, file: string, sheet: Option<string>, keepNa: bool,
                   k: nat, c: string)
    requires |names| == |f.columns| && k < |f.rows| && !DataClash(names) && c in OutputCols
    ensures CellAt(Shaped(f, names, file, sheet, keepNa), c, k) == ExpectedCell(f, names, file, sheet, keepNa, k, c)
  {
    if c == "source_file" || c == "source_sheet" {
      ShapedSource(f, names, file, sheet, keepNa, k, c);
    } else if c == "policy_id" || c == "policy_name" {
      ShapedIdName(f, names, file, sheet, keepNa, k, c);
    } else {
      assert c in DataCols;
      ShapedPlain(f, names, file, sheet, keepNa, k, c);
    }
  }

  /** The rows `_normalize_frame` builds from a sheet, before the drop of empty rows. */
  function ExpectedRows(f: Frame<Value>, names: seq<string>, file: string, sheet: Option<string>,
                        keepNa: bool): (rows: seq<Row<Value>>)
    requires |names| == |f.columns|
    ensures |rows| == |f.rows|
  {
    seq(|f.rows|, k requires 0 <= k < |f.rows| =>
      RowOver(OutputCols, c => if k < |f.rows| then ExpectedCell(f, names, file, sheet, keepNa, k, c) else VNone))
  }

  /** The reshaped columns, read row by row, are the expected rows. */
  lemma ShapedRows(f: Frame<Value>, names: seq<string>, file: string, sheet: Option<string>, keepNa: bool)
    requires |names| == |f.columns| && !DataClash(names)
    ensures RowsOf(Shaped(f, names, file, sheet, keepNa), |f.rows|) == ExpectedRows(f, names, file, sheet, keepNa)
  {
    var d := Shaped(f, names, file, sheet, keepNa);
    forall k | 0 <= k < |f.rows|
      ensures RowsOf(d, |f.rows|)[k] == ExpectedRows(f, names, file, sheet, keepNa)[k]
    {
      var cell1 := c => CellAt(d, c, k);
      var cell2 := c => if k < |f.rows| then ExpectedCell(f, names, file, sheet, keepNa, k, c) else VNone;
      forall c | c in OutputCols
        ensures cell1(c) == cell2(c)
      {
        ShapedCell(f, names, file, sheet, keepNa, k, c);
      }
      RowOverEqual(OutputCols, cell1, cell2);
    }
  }

  // ---------------------------------------------------------------------
  // Properties of _normalize_frame
  // ---------------------------------------------------------------------

  /**
   * An empty or absent sheet gives an empty frame with the output columns; a
   * sheet whose renamed labels repeat a data column raises (`ValueError`
   * when that column is the id and there is no name column, otherwise
   * `AttributeError`); otherwise the
   * result has the output columns and its rows are the expected rows that
   * still carry an id or a name, in sheet order.
   */
  lemma NormalizedSpec(df: Option<Frame<Value>>, file: string, sheet: Option<string>,
                       aliases: seq<ColumnAlias>, keepNa: bool)
    ensures df.None? || Empty(df.value) ==> NormalizedBy(df, file, sheet, aliases, keepNa) == Returns(Frame(OutputCols, []))
    ensures NormalizedBy(df, file, sheet, aliases, keepNa).Raises? <==>
      df.Some? && !Empty(df.value) && DataClash(NewNames(df.value.columns, Standardizer(aliases)))
    ensures NormalizedBy(df, file, sheet, aliases, keepNa).Raises? ==>
      var names := NewNames(df.value.columns, Standardizer(aliases));
      var e := NormalizedBy(df, file, sheet, aliases, keepNa).error;
      (e == "ValueError" || e == "AttributeError") &&
      (e == "ValueError" <==> Repeated(names, "policy_id") && "policy_name" !in names)
    ensures NormalizedBy(df, file, sheet, aliases, keepNa).Returns? ==>
      NormalizedBy(df, file, sheet, aliases, keepNa).value.columns == OutputCols &&
      WellFormed(NormalizedBy(df, file, sheet, aliases, keepNa).value)
    ensures NormalizedBy(df, file, sheet, aliases, keepNa).Returns? && df.Some? && !Empty(df.value) ==>
      NormalizedBy(df, file, sheet, aliases, keepNa).value.rows ==
      Filter(ExpectedRows(df.value, NewNames(df.value.columns, Standardizer(aliases)), file, sheet, keepNa), HasIdOrName)
  {
    NormalizedRaises(df, file, sheet, aliases, keepNa);
    if df.Some? && !Empty(df.value) && NormalizedBy(df, file, sheet, aliases, keepNa).Returns? {
      NormalizedReturns(df.value, file, sheet, aliases, keepNa);
    }
  }

  lemma NormalizedRaises(df: Option<Frame<Value>>, file: string, sheet: Option<string>,
                         aliases: seq<ColumnAlias>, keepNa: bool)
    ensures NormalizedBy(df, file, sheet, aliases, keepNa).Raises? <==>
      df.Some? && !Empty(df.value) && DataClash(NewNames(df.value.columns, Standardizer(aliases)))
    ensures NormalizedBy(df, file, sheet, aliases, keepNa).Raises? ==>
      NormalizedBy(df, file, sheet, aliases, keepNa).error == ClashError(NewNames(df.value.columns, Standardizer(aliases)))
  {
  }

  lemma NormalizedReturns(f: Frame<Value>, file: string, sheet: Option<string>, aliases: seq<ColumnAlias>, keepNa: bool)
    requires !Empty(f) && NormalizedBy(Some(f), file, sheet, aliases, keepNa).Returns?
    ensures NormalizedBy(Some(f), file, sheet, aliases, keepNa).value.columns == OutputCols
    ensures WellFormed(NormalizedBy(Some(f), file, sheet, aliases, keepNa).value)
    ensures NormalizedBy(Some(f), file, sheet, aliases, keepNa).value.rows ==
      Filter(ExpectedRows(f, NewNames(f.columns, Standardizer(aliases)), file, sheet, keepNa), HasIdOrName)
  {
    var r := NormalizedBy(Some(f), file, sheet, aliases, keepNa);
    var names := NewNames(f.columns, Standardizer(aliases));
    ShapedRows(f, names, file, sheet, keepNa);
    var rs := ExpectedRows(f, names, file, sheet, keepNa);
    forall row, c | row in r.value.rows
      ensures c in row <==> c in r.value.columns
    {
      FilterMember(rs, HasIdOrName, row);
    }
  }

  /** A slug as `_normalize_frame` synthesises it: only `[a-z0-9_]`, never `__`. */
  predicate IsSlug(s: string)
  {
    (forall i :: 0 <= i < |s| ==> IsSlugChar(s[i]) || s[i] == '_') &&
    (forall i :: 0 <= i < |s| - 1 ==> !(s[i] == '_' && s[i + 1] == '_'))
  }

  /** A source column was renamed to `c` and its cell in row `k` is not missing. */
  predicate Present(f: Frame<Value>, names: seq<string>, c: string, k: nat)
    requires |names| == |f.columns| && k < |f.rows|
  {
    SourceCell(f, names, c, k).Some? && !IsNa(SourceCell(f, names, c, k).value)
  }

  /** Every cell of an expected row, also outside the output columns (where it is missing). */
  lemma ExpectedRowCell(f: Frame<Value>, names: seq<string>, file: string, sheet: Option<string>, keepNa: bool,
                        k: nat, c: string)
    requires |names| == |f.columns| && k < |f.rows|
    ensures Cell(ExpectedRows(f, names, file, sheet, keepNa)[k], c) == ExpectedCell(f, names, file, sheet, keepNa, k, c)
  {
    if c !in OutputCols {
      assert c !in DataCols && c != "source_file" && c != "source_sheet";
    }
  }

  /** The id and the name are data columns, and neither is a provenance column. */
  lemma IdNameAreData()
    ensures "policy_id" in DataCols && "policy_name" in DataCols
    ensures "policy_id" != "source_file" && "policy_id" != "source_sheet" && "policy_id" != "policy_name"
    ensures "policy_name" != "source_file" && "policy_name" != "source_sheet"
  {
    assert DataCols[0] == "policy_id" && DataCols[1] == "policy_name";
  }

  /** A sheet without a name column gets the id's text as the name. */
  lemma NameCopiesId(f: Frame<Value>, names: seq<string>, file: string, sheet: Option<string>, keepNa: bool, k: nat)
    requires |names| == |f.columns| && k < |f.rows|
    requires SourceCell(f, names, "policy_name", k).None? && SourceCell(f, names, "policy_id", k).Some?
    ensures Cell(ExpectedRows(f, names, file, sheet, keepNa)[k], "policy_name") ==
      Cell(ExpectedRows(f, names, file, sheet, keepNa)[k], "policy_id")
    ensures Cell(ExpectedRows(f, names, file, sheet, keepNa)[k], "policy_id") ==
      StripCell(SourceCell(f, names, "policy_id", k).value, keepNa)
  {
    IdNameAreData();
    ExpectedRowCell(f, names, file, sheet, keepNa, k, "policy_id");
    ExpectedRowCell(f, names, file, sheet, keepNa, k, "policy_name");
  }

  /**
   * A sheet without an id column gets an id synthesised from the name: a slug,
   * or missing when the name is missing and missing cells are kept.
   */
  lemma IdFromName(f: Frame<Value>, names: seq<string>, file: string, sheet: Option<string>, keepNa: bool, k: nat)
    requires |names| == |f.columns| && k < |f.rows|
    requires SourceCell(f, names, "policy_id", k).None? && SourceCell(f, names, "policy_name", k).Some?
    ensures Cell(ExpectedRows(f, names, file, sheet, keepNa)[k], "policy_id") ==
      SlugCell(SourceCell(f, names, "policy_name", k).value, keepNa)
    ensures Cell(ExpectedRows(f, names, file, sheet, keepNa)[k], "policy_id").VStr? <==>
      !(keepNa && IsNa(SourceCell(f, names, "policy_name", k).value))
    ensures Cell(ExpectedRows(f, names, file, sheet, keepNa)[k], "policy_id").VStr? ==>
      IsSlug(Cell(ExpectedRows(f, names, file, sheet, keepNa)[k], "policy_id").s)
  {
    IdNameAreData();
    ExpectedRowCell(f, names, file, sheet, keepNa, k, "policy_id");
    SlugShape(Str(SourceCell(f, names, "policy_name", k).value));
  }

  /** The id and name cells are missing exactly when they have no source, or (keeping missing cells) a missing source. */
  lemma IdNameMissing(f: Frame<Value>, names: seq<string>, file: string, sheet: Option<string>, keepNa: bool, k: nat)
    requires |names| == |f.columns| && k < |f.rows|
    ensures !keepNa ==> (HasIdOrName(ExpectedRows(f, names, file, sheet, keepNa)[k]) <==>
      SourceCell(f, names, "policy_id", k).Some? || SourceCell(f, names, "policy_name", k).Some?)
    ensures keepNa ==> (HasIdOrName(ExpectedRows(f, names, file, sheet, keepNa)[k]) <==>
      Present(f, names, "policy_id", k) || Present(f, names, "policy_name", k))
  {
    IdNameAreData();
    ExpectedRowCell(f, names, file, sheet, keepNa, k, "policy_id");
    ExpectedRowCell(f, names, file, sheet, keepNa, k, "policy_name");
  }

  /** A sheet with neither an id nor a name column contributes no rows. */
  lemma NoIdNoNameNoRows(df: Option<Frame<Value>>, file: string, sheet: Option<string>,
                         aliases: seq<ColumnAlias>, keepNa: bool)
    requires df.Some? && !Empty(df.value)
    requires !DataClash(NewNames(df.value.columns, Standardizer(aliases)))
    requires SourceIndex(NewNames(df.value.columns, Standardizer(aliases)), "policy_id", 0).None?
    requires SourceIndex(NewNames(df.value.columns, Standardizer(aliases)), "policy_name", 0).None?
    ensures NormalizedBy(df, file, sheet, aliases, keepNa) == Returns(Frame(OutputCols, []))
  {
    var f := df.value;
    var names := NewNames(f.columns, Standardizer(aliases));
    NormalizedSpec(df, file, sheet, aliases, keepNa);
    var rs := ExpectedRows(f, names, file, sheet, keepNa);
    forall x | x in rs
      ensures !HasIdOrName(x)
    {
      var k :| 0 <= k < |rs| && rs[k] == x;
      IdNameMissing(f, names, file, sheet, keepNa, k);
    }
    FilterNone(rs, HasIdOrName);
  }

  /** `str(nan)` is `"nan"`, unchanged by `strip()`. */
  lemma NaNText()
    ensures StripCell(VNaN, false) == VStr("nan")
  {
    assert Str(VNaN) == "nan";
    StripNoSpace("nan");
  }

  /** As written, a row whose source id and name are NaN gets the id and the name `"nan"`. */
  lemma NaNRowText(f: Frame<Value>, names: seq<string>, file: string, sheet: Option<string>, k: nat)
    requires |names| == |f.columns| && k < |f.rows|
    requires SourceCell(f, names, "policy_id", k) == Some(VNaN) && SourceCell(f, names, "policy_name", k) == Some(VNaN)
    ensures Cell(ExpectedRows(f, names, file, sheet, false)[k], "policy_id") == VStr("nan")
    ensures Cell(ExpectedRows(f, names, file, sheet, false)[k], "policy_name") == VStr("nan")
  {
    IdNameAreData();
    NaNText();
    ExpectedRowCell(f, names, file, sheet, false, k, "policy_id");
    ExpectedRowCell(f, names, file, sheet, false, k, "policy_name");
  }

  /** As written, every row survives `dropna` once an id or a name column exists. */
  lemma AsWrittenNoDrop(f: Frame<Value>, names: seq<string>, file: string, sheet: Option<string>)
    requires |names| == |f.columns|
    requires SourceIndex(names, "policy_id", 0).Some? || SourceIndex(names, "policy_name", 0).Some?
    ensures Filter(ExpectedRows(f, names, file, sheet, false), HasIdOrName) == ExpectedRows(f, names, file, sheet, false)
  {
    var rs := ExpectedRows(f, names, file, sheet, false);
    forall x | x in rs
      ensures HasIdOrName(x)
    {
      var j :| 0 <= j < |rs| && rs[j] == x;
      IdNameMissing(f, names, file, sheet, false, j);
    }
    FilterAll(rs, HasIdOrName);
  }

  /**
   * As written, `astype(str)` turns a missing id or name into the text
   * `"nan"` before `dropna` looks at it: once the sheet has an id or a name
   * column, no row is dropped, and a row whose id and name are NaN is kept
   * with the id and name `"nan"`.
   */
  lemma AsWrittenKeepsEmptyRows(df: Option<Frame<Value>>, file: string, sheet: Option<string>,
                                aliases: seq<ColumnAlias>, k: nat)
    requires df.Some? && !Empty(df.value) && k < |df.value.rows|
    requires !DataClash(NewNames(df.value.columns, Standardizer(aliases)))
    requires SourceIndex(NewNames(df.value.columns, Standardizer(aliases)), "policy_id", 0).Some? ||
             SourceIndex(NewNames(df.value.columns, Standardizer(aliases)), "policy_name", 0).Some?
    ensures NormalizedBy(df, file, sheet, aliases, false).Returns?
    ensures NormalizedBy(df, file, sheet, aliases, false).value.rows ==
      ExpectedRows(df.value, NewNames(df.value.columns, Standardizer(aliases)), file, sheet, false)
    ensures SourceCell(df.value, NewNames(df.value.columns, Standardizer(aliases)), "policy_id", k) == Some(VNaN) &&
            SourceCell(df.value, NewNames(df.value.columns, Standardizer(aliases)), "policy_name", k) == Some(VNaN) ==>
      Cell(NormalizedBy(df, file, sheet, aliases, false).value.rows[k], "policy_id") == VStr("nan") &&
      Cell(NormalizedBy(df, file, sheet, aliases, false).value.rows[k], "policy_name") == VStr("nan")
  {
    var f := df.value;
    var names := NewNames(f.columns, Standardizer(aliases));
    NormalizedSpec(df, file, sheet, aliases, false);
    AsWrittenNoDrop(f, names, file, sheet);
    if SourceCell(f, names, "policy_id", k) == Some(VNaN) && SourceCell(f, names, "policy_name", k) == Some(VNaN) {
      NaNRowText(f, names, file, sheet, k);
    }
  }

  /**
   * Keeping missing cells missing, `dropna` does what its comment says: a
   * row is kept exactly when its source id or name is present, and every kept
   * row has an id or a name.
   */
  lemma CorrectedDropsEmptyRows(df: Option<Frame<Value>>, file: string, sheet: Option<string>, aliases: seq<ColumnAlias>)
    requires df.Some? && !Empty(df.value)
    requires !DataClash(NewNames(df.value.columns, Standardizer(aliases)))
    ensures NormalizedBy(df, file, sheet, aliases, true).Returns?
    ensures forall k :: 0 <= k < |df.value.rows| ==>
      (ExpectedRows(df.value, NewNames(df.value.columns, Standardizer(aliases)), file, sheet, true)[k]
         in NormalizedBy(df, file, sheet, aliases, true).value.rows
       <==> Present(df.value, NewNames(df.value.columns, Standardizer(aliases)), "policy_id", k) ||
            Present(df.value, NewNames(df.value.columns, Standardizer(aliases)), "policy_name", k))
    ensures forall r :: r in NormalizedBy(df, file, sheet, aliases, true).value.rows ==>
      !IsNa(Cell(r, "policy_id")) || !IsNa(Cell(r, "policy_name"))
  {
    var f := df.value;
    var names := NewNames(f.columns, Standardizer(aliases));
    NormalizedSpec(df, file, sheet, aliases, true);
    var rs := ExpectedRows(f, names, file, sheet, true);
    forall k | 0 <= k < |f.rows|
      ensures rs[k] in Filter(rs, HasIdOrName) <==> Present(f, names, "policy_id", k) || Present(f, names, "policy_name", k)
    {
      IdNameMissing(f, names, file, sheet, true, k);
      FilterMember(rs, HasIdOrName, rs[k]);
    }
    forall r | r in Filter(rs, HasIdOrName)
      ensures HasIdOrName(r)
    {
      FilterMember(rs, HasIdOrName, r);
    }
  }

  /** No cell of the sheet is missing. */
  predicate NoMissing(f: Frame<Value>)
  {
    forall k, i :: 0 <= k < |f.rows| && 0 <= i < |f.columns| ==> !IsNa(Cell(f.rows[k], f.columns[i]))
  }

  /** On a sheet without missing cells, keeping missing cells changes no cell. */
  lemma ExpectedCellAgree(f: Frame<Value>, names: seq<string>, file: string, sheet: Option<string>, k: nat, c: string)
    requires |names| == |f.columns| && NoMissing(f) && k < |f.rows|
    ensures ExpectedCell(f, names, file, sheet, true, k, c) == ExpectedCell(f, names, file, sheet, false, k, c)
  {
    var i := SourceIndex(names, c, 0);
    var id := SourceIndex(names, "policy_id", 0);
    var name := SourceIndex(names, "policy_name", 0);
    if i.Some? { assert !IsNa(Cell(f.rows[k], f.columns[i.value])); }
    if id.Some? { assert !IsNa(Cell(f.rows[k], f.columns[id.value])); }
    if name.Some? { assert !IsNa(Cell(f.rows[k], f.columns[name.value])); }
  }

  /** On a sheet without missing cells, keeping missing cells changes no row. */
  lemma ExpectedRowsAgree(f: Frame<Value>, names: seq<string>, file: string, sheet: Option<string>)
    requires |names| == |f.columns| && NoMissing(f)
    ensures ExpectedRows(f, names, file, sheet, true) == ExpectedRows(f, names, file, sheet, false)
  {
    forall k | 0 <= k < |f.rows|
      ensures ExpectedRows(f, names, file, sheet, true)[k] == ExpectedRows(f, names, file, sheet, false)[k]
    {
      var cell1 := c => if k < |f.rows| then ExpectedCell(f, names, file, sheet, true, k, c) else VNone;
      var cell2 := c => if k < |f.rows| then ExpectedCell(f, names, file, sheet, false, k, c) else VNone;
      forall c | c in OutputCols
        ensures cell1(c) == cell2(c)
      {
        ExpectedCellAgree(f, names, file, sheet, k, c);
      }
      RowOverEqual(OutputCols, cell1, cell2);
    }
  }

  /** On a sheet without missing cells the corrected conversion agrees with the code as written. */
  lemma CorrectedAgrees(df: Option<Frame<Value>>, file: string, sheet: Option<string>, aliases: seq<ColumnAlias>)
    requires df.Some? ==> NoMissing(df.value)
    ensures NormalizedBy(df, file, sheet, aliases, true) == NormalizedBy(df, file, sheet, aliases, false)
  {
    NormalizedSpec(df, file, sheet, aliases, true);
    NormalizedSpec(df, file, sheet, aliases, false);
    if df.Some? && !Empty(df.value) {
      ExpectedRowsAgree(df.value, NewNames(df.value.columns, Standardizer(aliases)), file, sheet);
    }
  }

  // ---------------------------------------------------------------------
  // collect_policies
  // ---------------------------------------------------------------------

  /**
   * One sheet read from the source folder: the file's path relative to the
   * folder, the sheet name (`None` for a delimited text file) and what the
   * reader returned (`None` when it failed).
   */
  datatype SheetSource = SheetSource(file: string, sheet: Option<string>, data: Option<Frame<Value>>)

  /** `df is not None and not df.empty` */
  predicate HasData(s: SheetSource)
  {
    s.data.Some? && !Empty(s.data.value)
  }

  /**
   * `_normalize_frame` on one sheet; `keepNa` is false for the code as
   * written and true for the corrected conversion.
   */
  function Normalizer(aliases: seq<ColumnAlias>, keepNa: bool): SheetSource -> Outcome<Frame<Value>>
  {
    (s: SheetSource) => NormalizedBy(s.data, s.file, s.sheet, aliases, keepNa)
  }

  /** The frames appended for the first `n` sheets, `norm` normalizing each, or the first error raised. */
  function Gathered(srcs: seq<SheetSource>, norm: SheetSource -> Outcome<Frame<Value>>, n: nat): Outcome<seq<Frame<Value>>>
    requires n <= |srcs|
  {
    if n == 0 then Returns([])
    else
      var prev := Gathered(srcs, norm, n - 1);
      var s := srcs[n - 1];
      if prev.Raises? || !HasData(s) then prev
      else if norm(s).Raises? then Raises(norm(s).error)
      else Returns(prev.value + [norm(s).value])
  }

  /** The normalized rows of one sheet; none when it has no data or raises. */
  function SheetRows(s: SheetSource, norm: SheetSource -> Outcome<Frame<Value>>): seq<Row<Value>>
  {
    if HasData(s) && norm(s).Returns? then norm(s).value.rows else []
  }

  /** The rows of a frame. */
  function RowsOfFrame(g: Frame<Value>): seq<Row<Value>>
  {
    g.rows
  }

  /**
   * Gathering raises exactly when a sheet with data raises, with that
   * sheet's error; otherwise the gathered frames hold, in order, the
   * normalized rows of every sheet with data.
   */
  lemma GatheredSpec(srcs: seq<SheetSource>, norm: SheetSource -> Outcome<Frame<Value>>, n: nat)
    requires n <= |srcs|
    ensures Gathered(srcs, norm, n).Raises? <==> exists i :: 0 <= i < n && HasData(srcs[i]) && norm(srcs[i]).Raises?
    ensures Gathered(srcs, norm, n).Raises? ==>
      exists i :: 0 <= i < n && HasData(srcs[i]) && norm(srcs[i]) == Raises(Gathered(srcs, norm, n).error)
    ensures Gathered(srcs, norm, n).Returns? ==>
      |Gathered(srcs, norm, n).value| == |Filter(srcs[..n], HasData)| &&
      FlatMap(Gathered(srcs, norm, n).value, RowsOfFrame) == FlatMap(srcs[..n], s => SheetRows(s, norm))
    ensures Gathered(srcs, norm, n).Returns? ==>
      forall g :: g in Gathered(srcs, norm, n).value ==> exists i :: 0 <= i < n && HasData(srcs[i]) && norm(srcs[i]) == Returns(g)
  {
    GatheredRaises(srcs, norm, n);
    GatheredReturns(srcs, norm, n);
  }

  lemma {:induction false} GatheredRaises(srcs: seq<SheetSource>, norm: SheetSource -> Outcome<Frame<Value>>, n: nat)
    requires n <= |srcs|
    ensures Gathered(srcs, norm, n).Raises? <==> exists i :: 0 <= i < n && HasData(srcs[i]) && norm(srcs[i]).Raises?
    ensures Gathered(srcs, norm, n).Raises? ==>
      exists i :: 0 <= i < n && HasData(srcs[i]) && norm(srcs[i]) == Raises(Gathered(srcs, norm, n).error)
  {
    if n > 0 {
      GatheredRaises(srcs, norm, n - 1);
    }
  }

  lemma {:induction false} GatheredReturns(srcs: seq<SheetSource>, norm: SheetSource -> Outcome<Frame<Value>>, n: nat)
    requires n <= |srcs|
    ensures Gathered(srcs, norm, n).Returns? ==>
      |Gathered(srcs, norm, n).value| == |Filter(srcs[..n], HasData)| &&
      FlatMap(Gathered(srcs, norm, n).value, RowsOfFrame) == FlatMap(srcs[..n], s => SheetRows(s, norm))
    ensures Gathered(srcs, norm, n).Returns? ==>
      forall g :: g in Gathered(srcs, norm, n).value ==> exists i :: 0 <= i < n && HasData(srcs[i]) && norm(srcs[i]) == Returns(g)
  {
    if n > 0 {
      GatheredReturns(srcs, norm, n - 1);
      var s := srcs[n - 1];
      assert srcs[..n] == srcs[..n - 1] + [s];
      FilterSnoc(srcs[..n - 1], s, HasData);
      FlatMapSnoc(srcs[..n - 1], s, s => SheetRows(s, norm));
      var prev := Gathered(srcs, norm, n - 1);
      if prev.Returns? && HasData(s) && norm(s).Returns? {
        FlatMapSnoc(prev.value, norm(s).value, RowsOfFrame);
      }
    } else {
      assert srcs[..0] == [];
    }
  }

  /** Every frame `_normalize_frame` returns has the output columns, each row exactly those. */
  lemma NormalizerShape(aliases: seq<ColumnAlias>, keepNa: bool, s: SheetSource)
    ensures Normalizer(aliases, keepNa)(s).Returns? ==>
      Normalizer(aliases, keepNa)(s).value.columns == OutputCols && WellFormed(Normalizer(aliases, keepNa)(s).value)
    ensures Normalizer(aliases, keepNa)(s).Raises? ==>
      Normalizer(aliases, keepNa)(s).error in {"ValueError", "AttributeError"}
  {
    NormalizedSpec(s.data, s.file, s.sheet, aliases, keepNa);
  }

  /** A cell as `drop_duplicates` compares it: every missing value is the same. */
  function NaKey(v: Value): Option<Value>
  {
    if IsNa(v) then None else Some(v)
  }

  /** The deduplication key `(policy_id, policy_name)`. */
  function PolicyKey(r: Row<Value>): (Option<Value>, Option<Value>)
  {
    (NaKey(Cell(r, "policy_id")), NaKey(Cell(r, "policy_name")))
  }

  /** A cell as the sort compares it: its text, or missing (sorted last). */
  function SortText(v: Value): Option<string>
  {
    if IsNa(v) then None else Some(Str(v))
  }

  /** `sort_values(by=["policy_name", "policy_id"], na_position="last")` as an order on rows. */
  predicate ByNameThenId(a: Row<Value>, b: Row<Value>)
  {
    EtlDefesos.KeyLe([SortText(Cell(a, "policy_name")), SortText(Cell(a, "policy_id"))],
                     [SortText(Cell(b, "policy_name")), SortText(Cell(b, "policy_id"))])
  }

  lemma ByNameThenIdPreorder()
    ensures TotalPreorder(ByNameThenId)
  {
    forall a: Row<Value>, b: Row<Value> ensures ByNameThenId(a, b) || ByNameThenId(b, a) {
      EtlDefesos.KeyLeTotal([SortText(Cell(a, "policy_name")), SortText(Cell(a, "policy_id"))],
                            [SortText(Cell(b, "policy_name")), SortText(Cell(b, "policy_id"))]);
    }
    forall a: Row<Value>, b: Row<Value>, c: Row<Value> | ByNameThenId(a, b) && ByNameThenId(b, c)
      ensures ByNameThenId(a, c)
    {
      EtlDefesos.KeyLeTrans([SortText(Cell(a, "policy_name")), SortText(Cell(a, "policy_id"))],
                            [SortText(Cell(b, "policy_name")), SortText(Cell(b, "policy_id"))],
                            [SortText(Cell(c, "policy_name")), SortText(Cell(c, "policy_id"))]);
    }
  }

  /** `drop_duplicates(subset=key_cols, keep="first")` then the stable sort. */
  function Catalogued(rows: seq<Row<Value>>): seq<Row<Value>>
  {
    SortBy(DedupBy(rows, PolicyKey), ByNameThenId)
  }

  /**
   * `collect_policies` after the file walk and the readers: `srcs` are the
   * sheets read, in walk order. Without frames the catalog is empty with
   * the output columns; otherwise the concatenated rows, deduplicated and
   * sorted. `keepNa` chooses the conversion, as in `Normalizer`.
   */
  function Collected(srcs: seq<SheetSource>, aliases: seq<ColumnAlias>, keepNa: bool): Outcome<Frame<Value>>
  {
    CollectedBy(srcs, Normalizer(aliases, keepNa))
  }

  /** The same, `norm` normalizing each sheet. */
  function CollectedBy(srcs: seq<SheetSource>, norm: SheetSource -> Outcome<Frame<Value>>): Outcome<Frame<Value>>
  {
    var g := Gathered(srcs, norm, |srcs|);
    if g.Raises? then Raises(g.error)
    else if |g.value| == 0 then Returns(Frame(OutputCols, []))
    else Returns(Frame(OutputCols, Catalogued(FlatMap(g.value, RowsOfFrame))))
  }

  /** Once gathering raised, it keeps the error. */
  lemma {:induction false} GatheredRaisesStays(srcs: seq<SheetSource>, norm: SheetSource -> Outcome<Frame<Value>>,
                                               i: nat, n: nat)
    requires i <= n <= |srcs| && Gathered(srcs, norm, i).Raises?
    ensures Gathered(srcs, norm, n) == Gathered(srcs, norm, i)
    decreases n - i
  {
    if i < n {
      GatheredRaisesStays(srcs, norm, i, n - 1);
    }
  }

  /** One step of the loop: a sheet without data adds nothing, one with data adds its frame or raises. */
  lemma GatheredStep(srcs: seq<SheetSource>, norm: SheetSource -> Outcome<Frame<Value>>, i: nat, frames: seq<Frame<Value>>)
    requires i < |srcs| && Gathered(srcs, norm, i) == Returns(frames)
    ensures !HasData(srcs[i]) ==> Gathered(srcs, norm, i + 1) == Returns(frames)
    ensures HasData(srcs[i]) && norm(srcs[i]).Returns? ==> Gathered(srcs, norm, i + 1) == Returns(frames + [norm(srcs[i]).value])
    ensures HasData(srcs[i]) && norm(srcs[i]).Raises? ==> Gathered(srcs, norm, |srcs|) == Raises(norm(srcs[i]).error)
  {
    if HasData(srcs[i]) && norm(srcs[i]).Raises? {
      GatheredRaisesStays(srcs, norm, i + 1, |srcs|);
    }
  }

  /** The loop of `collect_policies` over the sheets: normalize every sheet with data. */
  method GatherFrames(srcs: seq<SheetSource>, aliases: seq<ColumnAlias>, keepNa: bool) returns (g: Outcome<seq<Frame<Value>>>)
    ensures g == Gathered(srcs, Normalizer(aliases, keepNa), |srcs|)
  {
    var norm := Normalizer(aliases, keepNa);
    var frames: seq<Frame<Value>> := [];
    for i := 0 to |srcs|
      invariant Gathered(srcs, norm, i) == Returns(frames)
    {
      var s := srcs[i];
      GatheredStep(srcs, norm, i, frames);
      if s.data.Some? && !Empty(s.data.value) {
        var o := NormalizeSheet(s, aliases, keepNa);
        if o.Raises? {
          return Raises(o.error);
        }
        frames := frames + [o.value];
      }
    }
    return Returns(frames);
  }

  /** `_normalize_frame(df, source_file=rel, source_sheet=sheet)` for one sheet. */
  method NormalizeSheet(s: SheetSource, aliases: seq<ColumnAlias>, keepNa: bool) returns (o: Outcome<Frame<Value>>)
    ensures o == Normalizer(aliases, keepNa)(s)
  {
    o := NormalizeFrame(s.data, s.file, s.sheet, aliases, keepNa);
  }

  /** `pd.concat(frames, ignore_index=True)`: the rows of every frame, in order. */
  method ConcatRows(frames: seq<Frame<Value>>) returns (cat: seq<Row<Value>>)
    ensures cat == FlatMap(frames, RowsOfFrame)
  {
    cat := [];
    for j := 0 to |frames|
      invariant cat == FlatMap(frames[..j], RowsOfFrame)
    {
      assert frames[..j + 1] == frames[..j] + [frames[j]];
      FlatMapSnoc(frames[..j], frames[j], RowsOfFrame);
      cat := cat + frames[j].rows;
    }
    assert frames[..|frames|] == frames;
  }

  /**
   * `collect_policies` as written: the loop over the sheets with the
   * `astype(str)` conversion, then concatenation, deduplication and sort.
   */
  method CollectPolicies(srcs: seq<SheetSource>, aliases: seq<ColumnAlias>) returns (r: Outcome<Frame<Value>>)
    ensures r == Collected(srcs, aliases, false)
  {
    r := CollectWith(srcs, aliases, false);
  }

  /** `collect_policies` with the corrected conversion that keeps missing cells missing. */
  method CollectPoliciesFixed(srcs: seq<SheetSource>, aliases: seq<ColumnAlias>) returns (r: Outcome<Frame<Value>>)
    ensures r == Collected(srcs, aliases, true)
  {
    r := CollectWith(srcs, aliases, true);
  }

  /** The body of `collect_policies` for either conversion. */
  method CollectWith(srcs: seq<SheetSource>, aliases: seq<ColumnAlias>, keepNa: bool) returns (r: Outcome<Frame<Value>>)
    ensures r == Collected(srcs, aliases, keepNa)
  {
    var g := GatherFrames(srcs, aliases, keepNa);
    if g.Raises? {
      return Raises(g.error);
    }
    if |g.value| == 0 {
      return Returns(Frame(OutputCols, []));
    }
    var cat := ConcatRows(g.value);
    r := Returns(Frame(OutputCols, Catalogued(cat)));
  }

  /** Every row a sheet contributes has exactly the output columns and carries an id or a name. */
  lemma SheetRowsShape(s: SheetSource, aliases: seq<ColumnAlias>, keepNa: bool, r: Row<Value>)
    requires r in SheetRows(s, Normalizer(aliases, keepNa))
    ensures forall c :: c in r <==> c in OutputCols
    ensures !IsNa(Cell(r, "policy_id")) || !IsNa(Cell(r, "policy_name"))
  {
    NormalizedSpec(s.data, s.file, s.sheet, aliases, keepNa);
    var f := s.data.value;
    var rs := ExpectedRows(f, NewNames(f.columns, Standardizer(aliases)), s.file, s.sheet, keepNa);
    FilterMember(rs, HasIdOrName, r);
  }

  /**
   * The catalog, under either conversion, raises exactly when a sheet with
   * data raises, with the error of the first such sheet (`ValueError` or
   * `AttributeError`); without a sheet with data it is empty; otherwise it
   * has the output columns.
   */
  lemma CollectedOutcome(srcs: seq<SheetSource>, aliases: seq<ColumnAlias>, keepNa: bool)
    ensures Collected(srcs, aliases, keepNa).Raises? <==>
      exists i :: 0 <= i < |srcs| && HasData(srcs[i]) && Normalizer(aliases, keepNa)(srcs[i]).Raises?
    ensures Collected(srcs, aliases, keepNa).Raises? ==>
      Collected(srcs, aliases, keepNa).error in {"ValueError", "AttributeError"}
    ensures (forall i :: 0 <= i < |srcs| ==> !HasData(srcs[i])) ==> Collected(srcs, aliases, keepNa) == Returns(Frame(OutputCols, []))
    ensures Collected(srcs, aliases, keepNa).Returns? ==> Collected(srcs, aliases, keepNa).value.columns == OutputCols
  {
    var norm := Normalizer(aliases, keepNa);
    GatheredSpec(srcs, norm, |srcs|);
    var g := Gathered(srcs, norm, |srcs|);
    if g.Raises? {
      var i :| 0 <= i < |srcs| && HasData(srcs[i]) && norm(srcs[i]) == Raises(g.error);
      NormalizerShape(aliases, keepNa, srcs[i]);
    }
    if forall i :: 0 <= i < |srcs| ==> !HasData(srcs[i]) {
      assert srcs[..|srcs|] == srcs;
      FilterNone(srcs, HasData);
    }
  }

  /**
   * Deduplicating then sorting: sorted by name then id, no key twice, a
   * permutation of the first row of every key, every key represented, and
   * every row from the input.
   */
  lemma CataloguedSpec(all: seq<Row<Value>>)
    ensures SortedBy(Catalogued(all), ByNameThenId)
    ensures KeysDistinct(Catalogued(all), PolicyKey)
    ensures multiset(Catalogued(all)) == multiset(DedupBy(all, PolicyKey))
    ensures forall x :: x in all ==> exists y :: y in Catalogued(all) && PolicyKey(y) == PolicyKey(x)
    ensures forall y :: y in Catalogued(all) ==> y in all
  {
    var kept := DedupBy(all, PolicyKey);
    var out := Catalogued(all);
    DedupBySpec(all, PolicyKey);
    ByNameThenIdPreorder();
    SortBySorted(kept, ByNameThenId);
    SortByPerm(kept, ByNameThenId);
    SortByKeysDistinct(kept, ByNameThenId, PolicyKey);
    forall y | y in out ensures y in all {
      assert y in multiset(out);
    }
    forall x | x in all ensures exists y :: y in out && PolicyKey(y) == PolicyKey(x) {
      var y :| y in kept && PolicyKey(y) == PolicyKey(x);
      assert y in multiset(kept);
    }
  }

  /** The sort is stable: rows the order calls equal keep their first-occurrence order. */
  lemma CataloguedStable(all: seq<Row<Value>>, k: Row<Value>)
    ensures Filter(Catalogued(all), y => Equiv(ByNameThenId, y, k)) == Filter(DedupBy(all, PolicyKey), y => Equiv(ByNameThenId, y, k))
  {
    ByNameThenIdPreorder();
    SortByStable(DedupBy(all, PolicyKey), ByNameThenId, k, y => Equiv(ByNameThenId, y, k));
  }

  /** The rows all sheets contribute are the concatenated frames' rows; none when no frame was gathered. */
  lemma CollectedFromSheets(srcs: seq<SheetSource>, norm: SheetSource -> Outcome<Frame<Value>>)
    requires CollectedBy(srcs, norm).Returns?
    ensures CollectedBy(srcs, norm).value.rows == Catalogued(FlatMap(srcs, s => SheetRows(s, norm)))
  {
    GatheredSpec(srcs, norm, |srcs|);
    assert srcs[..|srcs|] == srcs;
    var all := FlatMap(srcs, s => SheetRows(s, norm));
    var g := Gathered(srcs, norm, |srcs|);
    if |g.value| == 0 {
      assert all == [];
    }
  }

  /**
   * The catalog's rows come from the sheets in walk order: sorted by name
   * then id (missing last), no two with the same `(policy_id, policy_name)`,
   * a permutation of the first row of every key, so every key of the
   * sheets is represented.
   */
  lemma CollectedRows(srcs: seq<SheetSource>, norm: SheetSource -> Outcome<Frame<Value>>)
    requires CollectedBy(srcs, norm).Returns?
    ensures SortedBy(CollectedBy(srcs, norm).value.rows, ByNameThenId)
    ensures KeysDistinct(CollectedBy(srcs, norm).value.rows, PolicyKey)
    ensures multiset(CollectedBy(srcs, norm).value.rows) == multiset(DedupBy(FlatMap(srcs, s => SheetRows(s, norm)), PolicyKey))
    ensures forall x :: x in FlatMap(srcs, s => SheetRows(s, norm)) ==>
      exists y :: y in CollectedBy(srcs, norm).value.rows && PolicyKey(y) == PolicyKey(x)
    ensures forall y :: y in CollectedBy(srcs, norm).value.rows ==> y in FlatMap(srcs, s => SheetRows(s, norm))
  {
    CollectedFromSheets(srcs, norm);
    CataloguedSpec(FlatMap(srcs, s => SheetRows(s, norm)));
  }

  /** Each row of the catalog has exactly the output columns and carries an id or a name. */
  lemma CollectedRowShape(srcs: seq<SheetSource>, aliases: seq<ColumnAlias>, keepNa: bool, y: Row<Value>)
    requires Collected(srcs, aliases, keepNa).Returns? && y in Collected(srcs, aliases, keepNa).value.rows
    ensures forall c :: c in y <==> c in OutputCols
    ensures !IsNa(Cell(y, "policy_id")) || !IsNa(Cell(y, "policy_name"))
  {
    var norm := Normalizer(aliases, keepNa);
    CollectedRows(srcs, norm);
    FlatMapMember(srcs, s => SheetRows(s, norm), y);
    var src :| src in srcs && y in SheetRows(src, norm);
    SheetRowsShape(src, aliases, keepNa, y);
  }
}
