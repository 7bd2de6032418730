/**
 * The closed-season (defeso) calendar: date coercion of the `inicio` and
 * `fim` columns, the row filters of `filter_defesos`, and the rows active on
 * a given day. Dates are day numbers; reading a cell as a date
 * (`pd.to_datetime(..., errors="coerce")`) is the parameter `parse`.
 */
module DefesoCalendar {
  import opened PyStr
  import opened PyValue
  import opened Seqs
  import opened Frames

  /** A cell: a value as read, a date (a day number), or `NaT`. */
  datatype Cell = Text(v: Value) | Stamp(day: int) | NaT

  /** `DATE_COLS` */
  const DateCols: seq<string> := ["inicio", "fim"]

  /** `to_datetime` on one cell: text is parsed (`NaT` when it does not parse); dates stay. */
  function ToStamp(c: Cell, parse: Value -> Option<int>): (r: Cell)
    ensures !r.Text?
  {
    if c.Text? then (if parse(c.v).Some? then Stamp(parse(c.v).value) else NaT) else c
  }

  /** A row as `_coerce_dates` leaves it: the cells of date columns the frame has are coerced. */
  function DateRow(r: Row<Cell>, columns: seq<string>, parse: Value -> Option<int>): Row<Cell>
  {
    map k | k in r :: if k in DateCols && k in columns then ToStamp(r[k], parse) else r[k]
  }

  /** The frame `_coerce_dates` leaves behind. */
  function Coerced(f: Frame<Cell>, parse: Value -> Option<int>): (g: Frame<Cell>)
    ensures g.columns == f.columns && |g.rows| == |f.rows|
  {
    Frame(f.columns, seq(|f.rows|, i requires 0 <= i < |f.rows| => DateRow(f.rows[i], f.columns, parse)))
  }

  /** A data frame object, whose columns `_coerce_dates` overwrites in place. */
  class DataFrame {
    var columns: seq<string>
    var rows: seq<Row<Cell>>

    constructor (columns: seq<string>, rows: seq<Row<Cell>>)
      ensures this.columns == columns && this.rows == rows
    {
      this.columns := columns;
      this.rows := rows;
    }

    /** The frame's current contents. */
    function Contents(): Frame<Cell>
      reads this
    {
      Frame(columns, rows)
    }
  }

  /** The row after the first `k` date columns have been coerced. */
  function PartialRow(r: Row<Cell>, columns: seq<string>, parse: Value -> Option<int>, k: nat): Row<Cell>
    requires k <= |DateCols|
  {
    map key | key in r :: if key in DateCols[..k] && key in columns then ToStamp(r[key], parse) else r[key]
  }

  /** `df[c] = pd.to_datetime(df[c])` on one row, after the columns before `c`. */
  lemma PartialStep(r: Row<Cell>, columns: seq<string>, parse: Value -> Option<int>, k: nat)
    requires k < |DateCols|
    ensures var c := DateCols[k]; var p := PartialRow(r, columns, parse, k);
      PartialRow(r, columns, parse, k + 1) ==
        (if c in columns && c in p then p[c := ToStamp(p[c], parse)] else p)
  {
    assert DateCols[..k + 1] == DateCols[..k] + [DateCols[k]];
    assert DateCols[0] != DateCols[1];
    if k == 1 {
      assert DateCols[..1] == ["inicio"];
    } else {
      assert DateCols[..0] == [];
    }
  }

  /**
   * `_coerce_dates(df)`: for each date column the frame has, every cell of
   * that column is replaced by its date, in place.
   */
  method CoerceDates(df: DataFrame, parse: Value -> Option<int>)
    modifies df
    ensures df.Contents() == Coerced(old(df.Contents()), parse)
  {
    ghost var rows0 := df.rows;
    for k := 0 to |DateCols|
      invariant df.columns == old(df.columns)
      invariant |df.rows| == |rows0|
      invariant forall i :: 0 <= i < |rows0| ==> df.rows[i] == PartialRow(rows0[i], df.columns, parse, k)
    {
      var c := DateCols[k];
      var rs := df.rows;
      if c in df.columns {
        df.rows := seq(|rs|, i requires 0 <= i < |rs| =>
          if c in rs[i] then rs[i][c := ToStamp(rs[i][c], parse)] else rs[i]);
      }
      forall i | 0 <= i < |rows0|
        ensures df.rows[i] == PartialRow(rows0[i], df.columns, parse, k + 1)
      {
        assert rs[i] == PartialRow(rows0[i], df.columns, parse, k);
        PartialStep(rows0[i], df.columns, parse, k);
      }
    }
    assert DateCols[..|DateCols|] == DateCols;
  }

  /** Coercing twice is coercing once: a date cell stays as it is. */
  lemma CoercedIdempotent(f: Frame<Cell>, parse: Value -> Option<int>)
    ensures Coerced(Coerced(f, parse), parse) == Coerced(f, parse)
  {
    var g := Coerced(f, parse);
    forall i | 0 <= i < |f.rows|
      ensures DateRow(g.rows[i], f.columns, parse) == g.rows[i]
    {
    }
  }

  /**
   * Coercion keeps the columns, the rows and every cell outside the date
   * columns; a date column's cells all become dates or `NaT`.
   */
  lemma CoercedCells(f: Frame<Cell>, parse: Value -> Option<int>, i: nat, k: string)
    requires i < |f.rows| && k in f.rows[i]
    ensures k in Coerced(f, parse).rows[i]
    ensures k !in DateCols || k !in f.columns ==> Coerced(f, parse).rows[i][k] == f.rows[i][k]
    ensures k in DateCols && k in f.columns ==> !Coerced(f, parse).rows[i][k].Text?
    ensures f.rows[i][k].Text? && k in DateCols && k in f.columns ==>
      (Coerced(f, parse).rows[i][k].Stamp? <==> parse(f.rows[i][k].v).Some?)
  {
  }

  // ---------------------------------------------------------------------
  // active_defesos_on
  // ---------------------------------------------------------------------

  /** `inicio.notna() & fim.notna() & (inicio <= on) & (fim >= on)` */
  function ActiveOn(on: int): Row<Cell> -> bool
  {
    (r: Row<Cell>) =>
      "inicio" in r && "fim" in r && r["inicio"].Stamp? && r["fim"].Stamp?
      && r["inicio"].day <= on <= r["fim"].day
  }

  /** Both date columns are present. */
  predicate HasDates(f: Frame<Cell>)
  {
    "inicio" in f.columns && "fim" in f.columns
  }

  /**
   * `active_defesos_on(df, on)`: a missing or empty frame is returned as is;
   * without both date columns the result has the columns and no rows;
   * otherwise the caller's frame is coerced in place and the rows active on
   * day `on` are returned as a new frame.
   */
  method ActiveDefesosOn(df: DataFrame?, on: int, parse: Value -> Option<int>) returns (r: Option<Frame<Cell>>)
    modifies df
    ensures df == null ==> r.None?
    ensures df != null && (Empty(old(df.Contents())) || !HasDates(old(df.Contents()))) ==> unchanged(df)
    ensures df != null && Empty(old(df.Contents())) ==> r == Some(old(df.Contents()))
    ensures df != null && !Empty(old(df.Contents())) && !HasDates(old(df.Contents())) ==>
      r == Some(Frame(old(df.columns), []))
    ensures df != null && !Empty(old(df.Contents())) && HasDates(old(df.Contents())) ==>
      df.Contents() == Coerced(old(df.Contents()), parse)
      && r == Some(Where(df.Contents(), ActiveOn(on)))
    ensures df != null && !Empty(old(df.Contents())) ==> r == Some(ActiveRows(old(df.Contents()), on, parse))
  {
    if df == null {
      return None;
    }
    if |df.columns| == 0 || |df.rows| == 0 {
      return Some(df.Contents());
    }
    if !("inicio" in df.columns && "fim" in df.columns) {
      return Some(Frame(df.columns, []));
    }
    CoerceDates(df, parse);
    r := Some(Frame(df.columns, Filter(df.rows, ActiveOn(on))));
  }

  /** The active-on function the method computes on a frame value. */
  function ActiveRows(f: Frame<Cell>, on: int, parse: Value -> Option<int>): Frame<Cell>
  {
    if !HasDates(f) then Frame(f.columns, []) else Where(Coerced(f, parse), ActiveOn(on))
  }

  /**
   * A row of the input is active exactly when both its date cells read as
   * dates and `on` lies between them, both ends included; the active rows
   * keep their order and the columns.
   */
  lemma ActiveRowsSelects(f: Frame<Cell>, on: int, parse: Value -> Option<int>, i: nat)
    requires HasDates(f) && i < |f.rows|
    requires "inicio" in f.rows[i] && "fim" in f.rows[i]
    ensures var g := Coerced(f, parse).rows[i];
      g in ActiveRows(f, on, parse).rows <==> ActiveOn(on)(g)
    ensures var g := Coerced(f, parse).rows[i];
      ActiveOn(on)(g) <==> (DayOf(f.rows[i]["inicio"], parse).Some? && DayOf(f.rows[i]["fim"], parse).Some?
        && DayOf(f.rows[i]["inicio"], parse).value <= on <= DayOf(f.rows[i]["fim"], parse).value)
    ensures ActiveRows(f, on, parse).columns == f.columns
    ensures IsSubsequence(ActiveRows(f, on, parse).rows, Coerced(f, parse).rows)
  {
    var g := Coerced(f, parse);
    assert g.rows[i] in g.rows;
    WhereSelects(g, ActiveOn(on));
  }

  /** The day a cell stands for once coerced, if any. */
  function DayOf(c: Cell, parse: Value -> Option<int>): Option<int>
  {
    var s := ToStamp(c, parse);
    if s.Stamp? then Some(s.day) else None
  }

  /**
   * The test's two seasons, reduced to the columns the function reads: on
   * a day inside the first season and outside the second only the first
   * (state `PA`) is active.
   */
  lemma ActiveExample(parse: Value -> Option<int>, on: int, a: int, b: int, c: int, d: int)
    requires parse(VStr("2025-08-01")) == Some(a) && parse(VStr("2025-09-15")) == Some(b)
    requires parse(VStr("2025-01-01")) == Some(c) && parse(VStr("2025-02-01")) == Some(d)
    requires a <= on <= b && d < on
    ensures var r1 := map["uf" := Text(VStr("PA")), "inicio" := Text(VStr("2025-08-01")), "fim" := Text(VStr("2025-09-15"))];
      var r2 := map["uf" := Text(VStr("AM")), "inicio" := Text(VStr("2025-01-01")), "fim" := Text(VStr("2025-02-01"))];
      var out := ActiveRows(Frame(["uf", "inicio", "fim"], [r1, r2]), on, parse);
      |out.rows| == 1 && out.rows[0]["uf"] == Text(VStr("PA"))
  {
    var r1 := map["uf" := Text(VStr("PA")), "inicio" := Text(VStr("2025-08-01")), "fim" := Text(VStr("2025-09-15"))];
    var r2 := map["uf" := Text(VStr("AM")), "inicio" := Text(VStr("2025-01-01")), "fim" := Text(VStr("2025-02-01"))];
    var f := Frame(["uf", "inicio", "fim"], [r1, r2]);
    var g := Coerced(f, parse);
    assert g.rows[0]["inicio"] == Stamp(a) && g.rows[0]["fim"] == Stamp(b) && g.rows[0]["uf"] == Text(VStr("PA"));
    assert g.rows[1]["fim"] == Stamp(d);
    assert ActiveOn(on)(g.rows[0]);
    assert !ActiveOn(on)(g.rows[1]);
    assert Filter(g.rows, ActiveOn(on)) == [g.rows[0]] by {
      assert g.rows[1..][1..] == [];
    }
  }

  // ---------------------------------------------------------------------
  // filter_defesos
  // ---------------------------------------------------------------------

  /** The species query: `especie` or `nome_popular` contains it, lower-cased. */
  function SpeciesMatches<C>(q: string, show: C -> string): Row<C> -> bool
  {
    (r: Row<C>) =>
      ("especie" in r && Contains(Lower(show(r["especie"])), Lower(q)))
      || ("nome_popular" in r && Contains(Lower(show(r["nome_popular"])), Lower(q)))
  }

  /** The sphere filter applies: given, the column exists, and it is not `todas`. */
  predicate EsferaApplies(esfera: Option<string>, columns: seq<string>)
  {
    Given(esfera) && "esfera" in columns && Lower(esfera.value) != "todas"
  }

  /**
   * `filter_defesos(df, uf, especie_query, arte_query, esfera)` with a
   * missing species column read as a column of empty texts: a missing or
   * empty frame is returned as is; otherwise the state, species, gear and
   * sphere masks are applied in turn. `show` is `astype(str)` on a cell.
   */
  function FilterDefesos<C>(df: Option<Frame<C>>, show: C -> string, uf: Option<string>,
                            especie: Option<string>, arte: Option<string>, esfera: Option<string>): Option<Frame<C>>
  {
    if df.None? || Empty(df.value) then df
    else
      var v0 := df.value;
      var v1 := if Given(uf) && "uf" in v0.columns then Where(v0, UpperIs("uf", uf.value, show)) else v0;
      var v2 := if Given(especie) then Where(v1, SpeciesMatches(especie.value, show)) else v1;
      var v3 := if Given(arte) && "arte_pesca" in v2.columns then Where(v2, LowerContains("arte_pesca", arte.value, show)) else v2;
      var v4 := if EsferaApplies(esfera, v3.columns) then Where(v3, CasefoldIs("esfera", esfera.value, show)) else v3;
      Some(v4)
  }

  /**
   * `filter_defesos` as written: with a species query, a frame lacking
   * `especie` or `nome_popular` makes `view.get(col, "")` return a plain
   * text, and `"".astype(str)` raises.
   */
  function FilterDefesosAsWritten<C>(df: Option<Frame<C>>, show: C -> string, uf: Option<string>,
                                     especie: Option<string>, arte: Option<string>,
                                     esfera: Option<string>): Outcome<Option<Frame<C>>>
  {
    if df.None? || Empty(df.value) then Returns(df)
    else if Given(especie) && !("especie" in df.value.columns && "nome_popular" in df.value.columns) then
      Raises("AttributeError")
    else Returns(FilterDefesos(df, show, uf, especie, arte, esfera))
  }

  /** The reference selection: a row is kept when every applicable filter accepts it. */
  predicate DefesoSelected<C>(r: Row<C>, columns: seq<string>, show: C -> string, uf: Option<string>,
                              especie: Option<string>, arte: Option<string>, esfera: Option<string>)
  {
    (Given(uf) && "uf" in columns ==> UpperIs("uf", uf.value, show)(r))
    && (Given(especie) ==> SpeciesMatches(especie.value, show)(r))
    && (Given(arte) && "arte_pesca" in columns ==> LowerContains("arte_pesca", arte.value, show)(r))
    && (EsferaApplies(esfera, columns) ==> CasefoldIs("esfera", esfera.value, show)(r))
  }

  /** The four filters as four conditional masks applied in turn. */
  lemma FilterDefesosMasks<C>(f: Frame<C>, show: C -> string, uf: Option<string>, especie: Option<string>,
                              arte: Option<string>, esfera: Option<string>)
    requires !Empty(f)
    ensures FilterDefesos(Some(f), show, uf, especie, arte, esfera) == Some(Where(Where(Where(Where(f,
      MaskIf(Given(uf) && "uf" in f.columns, UpperIs("uf", ArgText(uf), show))),
      MaskIf(Given(especie), SpeciesMatches(ArgText(especie), show))),
      MaskIf(Given(arte) && "arte_pesca" in f.columns, LowerContains("arte_pesca", ArgText(arte), show))),
      MaskIf(EsferaApplies(esfera, f.columns), CasefoldIs("esfera", ArgText(esfera), show))))
  {
    var m1 := MaskIf(Given(uf) && "uf" in f.columns, UpperIs("uf", ArgText(uf), show));
    var m2 := MaskIf(Given(especie), SpeciesMatches(ArgText(especie), show));
    var m3 := MaskIf(Given(arte) && "arte_pesca" in f.columns, LowerContains("arte_pesca", ArgText(arte), show));
    WhereIf(f, Given(uf) && "uf" in f.columns, UpperIs("uf", ArgText(uf), show));
    WhereIf(Where(f, m1), Given(especie), SpeciesMatches(ArgText(especie), show));
    WhereIf(Where(Where(f, m1), m2), Given(arte) && "arte_pesca" in f.columns,
            LowerContains("arte_pesca", ArgText(arte), show));
    WhereIf(Where(Where(Where(f, m1), m2), m3), EsferaApplies(esfera, f.columns),
            CasefoldIs("esfera", ArgText(esfera), show));
  }

  /** On a non-empty frame the result is the one selection by the reference predicate. */
  lemma FilterDefesosSelects<C>(f: Frame<C>, show: C -> string, uf: Option<string>, especie: Option<string>,
                                arte: Option<string>, esfera: Option<string>)
    requires !Empty(f)
    ensures FilterDefesos(Some(f), show, uf, especie, arte, esfera) ==
      Some(Where(f, (r: Row<C>) => DefesoSelected(r, f.columns, show, uf, especie, arte, esfera)))
  {
    var m1 := MaskIf(Given(uf) && "uf" in f.columns, UpperIs("uf", ArgText(uf), show));
    var m2 := MaskIf(Given(especie), SpeciesMatches(ArgText(especie), show));
    var m3 := MaskIf(Given(arte) && "arte_pesca" in f.columns, LowerContains("arte_pesca", ArgText(arte), show));
    var m4 := MaskIf(EsferaApplies(esfera, f.columns), CasefoldIs("esfera", ArgText(esfera), show));
    FilterDefesosMasks(f, show, uf, especie, arte, esfera);
    var sel := (r: Row<C>) => DefesoSelected(r, f.columns, show, uf, especie, arte, esfera);
    assert Where(Where(Where(Where(f, m1), m2), m3), m4) == Where(f, sel) by {
      forall r ensures sel(r) == (m1(r) && m2(r) && m3(r) && m4(r)) {
        SelectedByMasks(r, f.columns, show, uf, especie, arte, esfera);
      }
      WhereFour(f, m1, m2, m3, m4, sel);
    }
  }

  /**
   * On a non-empty frame the result keeps the columns, keeps rows in order,
   * and holds a row exactly when the input holds it and every applicable
   * filter accepts it.
   */
  lemma FilterDefesosRows<C>(f: Frame<C>, show: C -> string, uf: Option<string>, especie: Option<string>,
                             arte: Option<string>, esfera: Option<string>)
    requires !Empty(f)
    ensures FilterDefesos(Some(f), show, uf, especie, arte, esfera).value.columns == f.columns
    ensures IsSubsequence(FilterDefesos(Some(f), show, uf, especie, arte, esfera).value.rows, f.rows)
    ensures forall r :: r in FilterDefesos(Some(f), show, uf, especie, arte, esfera).value.rows <==>
      r in f.rows && DefesoSelected(r, f.columns, show, uf, especie, arte, esfera)
  {
    FilterDefesosSelects(f, show, uf, especie, arte, esfera);
    WhereSelects(f, (r: Row<C>) => DefesoSelected(r, f.columns, show, uf, especie, arte, esfera));
  }

  lemma SelectedByMasks<C>(r: Row<C>, columns: seq<string>, show: C -> string, uf: Option<string>,
                           especie: Option<string>, arte: Option<string>, esfera: Option<string>)
    ensures DefesoSelected(r, columns, show, uf, especie, arte, esfera) ==
      (MaskIf(Given(uf) && "uf" in columns, UpperIs("uf", ArgText(uf), show))(r)
       && MaskIf(Given(especie), SpeciesMatches(ArgText(especie), show))(r)
       && MaskIf(Given(arte) && "arte_pesca" in columns, LowerContains("arte_pesca", ArgText(arte), show))(r)
       && MaskIf(EsferaApplies(esfera, columns), CasefoldIs("esfera", ArgText(esfera), show))(r))
  {
  }

  /** A missing or empty frame comes back unchanged. */
  lemma FilterDefesosEmpty<C>(df: Option<Frame<C>>, show: C -> string, uf: Option<string>,
                              especie: Option<string>, arte: Option<string>, esfera: Option<string>)
    requires df.None? || Empty(df.value)
    ensures FilterDefesos(df, show, uf, especie, arte, esfera) == df
    ensures FilterDefesosAsWritten(df, show, uf, especie, arte, esfera) == Returns(df)
  {
  }

  /** A sphere of `todas`, in any case, filters nothing. */
  lemma FilterDefesosTodas<C>(df: Option<Frame<C>>, show: C -> string, uf: Option<string>,
                              especie: Option<string>, arte: Option<string>, esfera: string)
    requires Lower(esfera) == "todas"
    ensures FilterDefesos(df, show, uf, especie, arte, Some(esfera)) == FilterDefesos(df, show, uf, especie, arte, None)
  {
  }

  /**
   * The code as written raises exactly for a species query on a non-empty
   * frame that lacks one of the two species columns, and otherwise agrees
   * with the corrected filter.
   */
  lemma FilterDefesosAsWrittenRaises<C>(df: Option<Frame<C>>, show: C -> string, uf: Option<string>,
                                        especie: Option<string>, arte: Option<string>, esfera: Option<string>)
    ensures FilterDefesosAsWritten(df, show, uf, especie, arte, esfera).Raises? <==>
      df.Some? && !Empty(df.value) && Given(especie)
      && !("especie" in df.value.columns && "nome_popular" in df.value.columns)
    ensures FilterDefesosAsWritten(df, show, uf, especie, arte, esfera).Returns? ==>
      FilterDefesosAsWritten(df, show, uf, especie, arte, esfera).value == FilterDefesos(df, show, uf, especie, arte, esfera)
  {
  }

  /**
   * The failing input: a table of species without a popular-name column,
   * queried by species. As written this raises; the corrected filter keeps
   * the row whose species matches.
   */
  lemma FilterDefesosMissingColumn(q: string)
    requires q != ""
    ensures var r := map["especie" := VStr(q)];
      var f := Frame(["especie"], [r]);
      FilterDefesosAsWritten(Some(f), Str, None, Some(q), None, None).Raises?
      && FilterDefesos(Some(f), Str, None, Some(q), None, None) == Some(f)
  {
    var r := map["especie" := VStr(q)];
    var f := Frame(["especie"], [r]);
    var show: Value -> string := Str;
    assert show(r["especie"]) == q;
    assert Lower(q)[0..|Lower(q)|] == Lower(q);
    assert StartsAt(Lower(q), 0, Lower(q));
    assert SpeciesMatches(q, Str)(r);
    assert Filter(f.rows, SpeciesMatches(q, Str)) == [r] by {
      assert f.rows[1..] == [];
    }
  }

  /**
   * The test's filter, on its two seasons reduced to the columns read:
   * state `PA` and gear `re` keep only the shrimp season.
   */
  lemma FilterExample()
    ensures var r1 := map["especie" := VStr("Camarão"), "uf" := VStr("PA"), "arte_pesca" := VStr("rede")];
      var r2 := map["especie" := VStr("Peixe"), "uf" := VStr("AM"), "arte_pesca" := VStr("anzol")];
      var f := Frame(["especie", "uf", "arte_pesca"], [r1, r2]);
      FilterDefesos(Some(f), Str, Some("PA"), None, Some("re"), None) == Some(Frame(f.columns, [r1]))
  {
    var r1 := map["especie" := VStr("Camarão"), "uf" := VStr("PA"), "arte_pesca" := VStr("rede")];
    var r2 := map["especie" := VStr("Peixe"), "uf" := VStr("AM"), "arte_pesca" := VStr("anzol")];
    var f := Frame(["especie", "uf", "arte_pesca"], [r1, r2]);
    var sel := (r: Row<Value>) => DefesoSelected(r, f.columns, Str, Some("PA"), None, Some("re"), None);
    FilterDefesosSelects(f, Str, Some("PA"), None, Some("re"), None);
    ShrimpSelected(r1, f.columns);
    FishRejected(r2, f.columns);
    assert Filter(f.rows, sel) == [r1] by {
      assert f.rows[1..][1..] == [];
    }
  }

  lemma ShrimpSelected(r: Row<Value>, columns: seq<string>)
    requires "uf" in r && r["uf"] == VStr("PA") && "arte_pesca" in r && r["arte_pesca"] == VStr("rede")
    ensures DefesoSelected(r, columns, Str, Some("PA"), None, Some("re"), None)
  {
    var show: Value -> string := Str;
    assert show(r["arte_pesca"]) == "rede" && show(r["uf"]) == "PA";
    ReContained();
    assert UpperIs("uf", "PA", show)(r);
    assert LowerContains("arte_pesca", "re", show)(r);
    assert Given(Some("PA")) && Given(Some("re"));
  }

  lemma FishRejected(r: Row<Value>, columns: seq<string>)
    requires "uf" in r && r["uf"] == VStr("AM") && "uf" in columns
    ensures !DefesoSelected(r, columns, Str, Some("PA"), None, Some("re"), None)
  {
    var show: Value -> string := Str;
    assert show(r["uf"]) == "AM";
    StatesDiffer();
    assert Given(Some("PA"));
  }

  lemma ReContained()
    ensures Contains(Lower("rede"), Lower("re"))
  {
    assert Lower("re") == "re";
    assert Lower("rede")[0..2] == "re";
    assert StartsAt(Lower("rede"), 0, Lower("re"));
  }

  lemma StatesDiffer()
    ensures Upper("AM") != Upper("PA")
  {
    assert Upper("AM")[0] == 'A' && Upper("PA")[0] == 'P';
  }
}
