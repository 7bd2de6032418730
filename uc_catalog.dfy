/**
 * The protected-area catalogue filter `filter_ucs`: optional state, sphere
 * and category arguments, each applied as an equality mask on its column
 * when the argument is non-empty and the column exists.
 */
module UcCatalog {
  import opened PyStr
  import opened PyValue
  import opened Seqs
  import opened Frames

  /** The filter on `key` is applied: its argument is given and the column exists. */
  predicate Applies(a: Option<string>, key: string, columns: seq<string>)
  {
    Given(a) && key in columns
  }

  /**
   * `filter_ucs(df, uf, esfera, categoria)`: a missing or empty frame is
   * returned as is; otherwise the three masks are applied in turn to a copy.
   */
  function FilterUcs(df: Option<Frame<Value>>, uf: Option<string>, esfera: Option<string>,
                     categoria: Option<string>): Option<Frame<Value>>
  {
    if df.None? || Empty(df.value) then df
    else
      var v0 := df.value;
      var v1 := if Applies(uf, "uf", v0.columns) then Where(v0, UpperIs("uf", uf.value, Str)) else v0;
      var v2 := if Applies(esfera, "esfera", v1.columns) then Where(v1, CasefoldIs("esfera", esfera.value, Str)) else v1;
      var v3 := if Applies(categoria, "categoria", v2.columns) then Where(v2, UpperIs("categoria", categoria.value, Str)) else v2;
      Some(v3)
  }

  /** The reference selection: a row is kept when every applicable filter accepts it. */
  predicate UcSelected(r: Row<Value>, columns: seq<string>, uf: Option<string>, esfera: Option<string>,
                       categoria: Option<string>)
  {
    (Applies(uf, "uf", columns) ==> "uf" in r && Upper(Str(r["uf"])) == Upper(uf.value))
    && (Applies(esfera, "esfera", columns) ==> "esfera" in r && Casefold(Str(r["esfera"])) == Casefold(esfera.value))
    && (Applies(categoria, "categoria", columns) ==>
          "categoria" in r && Upper(Str(r["categoria"])) == Upper(categoria.value))
  }

  /** A missing or empty frame comes back unchanged. */
  lemma FilterUcsEmpty(df: Option<Frame<Value>>, uf: Option<string>, esfera: Option<string>,
                       categoria: Option<string>)
    requires df.None? || Empty(df.value)
    ensures FilterUcs(df, uf, esfera, categoria) == df
  {
  }

  /** The three filters as three conditional masks applied in turn. */
  lemma FilterUcsMasks(f: Frame<Value>, uf: Option<string>, esfera: Option<string>, categoria: Option<string>)
    requires !Empty(f)
    ensures FilterUcs(Some(f), uf, esfera, categoria) == Some(Where(Where(Where(f,
      MaskIf(Applies(uf, "uf", f.columns), UpperIs("uf", ArgText(uf), Str))),
      MaskIf(Applies(esfera, "esfera", f.columns), CasefoldIs("esfera", ArgText(esfera), Str))),
      MaskIf(Applies(categoria, "categoria", f.columns), UpperIs("categoria", ArgText(categoria), Str))))
  {
    var m1 := MaskIf(Applies(uf, "uf", f.columns), UpperIs("uf", ArgText(uf), Str));
    var m2 := MaskIf(Applies(esfera, "esfera", f.columns), CasefoldIs("esfera", ArgText(esfera), Str));
    WhereIf(f, Applies(uf, "uf", f.columns), UpperIs("uf", ArgText(uf), Str));
    WhereIf(Where(f, m1), Applies(esfera, "esfera", f.columns), CasefoldIs("esfera", ArgText(esfera), Str));
    WhereIf(Where(Where(f, m1), m2), Applies(categoria, "categoria", f.columns),
            UpperIs("categoria", ArgText(categoria), Str));
  }

  /**
   * On a non-empty frame the result is the one selection by the reference
   * predicate: same columns, the selected rows in their original order.
   */
  lemma FilterUcsSelects(f: Frame<Value>, uf: Option<string>, esfera: Option<string>,
                         categoria: Option<string>)
    requires !Empty(f)
    ensures FilterUcs(Some(f), uf, esfera, categoria) ==
      Some(Where(f, (r: Row<Value>) => UcSelected(r, f.columns, uf, esfera, categoria)))
  {
    var m1 := MaskIf(Applies(uf, "uf", f.columns), UpperIs("uf", ArgText(uf), Str));
    var m2 := MaskIf(Applies(esfera, "esfera", f.columns), CasefoldIs("esfera", ArgText(esfera), Str));
    var m3 := MaskIf(Applies(categoria, "categoria", f.columns), UpperIs("categoria", ArgText(categoria), Str));
    FilterUcsMasks(f, uf, esfera, categoria);
    var sel := (r: Row<Value>) => UcSelected(r, f.columns, uf, esfera, categoria);
    WhereThree(f, m1, m2, m3, sel);
  }

  /**
   * The result keeps the columns, keeps rows in order, and holds a row
   * exactly when the input holds it and every applicable filter accepts it.
   */
  lemma FilterUcsRows(f: Frame<Value>, uf: Option<string>, esfera: Option<string>,
                      categoria: Option<string>)
    requires !Empty(f)
    ensures FilterUcs(Some(f), uf, esfera, categoria).value.columns == f.columns
    ensures IsSubsequence(FilterUcs(Some(f), uf, esfera, categoria).value.rows, f.rows)
    ensures forall r :: r in FilterUcs(Some(f), uf, esfera, categoria).value.rows <==>
      r in f.rows && UcSelected(r, f.columns, uf, esfera, categoria)
  {
    FilterUcsSelects(f, uf, esfera, categoria);
    WhereSelects(f, (r: Row<Value>) => UcSelected(r, f.columns, uf, esfera, categoria));
  }

  /** With no argument given the frame comes back unchanged. */
  lemma FilterUcsNoArguments(df: Option<Frame<Value>>)
    ensures FilterUcs(df, None, None, None) == df
  {
  }
}
