/**
 * The small geographic helpers: text normalisation for name comparison and
 * the guess of which columns of a table hold latitude and longitude.
 */
module Geo {
  import opened PyStr
  import opened PyValue
  import opened Frames

  /** `normalize_text(s)`: `None` is the empty text; otherwise stripped and lower-cased. */
  function NormalizeText(s: Value): string
  {
    if s.VNone? then "" else Lower(Strip(Str(s)))
  }

  /** A normalised text is stripped, and normalising it again changes nothing. */
  lemma NormalizeTextIdempotent(s: Value)
    ensures IsStripped(NormalizeText(s))
    ensures NormalizeText(VStr(NormalizeText(s))) == NormalizeText(s)
  {
    var n := NormalizeText(s);
    assert Str(VStr(n)) == n;
    if !s.VNone? {
      NormalizeStripped(Str(s));
    }
  }

  lemma NormalizeStripped(t: string)
    ensures IsStripped(Lower(Strip(t)))
    ensures Lower(Strip(Lower(Strip(t)))) == Lower(Strip(t))
  {
    LowerStripped(Strip(t));
    StripOfStripped(Lower(Strip(t)));
    LowerIdempotent(Strip(t));
  }

  /**
   * `{c.lower(): c for c in columns}`: every lower-cased name mapped to a
   * column with that name; a later column overwrites an earlier one.
   */
  function LowerIndex(columns: seq<string>): map<string, string>
    decreases |columns|
  {
    if |columns| == 0 then map[]
    else
      var last := columns[|columns| - 1];
      LowerIndex(columns[..|columns| - 1])[Lower(last) := last]
  }

  /** A lower-cased name is a key exactly when some column lower-cases to it. */
  lemma {:induction false} LowerIndexKeys(columns: seq<string>, k: string)
    ensures k in LowerIndex(columns) <==> exists i :: 0 <= i < |columns| && Lower(columns[i]) == k
    decreases |columns|
  {
    if |columns| > 0 {
      var n := |columns| - 1;
      var init := columns[..n];
      LowerIndexKeys(init, k);
      if exists i :: 0 <= i < |columns| && Lower(columns[i]) == k {
        var i :| 0 <= i < |columns| && Lower(columns[i]) == k;
        if i < n {
          assert init[i] == columns[i];
        }
      }
    }
  }

  /** A key maps to the last column that lower-cases to it. */
  lemma {:induction false} LowerIndexLast(columns: seq<string>, k: string, i: nat)
    requires i < |columns| && Lower(columns[i]) == k
    requires forall j :: i < j < |columns| ==> Lower(columns[j]) != k
    ensures k in LowerIndex(columns) && LowerIndex(columns)[k] == columns[i]
    decreases |columns|
  {
    var n := |columns| - 1;
    if i < n {
      var init := columns[..n];
      assert init[i] == columns[i];
      assert Lower(columns[n]) != k;
      LowerIndexLast(init, k, i);
    }
  }

  /** The column a key maps to lower-cases to the key and belongs to the frame. */
  lemma {:induction false} LowerIndexValue(columns: seq<string>, k: string)
    requires k in LowerIndex(columns)
    ensures LowerIndex(columns)[k] in columns && Lower(LowerIndex(columns)[k]) == k
    decreases |columns|
  {
    var n := |columns| - 1;
    if Lower(columns[n]) != k {
      var init := columns[..n];
      LowerIndexValue(init, k);
      assert LowerIndex(init)[k] in columns;
    }
  }

  /** The candidate name pairs, in the order they are tried. */
  const Candidates: seq<(string, string)> := [("lat", "lon"), ("latitude", "longitude"), ("y", "x")]

  /** The first candidate pair, from position `i` on, with both names among the keys. */
  function FirstPair(cands: seq<(string, string)>, cols: map<string, string>, i: nat): (r: Option<nat>)
    requires i <= |cands|
    ensures r.Some? ==> i <= r.value < |cands| && cands[r.value].0 in cols && cands[r.value].1 in cols
    ensures r.Some? ==> forall j :: i <= j < r.value ==> !(cands[j].0 in cols && cands[j].1 in cols)
    ensures r.None? ==> forall j :: i <= j < |cands| ==> !(cands[j].0 in cols && cands[j].1 in cols)
    decreases |cands| - i
  {
    if i == |cands| then None
    else if cands[i].0 in cols && cands[i].1 in cols then Some(i)
    else FirstPair(cands, cols, i + 1)
  }

  /**
   * `guess_latlon_cols(df)`: nothing for a missing or empty frame;
   * otherwise the original names of the first candidate pair present
   * case-insensitively, or nothing.
   */
  function GuessLatLonCols(df: Option<Frame<Value>>): (Option<string>, Option<string>)
  {
    if df.None? || Empty(df.value) then (None, None)
    else
      var cols := LowerIndex(df.value.columns);
      match FirstPair(Candidates, cols, 0)
      case Some(i) => (Some(cols[Candidates[i].0]), Some(cols[Candidates[i].1]))
      case None => (None, None)
  }

  /** Some column of the frame lower-cases to `name`. */
  predicate HasColumnNamed(columns: seq<string>, name: string)
  {
    exists i :: 0 <= i < |columns| && Lower(columns[i]) == name
  }

  /**
   * On a non-empty frame the guess names columns of the frame that
   * lower-case to the first candidate pair whose names are both present;
   * it is empty exactly when no pair is present.
   */
  lemma GuessLatLonColsFinds(f: Frame<Value>)
    requires !Empty(f)
    ensures var (lat, lon) := GuessLatLonCols(Some(f));
      (lat.None? <==> forall j :: 0 <= j < |Candidates| ==>
         !(HasColumnNamed(f.columns, Candidates[j].0) && HasColumnNamed(f.columns, Candidates[j].1)))
      && lat.None? == lon.None?
    ensures var (lat, lon) := GuessLatLonCols(Some(f));
      lat.Some? ==> exists i :: (0 <= i < |Candidates|
        && lat.value in f.columns && Lower(lat.value) == Candidates[i].0
        && lon.value in f.columns && Lower(lon.value) == Candidates[i].1
        && HasColumnNamed(f.columns, Candidates[i].0) && HasColumnNamed(f.columns, Candidates[i].1)
        && forall j :: 0 <= j < i ==>
             !(HasColumnNamed(f.columns, Candidates[j].0) && HasColumnNamed(f.columns, Candidates[j].1)))
  {
    var cols := LowerIndex(f.columns);
    forall k ensures k in cols <==> HasColumnNamed(f.columns, k) {
      LowerIndexKeys(f.columns, k);
    }
    var r := FirstPair(Candidates, cols, 0);
    if r.Some? {
      var i := r.value;
      LowerIndexValue(f.columns, Candidates[i].0);
      LowerIndexValue(f.columns, Candidates[i].1);
    }
  }

  /** A missing or empty frame gives no guess. */
  lemma GuessLatLonColsEmpty(df: Option<Frame<Value>>)
    requires df.None? || Empty(df.value)
    ensures GuessLatLonCols(df) == (None, None)
  {
  }

  /** Upper-case `LAT`/`Lon` columns are found and returned under their own names. */
  lemma GuessExample(rows: seq<Row<Value>>)
    requires |rows| > 0
    ensures GuessLatLonCols(Some(Frame(["LAT", "Lon"], rows))) == (Some("LAT"), Some("Lon"))
  {
    var columns := ["LAT", "Lon"];
    assert Lower("LAT") == "lat";
    assert Lower("Lon") == "lon";
    assert LowerIndex(columns) == map["lat" := "LAT", "lon" := "Lon"] by {
      assert columns[..1] == ["LAT"];
      assert columns[..1][..0] == [];
    }
  }
}
