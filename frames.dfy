/**
 * Data frames as the services and ETL scripts use them: an ordered list of
 * column names and a list of rows, each row a map from column name to cell.
 * Boolean-mask selection (`df[mask]`) keeps the rows satisfying a
 * predicate, in order, and never changes the columns.
 */
module Frames {
  import opened PyStr
  import opened Seqs

  /** A row: its cells by column name. */
  type Row<C> = map<string, C>

  /** A frame: its column names in order and its rows in order. */
  datatype Frame<C> = Frame(columns: seq<string>, rows: seq<Row<C>>)

  /** What a Python call does: return a value or raise. */
  datatype Outcome<T> = Returns(value: T) | Raises(error: string)

  /** `df.empty`: either axis has length zero. */
  predicate Empty<C>(f: Frame<C>)
  {
    |f.columns| == 0 || |f.rows| == 0
  }

  /** Every row has exactly the frame's columns. */
  ghost predicate WellFormed<C>(f: Frame<C>)
  {
    forall r, c :: r in f.rows ==> (c in r <==> c in f.columns)
  }

  /** `df[mask]` */
  function Where<C>(f: Frame<C>, keep: Row<C> -> bool): Frame<C>
  {
    Frame(f.columns, Filter(f.rows, keep))
  }

  /**
   * A selection keeps the columns, keeps the rows in order, keeps exactly
   * the rows that satisfy the mask, and keeps the frame well formed.
   */
  lemma WhereSelects<C>(f: Frame<C>, keep: Row<C> -> bool)
    ensures Where(f, keep).columns == f.columns
    ensures IsSubsequence(Where(f, keep).rows, f.rows)
    ensures forall r :: r in Where(f, keep).rows <==> r in f.rows && keep(r)
    ensures WellFormed(f) ==> WellFormed(Where(f, keep))
  {
    FilterIsSubsequence(f.rows, keep);
    forall r ensures r in Where(f, keep).rows <==> r in f.rows && keep(r) {
      FilterMember(f.rows, keep, r);
    }
    if WellFormed(f) {
      forall r, c | r in Where(f, keep).rows ensures c in r <==> c in f.columns {
        FilterMember(f.rows, keep, r);
      }
    }
  }

  /** `df[m1]` followed by `[m2]` is one selection by both masks. */
  lemma WhereWhere<C>(f: Frame<C>, p: Row<C> -> bool, q: Row<C> -> bool, pq: Row<C> -> bool)
    requires forall r :: pq(r) == (p(r) && q(r))
    ensures Where(Where(f, p), q) == Where(f, pq)
  {
    FilterFilter(f.rows, p, q, pq);
  }

  /** Three successive selections are one selection by all three masks. */
  lemma WhereThree<C>(f: Frame<C>, p: Row<C> -> bool, q: Row<C> -> bool, t: Row<C> -> bool, all: Row<C> -> bool)
    requires forall r :: all(r) == (p(r) && q(r) && t(r))
    ensures Where(Where(Where(f, p), q), t) == Where(f, all)
  {
    var pq := (r: Row<C>) => p(r) && q(r);
    FilterFilter(f.rows, p, q, pq);
    FilterFilter(f.rows, pq, t, all);
  }

  /** Four successive selections are one selection by all four masks. */
  lemma WhereFour<C>(f: Frame<C>, p: Row<C> -> bool, q: Row<C> -> bool, t: Row<C> -> bool, u: Row<C> -> bool,
                     all: Row<C> -> bool)
    requires forall r :: all(r) == (p(r) && q(r) && t(r) && u(r))
    ensures Where(Where(Where(Where(f, p), q), t), u) == Where(f, all)
  {
    var pqt := (r: Row<C>) => p(r) && q(r) && t(r);
    WhereThree(f, p, q, t, pqt);
    FilterFilter(f.rows, pqt, u, all);
  }

  /** A mask applied only under a condition: rows pass trivially when it is off. */
  function MaskIf<C>(cond: bool, keep: Row<C> -> bool): Row<C> -> bool
  {
    (r: Row<C>) => !cond || keep(r)
  }

  /** `view = view[mask] if cond else view` is one selection by the conditional mask. */
  lemma WhereIf<C>(f: Frame<C>, cond: bool, keep: Row<C> -> bool)
    ensures (if cond then Where(f, keep) else f) == Where(f, MaskIf(cond, keep))
  {
    if cond {
      FilterSame(f.rows, keep, MaskIf(cond, keep));
    } else {
      FilterAll(f.rows, MaskIf(cond, keep));
    }
  }

  // ---------------------------------------------------------------------
  // Optional text arguments and the column masks built from them
  // ---------------------------------------------------------------------

  /** An optional text argument that is truthy: given and non-empty. */
  predicate Given(a: Option<string>)
  {
    a.Some? && a.value != ""
  }

  /** The argument's text, empty when it is not given. */
  function ArgText(a: Option<string>): string
  {
    if a.Some? then a.value else ""
  }

  /** `df[key].astype(str).str.upper() == want.upper()`, with `show` as `astype(str)`. */
  function UpperIs<C>(key: string, want: string, show: C -> string): Row<C> -> bool
  {
    (r: Row<C>) => key in r && Upper(show(r[key])) == Upper(want)
  }

  /** `df[key].astype(str).str.casefold() == want.casefold()` */
  function CasefoldIs<C>(key: string, want: string, show: C -> string): Row<C> -> bool
  {
    (r: Row<C>) => key in r && Casefold(show(r[key])) == Casefold(want)
  }

  /**
   * `df[key].astype(str).str.lower().str.contains(q.lower())`. pandas reads
   * `q` as a regular expression; this is a plain substring test, so it
   * agrees with pandas only for queries without regex metacharacters, and
   * it never raises for a malformed pattern.
   */
  function LowerContains<C>(key: string, q: string, show: C -> string): Row<C> -> bool
  {
    (r: Row<C>) => key in r && Contains(Lower(show(r[key])), Lower(q))
  }
}
