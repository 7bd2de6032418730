/**
 * The column clean-up of the protected-areas (UC) script: renaming columns
 * that look like a target name, listing and resolving duplicate column
 * names. A table is its column names and, where the content matters, one
 * value of type `T` per column (the column's whole content, compared with
 * `Series.equals`).
 */
module EtlUcs {
  import opened PyStr
  import opened PyFloat
  import opened Seqs
  import opened EtlCommon

  // ---------------------------------------------------------------------
  // Suffixed names: `f"{name}_{k}"`
  // ---------------------------------------------------------------------

  function Suffixed(name: string, k: nat): string
  {
    name + "_" + NatToStr(k)
  }

  /** A suffixed name determines both its base name and its number. */
  lemma SuffixedInjective(a: string, k1: nat, b: string, k2: nat)
    requires Suffixed(a, k1) == Suffixed(b, k2)
    ensures a == b && k1 == k2
  {
    var s := Suffixed(a, k1);
    LastUnderscoreOf(a, k1);
    LastUnderscoreOf(b, k2);
    assert a == s[..|a|] && b == s[..|b|];
    assert NatToStr(k1) == s[|a| + 1..] == NatToStr(k2);
    NatToStrInjective(k1, k2);
  }

  /** The position of the last `_`, if any. */
  function LastUnderscore(s: string): Option<nat>
    decreases |s|
  {
    if |s| == 0 then None
    else if s[|s| - 1] == '_' then Some(|s| - 1)
    else LastUnderscore(s[..|s| - 1])
  }

  /** The last `_` of a suffixed name is the one after the base name. */
  lemma LastUnderscoreOf(name: string, k: nat)
    ensures LastUnderscore(Suffixed(name, k)) == Some(|name|)
  {
    NatToStrNoUnderscore(k);
    LastUnderscoreSkip(name + "_", NatToStr(k));
    assert Suffixed(name, k) == (name + "_") + NatToStr(k);
  }

  lemma {:induction false} LastUnderscoreSkip(x: string, t: string)
    requires '_' !in t
    ensures LastUnderscore(x + t) == LastUnderscore(x)
    decreases |t|
  {
    if |t| > 0 {
      assert (x + t)[..|x + t| - 1] == x + t[..|t| - 1];
      assert t[|t| - 1] in t;
      LastUnderscoreSkip(x, t[..|t| - 1]);
    } else {
      assert x + t == x;
    }
  }

  /** A number of at least `10^n` has more than `n` digits. */
  lemma {:induction false} NatToStrLong(k: nat, n: nat)
    requires k >= Pow10(n)
    ensures |NatToStr(k)| > n
    decreases n
  {
    if n > 0 {
      NatToStrLong(k / 10, n - 1);
    }
  }

  /** The length of the longest name. */
  function MaxLen(names: seq<string>): (m: nat)
    ensures forall i :: 0 <= i < |names| ==> |names[i]| <= m
    decreases |names|
  {
    if |names| == 0 then 0
    else var m := MaxLen(names[1..]); if |names[0]| > m then |names[0]| else m
  }

  /** A suffixed name that is taken has a number below `10^(longest taken length)`. */
  lemma TakenBound(name: string, k: nat, bound: nat)
    requires |Suffixed(name, k)| <= bound
    ensures k < Pow10(bound)
  {
    if k >= Pow10(bound) {
      NatToStrLong(k, bound);
    }
  }

  predicate Distinct(s: seq<string>)
  {
    forall i, j :: 0 <= i < j < |s| ==> s[i] != s[j]
  }

  // ---------------------------------------------------------------------
  // _rename_like
  // ---------------------------------------------------------------------

  /** The alias lists of the script, per target name. */
  const UcAliases: map<string, seq<string>> := map[
    "nome" := ["nome", "nm_uc", "nm_area", "unidade_conservacao", "nm_prot"],
    "categoria" := ["categoria", "categoria_uc", "cat", "grupo", "grupo_categoria", "categoria_sigla",
                    "categoria_uc_sigla"],
    "esfera" := ["esfera", "jurisdicao", "gestao", "administracao", "administradora", "orgao_gestor", "esfera_adm"],
    "uf" := ["uf", "sg_uf", "estado", "sigla_uf"],
    "link" := ["link", "url", "fonte", "site"]]

  /** `ALIASES.get(col, [])` */
  function AliasesOf(col: string): seq<string>
  {
    if col in UcAliases then UcAliases[col] else []
  }

  /** `{_norm(a) for a in [col] + aliases}`: the tokens that make a column look like `col`. */
  function LikeWanted(col: string, aliases: seq<string>, tok: string -> string): set<string>
  {
    set a | a in [col] + aliases :: tok(a)
  }

  /** The names after renaming every column whose token is wanted to `col`. */
  function RenamedLike(columns: seq<string>, col: string, wanted: set<string>, tok: string -> string): (r: seq<string>)
    ensures |r| == |columns|
  {
    seq(|columns|, i requires 0 <= i < |columns| => if tok(columns[i]) in wanted then col else columns[i])
  }

  /**
   * Renaming to `col` moves exactly the columns whose token is wanted, and
   * a second renaming changes nothing, because `col`'s own token is wanted.
   */
  lemma RenamedLikeIdempotent(columns: seq<string>, col: string, aliases: seq<string>, tok: string -> string)
    ensures var w := LikeWanted(col, aliases, tok);
      RenamedLike(RenamedLike(columns, col, w, tok), col, w, tok) == RenamedLike(columns, col, w, tok)
  {
    assert col in [col] + aliases;
  }

  /** The loop of `_rename_like`: `rename_map[c] = col` for every wanted column. */
  method LikeMapping(columns: seq<string>, col: string, wanted: set<string>, tok: string -> string)
    returns (m: map<string, string>)
    ensures forall c :: c in m <==> c in columns && tok(c) in wanted
    ensures forall c :: c in m ==> m[c] == col
  {
    m := map[];
    for i := 0 to |columns|
      invariant forall c :: c in m <==> c in columns[..i] && tok(c) in wanted
      invariant forall c :: c in m ==> m[c] == col
    {
      assert columns[..i + 1] == columns[..i] + [columns[i]];
      if tok(columns[i]) in wanted {
        m := m[columns[i] := col];
      }
    }
    assert columns[..|columns|] == columns;
  }

  /** A table whose column names the script renames in place. */
  class Table {
    var columns: seq<string>

    constructor (columns: seq<string>)
      ensures this.columns == columns
    {
      this.columns := columns;
    }

    /**
     * `_rename_like(gdf, col)`: every column whose `_norm` token is `col`'s
     * or one of its aliases' is renamed to `col`, in place; the other
     * columns keep their names.
     */
    method RenameLike(col: string)
      modifies this
      ensures columns == RenamedLike(old(columns), col, LikeWanted(col, AliasesOf(col), TokenOf), TokenOf)
    {
      RenameLikeBy(col, LikeWanted(col, AliasesOf(col), TokenOf), TokenOf);
    }

    /** The body of `_rename_like` for a given wanted set and token function. */
    method RenameLikeBy(col: string, wanted: set<string>, tok: string -> string)
      modifies this
      ensures columns == RenamedLike(old(columns), col, wanted, tok)
    {
      var m := LikeMapping(columns, col, wanted, tok);
      if |m| > 0 {
        columns := Renamed(columns, m);
      }
    }

    /** `force_unique_columns(df)`: a renamed copy; this table is left as it is. */
    method ForceUnique() returns (t: Table)
      ensures fresh(t) && t.columns == ForceUniqueOf(columns)
    {
      var names := ForceUniqueColumns(columns);
      t := new Table(names);
    }
  }

  // ---------------------------------------------------------------------
  // list_duplicated_cols
  // ---------------------------------------------------------------------

  /** `[c for c, d in zip(df.columns, Index.duplicated(keep=False)) if d]` */
  function ListDuplicatedCols(columns: seq<string>): seq<string>
  {
    Filter(columns, c => multiset(columns)[c] > 1)
  }

  lemma {:induction false} FilterCount<T>(s: seq<T>, p: T -> bool, x: T)
    ensures multiset(Filter(s, p))[x] == if p(x) then multiset(s)[x] else 0
    decreases |s|
  {
    if |s| > 0 {
      FilterCount(s[1..], p, x);
      assert s == [s[0]] + s[1..];
    }
  }

  /**
   * Every occurrence of a repeated name is listed, in column order, and a
   * name that occurs once is not.
   */
  lemma ListDuplicatedSpec(columns: seq<string>, x: string)
    ensures multiset(ListDuplicatedCols(columns))[x] == if multiset(columns)[x] > 1 then multiset(columns)[x] else 0
    ensures IsSubsequence(ListDuplicatedCols(columns), columns)
  {
    FilterCount(columns, c => multiset(columns)[c] > 1, x);
    FilterIsSubsequence(columns, c => multiset(columns)[c] > 1);
  }

  // ---------------------------------------------------------------------
  // force_unique_columns
  // ---------------------------------------------------------------------

  /** How often column `i`'s name occurs before it. */
  function Seen(columns: seq<string>, i: nat): nat
    requires i < |columns|
  {
    multiset(columns[..i])[columns[i]]
  }

  /** The name `force_unique_columns` gives column `i`. */
  function ForcedName(columns: seq<string>, i: nat): string
    requires i < |columns|
  {
    if Seen(columns, i) == 0 then columns[i] else Suffixed(columns[i], Seen(columns, i) + 1)
  }

  function ForceUniqueOf(columns: seq<string>): (r: seq<string>)
    ensures |r| == |columns|
  {
    seq(|columns|, i requires 0 <= i < |columns| => ForcedName(columns, i))
  }

  /** The `counts` loop of `force_unique_columns`. */
  method ForceUniqueColumns(columns: seq<string>) returns (newCols: seq<string>)
    ensures newCols == ForceUniqueOf(columns)
  {
    var counts: map<string, nat> := map[];
    newCols := [];
    for i := 0 to |columns|
      invariant Counted(columns, i, counts)
      invariant |newCols| == i && forall j :: 0 <= j < i ==> newCols[j] == ForcedName(columns, j)
    {
      var c := columns[i];
      CountsStep(columns, i, counts);
      ghost var before := newCols;
      if c in counts {
        counts := counts[c := counts[c] + 1];
        newCols := newCols + [Suffixed(c, counts[c])];
      } else {
        counts := counts[c := 1];
        newCols := newCols + [c];
      }
      assert newCols == before + [ForcedName(columns, i)];
    }
    assert newCols == ForceUniqueOf(columns);
  }

  /** `counts` holds how often each name occurs among the first `i` columns, and only names that occur. */
  ghost predicate Counted(columns: seq<string>, i: nat, counts: map<string, nat>)
    requires i <= |columns|
  {
    && (forall c :: multiset(columns[..i])[c] == if c in counts then counts[c] else 0)
    && forall c :: c in counts ==> counts[c] > 0
  }

  /** One more column counted: its count before is how often it was seen, and it goes up by one. */
  lemma CountsStep(columns: seq<string>, i: nat, counts: map<string, nat>)
    requires i < |columns| && Counted(columns, i, counts)
    ensures Seen(columns, i) == if columns[i] in counts then counts[columns[i]] else 0
    ensures Counted(columns, i + 1, counts[columns[i] := if columns[i] in counts then counts[columns[i]] + 1 else 1])
  {
    var c := columns[i];
    var after := counts[c := if c in counts then counts[c] + 1 else 1];
    assert columns[..i + 1] == columns[..i] + [c];
    assert multiset(columns[..i + 1]) == multiset(columns[..i]) + multiset{c};
    assert forall x :: multiset(columns[..i + 1])[x] == if x in after then after[x] else 0;
    assert forall x :: x in after ==> after[x] > 0;
  }

  /**
   * The renamed names keep the length and every first occurrence, and the
   * k-th occurrence of a name becomes `name_k`; when no column is already
   * named like such a suffixed name, the names are unique.
   */
  lemma ForceUniqueDistinct(columns: seq<string>)
    requires forall i, j, k :: 0 <= i < |columns| && 0 <= j < |columns| ==> columns[i] != Suffixed(columns[j], k)
    ensures Distinct(ForceUniqueOf(columns))
  {
    var r := ForceUniqueOf(columns);
    forall i, j | 0 <= i < j < |columns| ensures r[i] != r[j] {
      SeenGrows(columns, i, j);
      if Seen(columns, i) > 0 && Seen(columns, j) > 0 && r[i] == r[j] {
        SuffixedInjective(columns[i], Seen(columns, i) + 1, columns[j], Seen(columns, j) + 1);
      }
    }
  }

  /** A later column with the same name has seen more of it; a first occurrence has seen none. */
  lemma SeenGrows(columns: seq<string>, i: nat, j: nat)
    requires i < j < |columns|
    ensures columns[i] == columns[j] ==> Seen(columns, i) < Seen(columns, j)
    ensures Seen(columns, j) == 0 ==> columns[i] != columns[j]
  {
    assert columns[..j] == columns[..i] + [columns[i]] + columns[i + 1..j];
  }

  /**
   * The doc-comment promises unique names, but a column already called
   * `x_2` clashes with the renamed second `x`.
   */
  lemma ForceUniqueClash()
    ensures ForceUniqueOf(["x", "x", "x_2"]) == ["x", "x_2", "x_2"]
    ensures !Distinct(ForceUniqueOf(["x", "x", "x_2"]))
  {
    var cols := ["x", "x", "x_2"];
    assert cols[..0] == [] && cols[..1] == ["x"] && cols[..2] == ["x", "x"];
    assert NatToStr(2) == "2";
    assert Suffixed("x", 2) == "x_2";
    assert multiset(cols[..2])[cols[2]] == 0;
    assert ForcedName(cols, 2) == "x_2";
    assert ForceUniqueOf(cols)[1] == ForceUniqueOf(cols)[2];
  }

  /** Appending a new element keeps a sequence free of repeats. */
  lemma DistinctSnoc(s: seq<string>, x: string)
    requires Distinct(s) && x !in s
    ensures Distinct(s + [x])
  {
  }

  /** What the intended `force_unique_columns` gives column `j`, with the suffix number it picked. */
  predicate FixedAt(columns: seq<string>, out: seq<string>, ks: seq<nat>, j: nat)
    requires j < |columns| && j < |out| && j < |ks|
  {
    if Seen(columns, j) == 0 then out[j] == columns[j]
    else ks[j] >= 2 && out[j] == Suffixed(columns[j], ks[j]) && out[j] !in columns
  }

  /** Appending to `out` and `ks` keeps what was said of the earlier columns. */
  lemma FixedAtSnoc(columns: seq<string>, out: seq<string>, ks: seq<nat>, x: string, k: nat, i: nat)
    requires i < |columns| && |out| == i && |ks| == i
    requires forall j :: 0 <= j < i ==> FixedAt(columns, out, ks, j)
    ensures forall j :: 0 <= j < i ==> FixedAt(columns, out + [x], ks + [k], j)
  {
    forall j | 0 <= j < i ensures FixedAt(columns, out + [x], ks + [k], j) {
      assert FixedAt(columns, out, ks, j);
      assert (out + [x])[j] == out[j] && (ks + [k])[j] == ks[j];
    }
  }

  /** The inner `while`: the first number from `k` on whose suffixed name is not in `used`. */
  method NextUnused(c: string, k: nat, used: set<string>, ghost bound: nat) returns (r: nat)
    requires forall u :: u in used ==> |u| <= bound
    ensures r >= k && Suffixed(c, r) !in used
  {
    r := k;
    while Suffixed(c, r) in used
      invariant r >= k
      decreases Pow10(bound) - r
    {
      TakenBound(c, r, bound);
      r := r + 1;
    }
  }

  /** A first occurrence is not among the names given so far. */
  lemma FirstNotGiven(columns: seq<string>, out: seq<string>, ks: seq<nat>, i: nat)
    requires i < |columns| && |out| == i && |ks| == i && columns[i] !in columns[..i]
    requires forall j :: 0 <= j < i ==> FixedAt(columns, out, ks, j)
    ensures columns[i] !in out
  {
    forall j | 0 <= j < i ensures out[j] != columns[i] {
      assert FixedAt(columns, out, ks, j);
      if Seen(columns, j) == 0 {
        assert columns[..i][j] == columns[j];
      }
    }
  }

  /** The intended loop's invariant after `i` columns. */
  ghost predicate FixedInv(columns: seq<string>, i: nat, counts: map<string, nat>, used: set<string>,
                           out: seq<string>, ks: seq<nat>, bound: nat)
  {
    && i <= |columns| && |out| == i && |ks| == i && Distinct(out)
    && (forall c :: c in columns ==> c in used)
    && (forall j :: 0 <= j < i ==> out[j] in used)
    && (forall u :: u in used ==> |u| <= bound)
    && (forall c :: c in counts <==> c in columns[..i])
    && (forall c :: c in counts ==> counts[c] >= 1)
    && (forall j :: 0 <= j < i ==> FixedAt(columns, out, ks, j))
  }

  lemma FixedStart(columns: seq<string>, used: set<string>)
    requires used == set c | c in columns
    ensures FixedInv(columns, 0, map[], used, [], [], MaxLen(columns))
  {
  }

  /** A repeat takes a suffixed name that is not yet used. */
  lemma FixedRepeat(columns: seq<string>, i: nat, counts: map<string, nat>, used: set<string>,
                    out: seq<string>, ks: seq<nat>, bound: nat, k: nat)
    requires FixedInv(columns, i, counts, used, out, ks, bound) && i < |columns|
    requires columns[i] in counts && k >= 2 && Suffixed(columns[i], k) !in used
    ensures var x := Suffixed(columns[i], k);
      FixedInv(columns, i + 1, counts[columns[i] := k], used + {x}, out + [x], ks + [k],
               if |x| > bound then |x| else bound)
  {
    var c := columns[i];
    var x := Suffixed(c, k);
    assert columns[..i + 1] == columns[..i] + [c];
    assert Seen(columns, i) > 0;
    DistinctSnoc(out, x);
    FixedAtSnoc(columns, out, ks, x, k, i);
  }

  /** A first occurrence keeps its name. */
  lemma FixedFirst(columns: seq<string>, i: nat, counts: map<string, nat>, used: set<string>,
                   out: seq<string>, ks: seq<nat>, bound: nat)
    requires FixedInv(columns, i, counts, used, out, ks, bound) && i < |columns| && columns[i] !in counts
    ensures FixedInv(columns, i + 1, counts[columns[i] := 1], used, out + [columns[i]], ks + [0], bound)
  {
    var c := columns[i];
    assert columns[..i + 1] == columns[..i] + [c];
    assert Seen(columns, i) == 0;
    FirstNotGiven(columns, out, ks, i);
    DistinctSnoc(out, c);
    FixedAtSnoc(columns, out, ks, c, 0, i);
  }

  lemma FixedDone(columns: seq<string>, counts: map<string, nat>, used: set<string>,
                  out: seq<string>, ks: seq<nat>, bound: nat)
    requires FixedInv(columns, |columns|, counts, used, out, ks, bound)
    ensures |out| == |columns| && Distinct(out)
    ensures forall i :: 0 <= i < |columns| && Seen(columns, i) == 0 ==> out[i] == columns[i]
    ensures forall i :: 0 <= i < |columns| && Seen(columns, i) > 0 ==>
      out[i] !in columns && exists k :: k >= 2 && out[i] == Suffixed(columns[i], k)
  {
    forall i | 0 <= i < |columns|
      ensures Seen(columns, i) == 0 ==> out[i] == columns[i]
      ensures Seen(columns, i) > 0 ==> out[i] !in columns && exists k :: k >= 2 && out[i] == Suffixed(columns[i], k)
    {
      assert FixedAt(columns, out, ks, i);
    }
  }

  /**
   * The intended `force_unique_columns`: a repeat skips every suffixed name
   * that is already a column or already given, so the names are unique;
   * first occurrences keep their names, and every repeat gets some
   * `name_k` with `k >= 2` that is not an original column name.
   */
  method ForceUniqueFixed(columns: seq<string>) returns (out: seq<string>)
    ensures |out| == |columns| && Distinct(out)
    ensures forall i :: 0 <= i < |columns| && Seen(columns, i) == 0 ==> out[i] == columns[i]
    ensures forall i :: 0 <= i < |columns| && Seen(columns, i) > 0 ==>
      out[i] !in columns && exists k :: k >= 2 && out[i] == Suffixed(columns[i], k)
  {
    var counts: map<string, nat> := map[];
    var used: set<string> := set c | c in columns;
    ghost var bound: nat := MaxLen(columns);
    ghost var ks: seq<nat> := [];
    out := [];
    FixedStart(columns, used);
    for i := 0 to |columns|
      invariant FixedInv(columns, i, counts, used, out, ks, bound)
    {
      var c := columns[i];
      if c in counts {
        var k := NextUnused(c, counts[c] + 1, used, bound);
        var fresh_name := Suffixed(c, k);
        FixedRepeat(columns, i, counts, used, out, ks, bound, k);
        out := out + [fresh_name];
        ks := ks + [k];
        used := used + {fresh_name};
        counts := counts[c := k];
        bound := if |fresh_name| > bound then |fresh_name| else bound;
      } else {
        FixedFirst(columns, i, counts, used, out, ks, bound);
        out := out + [c];
        ks := ks + [0];
        counts := counts[c := 1];
      }
    }
    FixedDone(columns, counts, used, out, ks, bound);
  }

  // ---------------------------------------------------------------------
  // dedupe_columns
  // ---------------------------------------------------------------------

  /** The first number from `k` on whose suffixed name is not a column name (the `while` loop). */
  function NextFree(name: string, k: nat, names: seq<string>): (r: nat)
    ensures r >= k && Suffixed(name, r) !in names
    decreases Pow10(MaxLen(names)) - k
  {
    if Suffixed(name, k) in names then
      TakenBound(name, k, MaxLen(names));
      NextFree(name, k + 1, names)
    else k
  }

  /** The counter after `t` renamed members of a group; `Gen(_, 0, _) == 1`, so the first suffix tried is 2. */
  function Gen(name: string, t: nat, names: seq<string>): (r: nat)
    ensures r >= t + 1
    ensures t > 0 ==> Suffixed(name, r) !in names
    decreases t
  {
    if t == 0 then 1 else NextFree(name, Gen(name, t - 1, names) + 1, names)
  }

  /** Later members of a group get larger numbers. */
  lemma {:induction false} GenGrows(name: string, t1: nat, t2: nat, names: seq<string>)
    requires t1 < t2
    ensures Gen(name, t1, names) < Gen(name, t2, names)
    decreases t2
  {
    if t1 < t2 - 1 {
      GenGrows(name, t1, t2 - 1, names);
    }
  }

  /** The positions of the columns before `i` that are named `n`, in order (`seen[n]`). */
  function Positions(names: seq<string>, n: string, i: nat): seq<nat>
    requires i <= |names|
    decreases i
  {
    if i == 0 then [] else Positions(names, n, i - 1) + (if names[i - 1] == n then [i - 1] else [])
  }

  /** `seen[n]` lists every column named `n`, the t-th of them preceded by t others. */
  lemma {:induction false} PositionsSpec(names: seq<string>, n: string, i: nat)
    requires i <= |names|
    ensures |Positions(names, n, i)| == multiset(names[..i])[n]
    ensures forall t :: 0 <= t < |Positions(names, n, i)| ==>
      Positions(names, n, i)[t] < i && names[Positions(names, n, i)[t]] == n && Seen(names, Positions(names, n, i)[t]) == t
    ensures forall j :: 0 <= j < i && names[j] == n ==> j in Positions(names, n, i)
  {
    PositionsCount(names, n, i);
    PositionsMembers(names, n, i);
    PositionsComplete(names, n, i);
  }

  lemma {:induction false} PositionsCount(names: seq<string>, n: string, i: nat)
    requires i <= |names|
    ensures |Positions(names, n, i)| == multiset(names[..i])[n]
    decreases i
  {
    if i > 0 {
      PositionsCount(names, n, i - 1);
      assert names[..i] == names[..i - 1] + [names[i - 1]];
      assert multiset(names[..i]) == multiset(names[..i - 1]) + multiset{names[i - 1]};
    }
  }

  lemma {:induction false} PositionsMembers(names: seq<string>, n: string, i: nat)
    requires i <= |names|
    ensures forall t :: 0 <= t < |Positions(names, n, i)| ==>
      Positions(names, n, i)[t] < i && names[Positions(names, n, i)[t]] == n && Seen(names, Positions(names, n, i)[t]) == t
    decreases i
  {
    if i > 0 {
      PositionsMembers(names, n, i - 1);
      var p := Positions(names, n, i - 1);
      if names[i - 1] == n {
        PositionsCount(names, n, i - 1);
        PositionsStep(names, n, i, p);
        var q := p + [i - 1];
        forall t | 0 <= t < |q| ensures q[t] < i && names[q[t]] == n && Seen(names, q[t]) == t {
          if t < |p| {
            assert q[t] == p[t];
          }
        }
      } else {
        assert Positions(names, n, i) == p;
      }
    }
  }

  lemma {:induction false} PositionsComplete(names: seq<string>, n: string, i: nat)
    requires i <= |names|
    ensures forall j :: 0 <= j < i && names[j] == n ==> j in Positions(names, n, i)
    decreases i
  {
    if i > 0 {
      PositionsComplete(names, n, i - 1);
      var p := Positions(names, n, i - 1);
      assert Positions(names, n, i) == p + (if names[i - 1] == n then [i - 1] else []);
      assert forall j :: j in p ==> j in Positions(names, n, i);
    }
  }

  /** A column named `n` joins its list last, preceded by the earlier ones. */
  lemma PositionsStep(names: seq<string>, n: string, i: nat, p: seq<nat>)
    requires 0 < i <= |names| && names[i - 1] == n && p == Positions(names, n, i - 1)
    requires |p| == multiset(names[..i - 1])[n]
    ensures Positions(names, n, i) == p + [i - 1]
    ensures Seen(names, i - 1) == |p|
  {
  }

  /** The position of the first column named `n`. */
  function FirstIndex(names: seq<string>, n: string): (r: nat)
    requires n in names
    ensures r < |names| && names[r] == n && n !in names[..r]
  {
    if names[0] == n then 0
    else
      var r := FirstIndex(names[1..], n);
      assert names[..r + 1] == [names[0]] + names[1..][..r];
      r + 1
  }

  /** Two first occurrences of the same name are the same column. */
  lemma FirstOnce(names: seq<string>, a: nat, b: nat)
    requires a < |names| && b < |names|
    ensures names[a] == names[b] && Seen(names, a) == 0 && Seen(names, b) == 0 ==> a == b
  {
    if a < b {
      SeenGrows(names, a, b);
    }
    if b < a {
      SeenGrows(names, b, a);
    }
  }

  /** Every column of the group named `n` has the content of the group's first column. */
  predicate GroupSame<T(==)>(names: seq<string>, data: seq<T>, n: string)
    requires |names| == |data| && n in names
  {
    forall j :: 0 <= j < |names| && names[j] == n ==> data[j] == data[FirstIndex(names, n)]
  }

  /** `all(ref_series.equals(gdf.iloc[:, i]) for i in idxs)` */
  predicate SameAsFirst<T(==)>(data: seq<T>, idxs: seq<nat>)
    requires |idxs| > 0 && forall t :: 0 <= t < |idxs| ==> idxs[t] < |data|
  {
    forall t :: 0 <= t < |idxs| ==> data[idxs[t]] == data[idxs[0]]
  }

  lemma GroupSameIff<T>(names: seq<string>, data: seq<T>, n: string)
    requires |names| == |data| && n in names
    ensures var ps := Positions(names, n, |names|);
      |ps| == multiset(names)[n] && |ps| > 0 && (forall t :: 0 <= t < |ps| ==> ps[t] < |data|)
      && (GroupSame(names, data, n) <==> SameAsFirst(data, ps))
  {
    var ps := Positions(names, n, |names|);
    PositionsSpec(names, n, |names|);
    assert names[..|names|] == names;
    var f := FirstIndex(names, n);
    assert f in ps;
    assert Seen(names, f) == 0;
    FirstOnce(names, ps[0], f);
    if SameAsFirst(data, ps) {
      forall j | 0 <= j < |names| && names[j] == n ensures data[j] == data[f] {
        assert j in ps;
        var t :| 0 <= t < |ps| && ps[t] == j;
      }
    }
  }

  /** Column `i` is dropped: a later member of a group whose contents are all equal. */
  predicate Dropped<T(==)>(names: seq<string>, data: seq<T>, i: nat)
    requires |names| == |data| && i < |names|
  {
    Seen(names, i) > 0 && GroupSame(names, data, names[i])
  }

  /** The positions `dedupe_columns` drops. */
  function DropSet<T(==)>(names: seq<string>, data: seq<T>): set<nat>
    requires |names| == |data|
  {
    set i | 0 <= i < |names| && Dropped(names, data, i)
  }

  /** Group `n` is renamed: it has several columns whose contents differ. */
  predicate Renames<T(==)>(names: seq<string>, data: seq<T>, n: string)
    requires |names| == |data| && n in names
  {
    multiset(names)[n] > 1 && !GroupSame(names, data, n)
  }

  /** The new name the group's last member takes. */
  function GroupName(names: seq<string>, n: string): string
    requires n in names
  {
    Suffixed(n, Gen(n, multiset(names)[n] - 1, names))
  }

  /**
   * The `rename_map` of `dedupe_columns`: keyed by the group's name, so each
   * member overwrites the last and only the group's last new name remains.
   */
  function RenameMapOf<T(==)>(names: seq<string>, data: seq<T>): map<string, string>
    requires |names| == |data|
  {
    map n | n in names && Renames(names, data, n) :: GroupName(names, n)
  }

  /** The elements at the positions outside `drop`, in order (`iloc[:, keep_idxs]`). */
  function Keep<U>(s: seq<U>, drop: set<nat>): (r: seq<U>)
    ensures |r| <= |s|
    decreases |s|
  {
    if |s| == 0 then []
    else Keep(s[..|s| - 1], drop) + (if |s| - 1 in drop then [] else [s[|s| - 1]])
  }

  /** What `dedupe_columns` returns: the kept columns' names, renamed by `rename_map`, and contents. */
  function DedupeOf<T(==)>(names: seq<string>, data: seq<T>): (seq<string>, seq<T>)
    requires |names| == |data|
  {
    var drop := DropSet(names, data);
    (Renamed(Keep(names, drop), RenameMapOf(names, data)), Keep(data, drop))
  }

  /** `dedupe_columns(gdf)` on the column names and contents. */
  method DedupeColumns<T(==)>(names: seq<string>, data: seq<T>) returns (outNames: seq<string>, outData: seq<T>)
    requires |names| == |data|
    ensures (outNames, outData) == DedupeOf(names, data)
  {
    var keys, seen := SeenGroups(names);
    var drop: set<nat> := {};
    var renameMap: map<string, string> := map[];
    for g := 0 to |keys|
      invariant drop == DropUpTo(names, data, keys[..g])
      invariant renameMap == RenameUpTo(names, data, keys[..g])
    {
      var name := keys[g];
      assert name !in keys[..g];
      assert keys[..g + 1] == keys[..g] + [name];
      drop, renameMap := DedupeGroup(names, data, keys[..g], name, seen[name], drop, renameMap);
    }
    assert keys[..|keys|] == keys;
    DropUpToAll(names, data, keys);
    RenameUpToAll(names, data, keys);
    KeepNothing(names, drop);
    KeepNothing(data, drop);
    outNames, outData := names, data;
    if |drop| > 0 {
      outNames, outData := KeepColumns(names, data, drop);
    }
    RenamedNothing(outNames, renameMap);
    if |renameMap| > 0 {
      outNames := Renamed(outNames, renameMap);
    }
  }

  /** The `seen` loop: the names in first-occurrence order, each with its positions. */
  method SeenGroups(names: seq<string>) returns (keys: seq<string>, seen: map<string, seq<nat>>)
    ensures forall n :: n in keys <==> n in names
    ensures forall a, b :: 0 <= a < b < |keys| ==> keys[a] != keys[b]
    ensures forall n :: n in keys ==> n in seen && seen[n] == Positions(names, n, |names|)
  {
    keys, seen := [], map[];
    for i := 0 to |names|
      invariant SeenUpTo(names, keys, seen, i)
    {
      var c := names[i];
      if c !in seen {
        SeenNew(names, keys, seen, i);
        seen := seen[c := [i]];
        keys := keys + [c];
      } else {
        SeenAgain(names, keys, seen, i);
        seen := seen[c := seen[c] + [i]];
      }
    }
    assert names[..|names|] == names;
  }

  /** The loop state after the first `i` columns. */
  ghost predicate SeenUpTo(names: seq<string>, keys: seq<string>, seen: map<string, seq<nat>>, i: nat)
    requires i <= |names|
  {
    && (forall n :: n in keys <==> n in names[..i])
    && (forall n :: n in seen <==> n in names[..i])
    && (forall a, b :: 0 <= a < b < |keys| ==> keys[a] != keys[b])
    && (forall n :: n in seen ==> seen[n] == Positions(names, n, i))
  }

  /** A column named differently leaves a name's positions as they were. */
  lemma PositionsOther(names: seq<string>, n: string, i: nat)
    requires i < |names| && names[i] != n
    ensures Positions(names, n, i + 1) == Positions(names, n, i)
  {
  }

  /** A first occurrence starts a new group at the end of `keys`. */
  lemma SeenNew(names: seq<string>, keys: seq<string>, seen: map<string, seq<nat>>, i: nat)
    requires i < |names| && SeenUpTo(names, keys, seen, i) && names[i] !in seen
    ensures SeenUpTo(names, keys + [names[i]], seen[names[i] := [i]], i + 1)
  {
    var c := names[i];
    assert names[..i + 1] == names[..i] + [c];
    PositionsSpec(names, c, i);
    assert Positions(names, c, i) == [];
    forall n | n in seen ensures Positions(names, n, i + 1) == Positions(names, n, i) {
      PositionsOther(names, n, i);
    }
    var ks := keys + [c];
    forall a, b | 0 <= a < b < |ks| ensures ks[a] != ks[b] {
      if b == |keys| {
        assert ks[a] in keys;
      } else {
        assert ks[a] == keys[a] && ks[b] == keys[b];
      }
    }
  }

  /** A repeated name gets the new position at the end of its group. */
  lemma SeenAgain(names: seq<string>, keys: seq<string>, seen: map<string, seq<nat>>, i: nat)
    requires i < |names| && SeenUpTo(names, keys, seen, i) && names[i] in seen
    ensures SeenUpTo(names, keys, seen[names[i] := seen[names[i]] + [i]], i + 1)
  {
    var c := names[i];
    assert names[..i + 1] == names[..i] + [c];
    forall n | n in seen && n != c ensures Positions(names, n, i + 1) == Positions(names, n, i) {
      PositionsOther(names, n, i);
    }
  }

  /** The dropped positions among the groups named in `ks`. */
  ghost function DropUpTo<T>(names: seq<string>, data: seq<T>, ks: seq<string>): set<nat>
    requires |names| == |data|
  {
    set i | 0 <= i < |names| && names[i] in ks && Dropped(names, data, i)
  }

  /** The `rename_map` entries of the groups named in `ks`. */
  ghost function RenameUpTo<T>(names: seq<string>, data: seq<T>, ks: seq<string>): map<string, string>
    requires |names| == |data|
  {
    map n | n in ks && n in names && Renames(names, data, n) :: GroupName(names, n)
  }

  /** The later members of a group: `idxs[1:]`. */
  function Later(idxs: seq<nat>): set<nat>
  {
    set t | 1 <= t < |idxs| :: idxs[t]
  }

  lemma DropUpToStep<T>(names: seq<string>, data: seq<T>, ks: seq<string>, name: string)
    requires |names| == |data| && name in names
    ensures DropUpTo(names, data, ks + [name]) ==
      DropUpTo(names, data, ks) + (if name !in ks && GroupSame(names, data, name) then Later(Positions(names, name, |names|)) else {})
  {
    var ps := Positions(names, name, |names|);
    PositionsSpec(names, name, |names|);
    if name !in ks && GroupSame(names, data, name) {
      forall i | 0 <= i < |names| && names[i] == name && Dropped(names, data, i) ensures i in Later(ps) {
        assert i in ps;
        var t :| 0 <= t < |ps| && ps[t] == i;
      }
    }
  }

  lemma RenameUpToStep<T>(names: seq<string>, data: seq<T>, ks: seq<string>, name: string)
    requires |names| == |data| && name in names
    ensures RenameUpTo(names, data, ks + [name]) ==
      if Renames(names, data, name) then RenameUpTo(names, data, ks)[name := GroupName(names, name)]
      else RenameUpTo(names, data, ks)
  {
    var a := RenameUpTo(names, data, ks + [name]);
    var b := RenameUpTo(names, data, ks);
    var c := if Renames(names, data, name) then b[name := GroupName(names, name)] else b;
    assert forall n :: n in ks + [name] <==> n in ks || n == name;
    assert a.Keys == c.Keys;
  }

  lemma DropUpToAll<T>(names: seq<string>, data: seq<T>, keys: seq<string>)
    requires |names| == |data| && forall n :: n in keys <==> n in names
    ensures DropUpTo(names, data, keys) == DropSet(names, data)
  {
  }

  lemma RenameUpToAll<T>(names: seq<string>, data: seq<T>, keys: seq<string>)
    requires |names| == |data| && forall n :: n in keys <==> n in names
    ensures RenameUpTo(names, data, keys) == RenameMapOf(names, data)
  {
  }

  /** One group of the second loop: drop the later members of an equal group, or rename them. */
  method DedupeGroup<T(==)>(names: seq<string>, data: seq<T>, ghost ks: seq<string>, name: string, idxs: seq<nat>,
                            drop: set<nat>, renameMap: map<string, string>)
    returns (drop': set<nat>, renameMap': map<string, string>)
    requires |names| == |data| && name in names && name !in ks
    requires idxs == Positions(names, name, |names|)
    requires drop == DropUpTo(names, data, ks) && renameMap == RenameUpTo(names, data, ks)
    ensures drop' == DropUpTo(names, data, ks + [name]) && renameMap' == RenameUpTo(names, data, ks + [name])
  {
    GroupSameIff(names, data, name);
    DropUpToStep(names, data, ks, name);
    RenameUpToStep(names, data, ks, name);
    drop', renameMap' := drop, renameMap;
    if |idxs| > 1 {
      if SameAsFirst(data, idxs) {
        drop' := drop + Later(idxs);
      } else {
        renameMap' := RenameGroup(name, |idxs|, names, renameMap);
      }
    } else {
      assert Later(idxs) == {};
    }
  }

  /**
   * The counter loop for a group of `m` columns whose contents differ: each
   * later member takes the next suffix that is not a column name, and
   * writes it under the group's name.
   */
  method RenameGroup(name: string, m: nat, names: seq<string>, renameMap: map<string, string>)
    returns (r: map<string, string>)
    requires m >= 2
    ensures r == renameMap[name := Suffixed(name, Gen(name, m - 1, names))]
  {
    var counter := 2;
    r := renameMap;
    for t := 1 to m
      invariant counter == Gen(name, t - 1, names) + 1
      invariant r == if t == 1 then renameMap else renameMap[name := Suffixed(name, Gen(name, t - 1, names))]
    {
      var k := FirstFree(name, counter, names);
      assert k == Gen(name, t, names);
      r := r[name := Suffixed(name, k)];
      counter := k + 1;
    }
  }

  /** The inner `while` of the renaming: the first free suffix from `from` on. */
  method FirstFree(name: string, from: nat, names: seq<string>) returns (k: nat)
    ensures k == NextFree(name, from, names)
  {
    k := from;
    while Suffixed(name, k) in names
      invariant from <= k && NextFree(name, from, names) == NextFree(name, k, names)
      decreases Pow10(MaxLen(names)) - k
    {
      TakenBound(name, k, MaxLen(names));
      k := k + 1;
    }
  }

  /** The `iloc[:, keep_idxs]` selection. */
  method KeepColumns<T>(names: seq<string>, data: seq<T>, drop: set<nat>) returns (kn: seq<string>, kd: seq<T>)
    requires |names| == |data|
    ensures kn == Keep(names, drop) && kd == Keep(data, drop)
  {
    kn, kd := [], [];
    for i := 0 to |names|
      invariant kn == Keep(names[..i], drop) && kd == Keep(data[..i], drop)
    {
      assert names[..i + 1][..i] == names[..i];
      assert data[..i + 1][..i] == data[..i];
      if i !in drop {
        kn := kn + [names[i]];
        kd := kd + [data[i]];
      }
    }
    assert names[..|names|] == names && data[..|data|] == data;
  }

  lemma {:induction false} KeepNothing<U>(s: seq<U>, drop: set<nat>)
    ensures |drop| == 0 ==> Keep(s, drop) == s
    decreases |s|
  {
    if |s| > 0 {
      KeepNothing(s[..|s| - 1], drop);
    }
  }

  lemma RenamedNothing(s: seq<string>, m: map<string, string>)
    ensures |m| == 0 ==> Renamed(s, m) == s
  {
  }

  // ---------------------------------------------------------------------
  // Properties of dedupe_columns
  // ---------------------------------------------------------------------

  /** How many positions before `i` are kept. */
  function KeptBefore(drop: set<nat>, i: nat): nat
    decreases i
  {
    if i == 0 then 0 else KeptBefore(drop, i - 1) + (if i - 1 in drop then 0 else 1)
  }

  /** `x` is the element that position `i` lands at after the drops. */
  ghost predicate KeptAt<U>(out: seq<U>, drop: set<nat>, i: nat, x: U)
  {
    KeptBefore(drop, i) < |out| && out[KeptBefore(drop, i)] == x
  }

  lemma {:induction false} KeepLength<U>(s: seq<U>, drop: set<nat>)
    ensures |Keep(s, drop)| == KeptBefore(drop, |s|)
    decreases |s|
  {
    if |s| > 0 {
      KeepLength(s[..|s| - 1], drop);
    }
  }

  /** A kept position `i` lands at `KeptBefore(drop, i)`, in every sequence kept with the same drops. */
  lemma {:induction false} KeepAt<U>(s: seq<U>, drop: set<nat>, i: nat)
    requires i < |s| && i !in drop
    ensures KeptAt(Keep(s, drop), drop, i, s[i])
    decreases |s|
  {
    var n := |s| - 1;
    KeepLength(s[..n], drop);
    if i < n {
      KeepAt(s[..n], drop, i);
    }
  }

  /** Every element kept from the first `n` comes from a position before `n` outside `drop`. */
  lemma {:induction false} KeepFrom<U>(s: seq<U>, drop: set<nat>, n: nat)
    requires n <= |s|
    ensures forall x :: x in Keep(s[..n], drop) ==> exists i :: 0 <= i < n && i !in drop && s[i] == x
    decreases n
  {
    if n > 0 {
      KeepFrom(s, drop, n - 1);
      assert s[..n][..n - 1] == s[..n - 1];
    }
  }

  /** Keeping distinct elements gives distinct elements. */
  lemma {:induction false} KeepDistinct(s: seq<string>, drop: set<nat>)
    requires forall i, j :: 0 <= i < j < |s| && i !in drop && j !in drop ==> s[i] != s[j]
    ensures Distinct(Keep(s, drop))
    decreases |s|
  {
    if |s| > 0 {
      var n := |s| - 1;
      KeepDistinct(s[..n], drop);
      if n !in drop {
        KeepFrom(s, drop, n);
        assert s[n] !in Keep(s[..n], drop);
        DistinctSnoc(Keep(s[..n], drop), s[n]);
      }
    }
  }

  /** Renaming by name and selecting positions commute. */
  lemma {:induction false} KeepRenamed(s: seq<string>, drop: set<nat>, m: map<string, string>)
    ensures Renamed(Keep(s, drop), m) == Keep(Renamed(s, m), drop)
    decreases |s|
  {
    if |s| > 0 {
      var n := |s| - 1;
      KeepRenamed(s[..n], drop, m);
      assert Renamed(s, m)[..n] == Renamed(s[..n], m);
    }
  }

  /** A name that occurs once occurs nowhere before. */
  lemma OnceFirst(names: seq<string>, i: nat)
    requires i < |names|
    ensures multiset(names)[names[i]] == 1 ==> Seen(names, i) == 0
  {
    assert names == names[..i] + [names[i]] + names[i + 1..];
  }

  /** A group of one column has the content of its only column. */
  lemma OnceSame<T>(names: seq<string>, data: seq<T>, i: nat)
    requires |names| == |data| && i < |names|
    ensures multiset(names)[names[i]] == 1 ==> GroupSame(names, data, names[i])
  {
    if multiset(names)[names[i]] == 1 {
      forall j | 0 <= j < |names| && names[j] == names[i] ensures j == i {
        FirstOnce(names, i, j);
        OnceFirst(names, i);
        OnceFirst(names, j);
      }
    }
  }

  /**
   * Which column survives `dedupe_columns` as written: a later member of a
   * group with equal contents is dropped; every first occurrence is kept
   * with its content; its name is kept when the group's contents are equal
   * (so also when the name occurs once), and otherwise it too is renamed,
   * to the group's last new name.
   */
  lemma DedupeKeeps<T>(names: seq<string>, data: seq<T>, i: nat)
    requires |names| == |data| && i < |names|
    ensures i in DropSet(names, data) <==> Seen(names, i) > 0 && GroupSame(names, data, names[i])
    ensures Seen(names, i) == 0 ==> KeptAt(DedupeOf(names, data).1, DropSet(names, data), i, data[i])
    ensures Seen(names, i) == 0 && GroupSame(names, data, names[i]) ==>
      KeptAt(DedupeOf(names, data).0, DropSet(names, data), i, names[i])
    ensures Seen(names, i) == 0 && !GroupSame(names, data, names[i]) ==>
      KeptAt(DedupeOf(names, data).0, DropSet(names, data), i,
             Suffixed(names[i], Gen(names[i], multiset(names)[names[i]] - 1, names)))
  {
    var drop := DropSet(names, data);
    assert i in drop <==> Dropped(names, data, i);
    if Seen(names, i) == 0 {
      KeepAt(data, drop, i);
      DedupeNameAt(names, data, i);
      OnceSame(names, data, i);
      var m := RenameMapOf(names, data);
      if GroupSame(names, data, names[i]) {
        assert names[i] !in m;
      } else {
        assert Renames(names, data, names[i]);
        assert names[i] in m && m[names[i]] == GroupName(names, names[i]);
      }
    }
  }

  /** A column kept in place carries its name through the rename map. */
  lemma DedupeNameAt<T>(names: seq<string>, data: seq<T>, i: nat)
    requires |names| == |data| && i < |names| && i !in DropSet(names, data)
    ensures var m := RenameMapOf(names, data);
      KeptAt(DedupeOf(names, data).0, DropSet(names, data), i, if names[i] in m then m[names[i]] else names[i])
  {
    var drop := DropSet(names, data);
    var m := RenameMapOf(names, data);
    KeepAt(Renamed(names, m), drop, i);
    KeepRenamed(names, drop, m);
  }

  /** A name that occurs once keeps its column, name and content. */
  lemma DedupeUntouched<T>(names: seq<string>, data: seq<T>, i: nat)
    requires |names| == |data| && i < |names| && multiset(names)[names[i]] == 1
    ensures i !in DropSet(names, data)
    ensures KeptAt(DedupeOf(names, data).0, DropSet(names, data), i, names[i])
    ensures KeptAt(DedupeOf(names, data).1, DropSet(names, data), i, data[i])
  {
    OnceFirst(names, i);
    OnceSame(names, data, i);
    DedupeKeeps(names, data, i);
  }

  /**
   * As written, two same-name columns with different contents both come
   * out as `x_2`: the rename map is keyed by the shared name, so the first
   * column is renamed too and the names are still duplicated.
   */
  lemma DedupeClash<T>(a: T, b: T)
    requires a != b
    ensures DedupeOf(["x", "x"], [a, b]) == (["x_2", "x_2"], [a, b])
  {
    var names := ["x", "x"];
    var data := [a, b];
    ClashGroup(a, b);
    ClashMap(a, b);
    KeepNothing(names, {});
    KeepNothing(data, {});
    var r := Renamed(names, map["x" := "x_2"]);
    assert r[0] == "x_2" && r[1] == "x_2";
    assert r == ["x_2", "x_2"];
  }

  lemma ClashGroup<T>(a: T, b: T)
    requires a != b
    ensures !GroupSame(["x", "x"], [a, b], "x")
    ensures DropSet(["x", "x"], [a, b]) == {}
  {
    var names := ["x", "x"];
    assert FirstIndex(names, "x") == 0;
    assert names[1] == "x" && [a, b][1] != [a, b][0];
    assert names[..0] == [];
  }

  lemma ClashMap<T>(a: T, b: T)
    requires a != b
    ensures RenameMapOf(["x", "x"], [a, b]) == map["x" := "x_2"]
  {
    var names := ["x", "x"];
    ClashGroup(a, b);
    ClashName();
    assert Renames(names, [a, b], "x");
    assert forall n :: n in names <==> n == "x";
  }

  lemma ClashName()
    ensures multiset(["x", "x"])["x"] == 2
    ensures GroupName(["x", "x"], "x") == "x_2"
  {
    var names := ["x", "x"];
    assert NatToStr(2) == "2";
    assert Suffixed("x", 2) == "x_2";
    assert "x_2" !in names;
    assert NextFree("x", 2, names) == 2;
  }

  /**
   * The intended names: the first column of a group keeps its name, and a
   * later member of a group whose contents differ takes the next free
   * suffix, counted per member.
   */
  function FixedNames<T(==)>(names: seq<string>, data: seq<T>): (r: seq<string>)
    requires |names| == |data|
    ensures |r| == |names|
  {
    seq(|names|, i requires 0 <= i < |names| =>
      if Seen(names, i) > 0 && !GroupSame(names, data, names[i])
      then Suffixed(names[i], Gen(names[i], Seen(names, i), names))
      else names[i])
  }

  /** The intended `dedupe_columns`: renaming by position instead of by name. */
  function DedupeFixedOf<T(==)>(names: seq<string>, data: seq<T>): (seq<string>, seq<T>)
    requires |names| == |data|
  {
    var drop := DropSet(names, data);
    (Keep(FixedNames(names, data), drop), Keep(data, drop))
  }

  /** Suffixed names with different base names or numbers differ. */
  lemma SuffixedApart(a: string, k1: nat, b: string, k2: nat)
    ensures a != b || k1 != k2 ==> Suffixed(a, k1) != Suffixed(b, k2)
  {
    if Suffixed(a, k1) == Suffixed(b, k2) {
      SuffixedInjective(a, k1, b, k2);
    }
  }

  lemma FixedApart<T>(names: seq<string>, data: seq<T>, i: nat, j: nat)
    requires |names| == |data| && i < j < |names|
    requires i !in DropSet(names, data) && j !in DropSet(names, data)
    ensures FixedNames(names, data)[i] != FixedNames(names, data)[j]
  {
    SeenGrows(names, i, j);
    var gi := Seen(names, i) > 0 && !GroupSame(names, data, names[i]);
    var gj := Seen(names, j) > 0 && !GroupSame(names, data, names[j]);
    if gi && gj {
      var ki := Gen(names[i], Seen(names, i), names);
      var kj := Gen(names[j], Seen(names, j), names);
      if names[i] == names[j] {
        GenGrows(names[i], Seen(names, i), Seen(names, j), names);
      }
      SuffixedApart(names[i], ki, names[j], kj);
    }
    assert names[i] in names && names[j] in names;
  }

  /**
   * Renaming by position gives unique names, as the doc-comment promises;
   * first occurrences still keep their name and content.
   */
  lemma DedupeFixedUnique<T>(names: seq<string>, data: seq<T>)
    requires |names| == |data|
    ensures Distinct(DedupeFixedOf(names, data).0)
    ensures forall i :: 0 <= i < |names| && Seen(names, i) == 0 ==>
      i !in DropSet(names, data)
      && KeptAt(DedupeFixedOf(names, data).0, DropSet(names, data), i, names[i])
      && KeptAt(DedupeFixedOf(names, data).1, DropSet(names, data), i, data[i])
  {
    var drop := DropSet(names, data);
    var f := FixedNames(names, data);
    forall i, j | 0 <= i < j < |f| && i !in drop && j !in drop ensures f[i] != f[j] {
      FixedApart(names, data, i, j);
    }
    KeepDistinct(f, drop);
    forall i | 0 <= i < |names| && Seen(names, i) == 0
      ensures KeptAt(Keep(f, drop), drop, i, names[i]) && KeptAt(Keep(data, drop), drop, i, data[i])
    {
      KeepAt(f, drop, i);
      KeepAt(data, drop, i);
    }
  }

  /** A renamed column's new name is not one of the original names. */
  lemma DedupeFixedFresh<T>(names: seq<string>, data: seq<T>, i: nat)
    requires |names| == |data| && i < |names| && Seen(names, i) > 0 && !GroupSame(names, data, names[i])
    ensures i !in DropSet(names, data)
    ensures FixedNames(names, data)[i] !in names
    ensures KeptAt(DedupeFixedOf(names, data).0, DropSet(names, data), i, FixedNames(names, data)[i])
  {
    KeepAt(FixedNames(names, data), DropSet(names, data), i);
  }
}
