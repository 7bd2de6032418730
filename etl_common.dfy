/**
 * The column-name helpers shared by the ETL scripts: the `norm_token` key
 * (lower-case, only `[a-z0-9_ ]`, single blanks, no padding) and the alias
 * renaming of a frame's columns.
 */
module EtlCommon {
  import opened PyStr
  import opened TextUtils

  // ---------------------------------------------------------------------
  // norm_token
  // ---------------------------------------------------------------------

  /** What the deletion pass of `norm_token` keeps: `[a-z0-9_ ]`. */
  predicate TokenChar(c: char)
  {
    IsAsciiLower(c) || IsDigit(c) || c == '_' || c == ' '
  }

  predicate AllTokenChars(s: string)
  {
    forall i :: 0 <= i < |s| ==> TokenChar(s[i])
  }

  /**
   * `norm_token(s)`: `(s or "")` lower-cased, every character outside
   * `[a-z0-9_ ]` deleted, whitespace runs collapsed to one blank, stripped.
   */
  function NormToken(s: Option<string>): string
  {
    var t := if s.None? then "" else s.value;
    Strip(Collapse(KeepOnly(Lower(t), TokenChar)))
  }

  /** Collapsing keeps a text inside `[a-z0-9_ ]`. */
  lemma {:induction false} CollapseTokenChars(x: string)
    requires AllTokenChars(x)
    ensures AllTokenChars(Collapse(x))
    decreases |x|
  {
    if |x| > 0 {
      var u := x[1..];
      TokenCharsSuffix(x, u);
      if IsSpace(x[0]) {
        var t := LStrip(u);
        assert t == u[|u| - |t|..];
        TokenCharsSuffix(u, t);
        CollapseTokenChars(t);
        assert Collapse(x) == [' '] + Collapse(t);
        TokenCharsCons(' ', Collapse(t));
      } else {
        CollapseTokenChars(u);
        assert Collapse(x) == [x[0]] + Collapse(u);
        TokenCharsCons(x[0], Collapse(u));
      }
    }
  }

  /** A suffix of a text in `[a-z0-9_ ]` stays in it. */
  lemma TokenCharsSuffix(x: string, t: string)
    requires AllTokenChars(x) && |t| <= |x| && t == x[|x| - |t|..]
    ensures AllTokenChars(t)
  {
    assert forall i :: 0 <= i < |t| ==> t[i] == x[|x| - |t| + i];
  }

  /** Prefixing a token character keeps a text in `[a-z0-9_ ]`. */
  lemma TokenCharsCons(h: char, c: string)
    requires TokenChar(h) && AllTokenChars(c)
    ensures AllTokenChars([h] + c)
  {
    assert forall i :: 1 <= i < |[h] + c| ==> ([h] + c)[i] == c[i - 1];
  }

  /**
   * Every token is made of `[a-z0-9_ ]` only, with single blanks between
   * words and none at the ends; `None` and `""` give `""`.
   */
  lemma NormTokenShape(s: Option<string>)
    ensures AllTokenChars(NormToken(s)) && IsSpaced(NormToken(s))
    ensures s.None? || s == Some("") ==> NormToken(s) == ""
  {
    var t := if s.None? then "" else s.value;
    var x := KeepOnly(Lower(t), TokenChar);
    KeepOnlyKeeps(Lower(t), TokenChar);
    CollapseTokenChars(x);
    InfixTokenChars(Collapse(x), Strip(Collapse(x)));
    CollapseStripSpaced(x);
  }

  /** An infix of a text in `[a-z0-9_ ]` stays in it. */
  lemma InfixTokenChars(c: string, r: string)
    requires AllTokenChars(c) && Contains(c, r)
    ensures AllTokenChars(r)
  {
    var i :| 0 <= i <= |c| && StartsAt(c, i, r);
    assert forall j :: 0 <= j < |r| ==> r[j] == c[i + j];
  }

  /** A text already in token shape is its own token. */
  lemma NormTokenFixed(t: string)
    requires AllTokenChars(t) && IsSpaced(t)
    ensures NormToken(Some(t)) == t
  {
    assert Lower(t) == t;
    KeepOnlyAll(t, TokenChar);
    CollapseOfSingleBlanks(t);
    StripOfStripped(t);
  }

  /** `norm_token` is idempotent. */
  lemma NormTokenIdempotent(s: Option<string>)
    ensures NormToken(Some(NormToken(s))) == NormToken(s)
  {
    NormTokenShape(s);
    NormTokenFixed(NormToken(s));
  }

  // ---------------------------------------------------------------------
  // rename_using_aliases
  // ---------------------------------------------------------------------

  /** One entry of the alias dictionary: the canonical name and its aliases. */
  type Alias = (string, seq<string>)

  /** The token key the renaming uses: `norm_token` of a present name. */
  function TokenOf(s: string): string
  {
    NormToken(Some(s))
  }

  /*
   * The renaming below is stated for any token function `tok`; the script
   * uses `TokenOf`.
   */

  /** `{tok(c): c for c in df.columns}`: each token's last column. */
  function Current(columns: seq<string>, tok: string -> string): map<string, string>
    decreases |columns|
  {
    if |columns| == 0 then map[]
    else Current(columns[..|columns| - 1], tok)[tok(columns[|columns| - 1]) := columns[|columns| - 1]]
  }

  /** The tokens a canonical name is wanted for: its own and its aliases'. */
  function Wanted(a: Alias, tok: string -> string): set<string>
  {
    {tok(a.0)} + set j | 0 <= j < |a.1| :: tok(a.1[j])
  }

  /** The columns current for one of the wanted tokens among `keys`. */
  function Origins<K>(cur: map<K, K>, keys: set<K>, wanted: set<K>): set<K>
  {
    set k | k in keys && k in cur && k in wanted :: cur[k]
  }

  /** Every name of `xs` mapped to `v`. */
  function Assign<K, V>(xs: set<K>, v: V): map<K, V>
  {
    map o | o in xs :: v
  }

  /** What one alias entry adds to the mapping: its canonical name for each of those columns. */
  function Step(cur: map<string, string>, keys: set<string>, a: Alias, tok: string -> string): map<string, string>
  {
    Assign(Origins(cur, keys, Wanted(a, tok)), a.0)
  }

  /** The `mapping` dictionary after the given alias entries, later entries overwriting earlier ones. */
  function MappingOf(cur: map<string, string>, aliases: seq<Alias>, tok: string -> string): map<string, string>
    decreases |aliases|
  {
    if |aliases| == 0 then map[]
    else MappingOf(cur, aliases[..|aliases| - 1], tok) + Step(cur, cur.Keys, aliases[|aliases| - 1], tok)
  }

  /** `df.rename(columns=mapping)`: every column named in the mapping takes its new name. */
  function Renamed(columns: seq<string>, mapping: map<string, string>): (r: seq<string>)
    ensures |r| == |columns|
  {
    seq(|columns|, i requires 0 <= i < |columns| =>
      if columns[i] in mapping then mapping[columns[i]] else columns[i])
  }

  /** The last alias entry that wants token `k`, if any. */
  function LastMatch(aliases: seq<Alias>, k: string, tok: string -> string): (m: Option<nat>)
    ensures m.Some? ==> m.value < |aliases| && k in Wanted(aliases[m.value], tok)
    decreases |aliases|
  {
    if |aliases| == 0 then None
    else if k in Wanted(aliases[|aliases| - 1], tok) then Some(|aliases| - 1)
    else LastMatch(aliases[..|aliases| - 1], k, tok)
  }

  /** `LastMatch` finds the last wanting entry, and `None` means no entry wants the token. */
  lemma {:induction false} LastMatchSpec(aliases: seq<Alias>, k: string, tok: string -> string)
    ensures LastMatch(aliases, k, tok).None? <==> forall j :: 0 <= j < |aliases| ==> k !in Wanted(aliases[j], tok)
    ensures LastMatch(aliases, k, tok).Some? ==>
      var j := LastMatch(aliases, k, tok).value;
      j < |aliases| && k in Wanted(aliases[j], tok) && forall l :: j < l < |aliases| ==> k !in Wanted(aliases[l], tok)
    decreases |aliases|
  {
    if |aliases| > 0 {
      var init := aliases[..|aliases| - 1];
      LastMatchSpec(init, k, tok);
      assert forall j :: 0 <= j < |init| ==> init[j] == aliases[j];
    }
  }

  /**
   * The token map holds exactly the tokens of the columns, each mapped to
   * the last column with that token.
   */
  lemma {:induction false} CurrentSpec(columns: seq<string>, tok: string -> string)
    ensures forall k :: k in Current(columns, tok) ==> tok(Current(columns, tok)[k]) == k
    ensures forall k :: k in Current(columns, tok) <==> exists i :: 0 <= i < |columns| && tok(columns[i]) == k
    ensures forall i :: 0 <= i < |columns| ==>
      var k := tok(columns[i]);
      k in Current(columns, tok) &&
      (Current(columns, tok)[k] == columns[i] || exists l :: i < l < |columns| && tok(columns[l]) == k)
    decreases |columns|
  {
    if |columns| > 0 {
      var n := |columns| - 1;
      var init := columns[..n];
      var c := columns[n];
      var m := Current(init, tok);
      var cur := Current(columns, tok);
      assert cur == m[tok(c) := c];
      CurrentSpec(init, tok);
      forall k | k in cur
        ensures tok(cur[k]) == k
      {
        if k != tok(c) {
          assert cur[k] == m[k];
        }
      }
      forall k
        ensures k in cur <==> exists i :: 0 <= i < |columns| && tok(columns[i]) == k
      {
        if k in cur && k != tok(c) {
          var i :| 0 <= i < |init| && tok(init[i]) == k;
          assert columns[i] == init[i];
        }
        if k !in cur {
          forall i | 0 <= i < |columns| ensures tok(columns[i]) != k {
            if i < n {
              assert columns[i] == init[i];
            }
          }
        }
      }
      forall i | 0 <= i < |columns|
        ensures var k := tok(columns[i]);
          k in cur && (cur[k] == columns[i] || exists l :: i < l < |columns| && tok(columns[l]) == k)
      {
        var k := tok(columns[i]);
        if i < n && k != tok(c) {
          assert columns[i] == init[i];
          assert cur[k] == m[k];
          if m[k] != init[i] {
            var l :| i < l < |init| && tok(init[l]) == k;
            assert columns[l] == init[l];
          }
        }
      }
    }
  }

  /** A column is in the mapping exactly when it is current for a wanted token, and names the last entry wanting it. */
  lemma {:induction false} MappingOfSpec(cur: map<string, string>, aliases: seq<Alias>, tok: string -> string, o: string)
    requires forall k :: k in cur ==> tok(cur[k]) == k
    ensures var k := tok(o);
      (o in MappingOf(cur, aliases, tok) <==> k in cur && cur[k] == o && LastMatch(aliases, k, tok).Some?)
      && (o in MappingOf(cur, aliases, tok) ==> MappingOf(cur, aliases, tok)[o] == aliases[LastMatch(aliases, k, tok).value].0)
    decreases |aliases|
  {
    if |aliases| > 0 {
      var init := aliases[..|aliases| - 1];
      var a := aliases[|aliases| - 1];
      MappingOfSpec(cur, init, tok, o);
      StepSpec(cur, a, tok, o);
      assert MappingOf(cur, aliases, tok) == MappingOf(cur, init, tok) + Step(cur, cur.Keys, a, tok);
    }
  }

  /** One entry's step takes a column exactly when it is current for one of the entry's tokens. */
  lemma StepSpec(cur: map<string, string>, a: Alias, tok: string -> string, o: string)
    requires forall k :: k in cur ==> tok(cur[k]) == k
    ensures o in Step(cur, cur.Keys, a, tok) <==> tok(o) in cur && cur[tok(o)] == o && tok(o) in Wanted(a, tok)
    ensures o in Step(cur, cur.Keys, a, tok) ==> Step(cur, cur.Keys, a, tok)[o] == a.0
  {
    var k := tok(o);
    if o in Origins(cur, cur.Keys, Wanted(a, tok)) {
      var k' :| k' in cur.Keys && k' in cur && k' in Wanted(a, tok) && cur[k'] == o;
      assert k' == k;
    }
    if k in cur && cur[k] == o && k in Wanted(a, tok) {
      assert o in Origins(cur, cur.Keys, Wanted(a, tok));
    }
  }

  /**
   * A column is renamed exactly when it is the last column with its token
   * and some canonical name wants that token, and it then takes the last
   * such canonical name; every other column keeps its name.
   */
  lemma RenameColumn(columns: seq<string>, aliases: seq<Alias>, tok: string -> string, i: nat)
    requires i < |columns|
    ensures var r := Renamed(columns, MappingOf(Current(columns, tok), aliases, tok));
      var k := tok(columns[i]);
      var m := LastMatch(aliases, k, tok);
      && k in Current(columns, tok)
      && (m.None? ==> r[i] == columns[i])
      && (Current(columns, tok)[k] != columns[i] ==> r[i] == columns[i])
      && (m.Some? && Current(columns, tok)[k] == columns[i] ==> r[i] == aliases[m.value].0)
  {
    CurrentSpec(columns, tok);
    MappingOfSpec(Current(columns, tok), aliases, tok, columns[i]);
  }

  /** A column whose token no entry wants keeps its name. */
  lemma RenameUnmatched(columns: seq<string>, aliases: seq<Alias>, tok: string -> string, i: nat)
    requires i < |columns|
    requires forall j :: 0 <= j < |aliases| ==> tok(columns[i]) !in Wanted(aliases[j], tok)
    ensures Renamed(columns, MappingOf(Current(columns, tok), aliases, tok))[i] == columns[i]
  {
    LastMatchSpec(aliases, tok(columns[i]), tok);
    RenameColumn(columns, aliases, tok, i);
  }

  /**
   * Of two differently named columns with one token, the earlier keeps its
   * name whenever only the later one's name follows it with that token.
   */
  lemma RenameShadowed(columns: seq<string>, aliases: seq<Alias>, tok: string -> string, i: nat, l: nat)
    requires i < l < |columns| && columns[i] != columns[l]
    requires tok(columns[i]) == tok(columns[l])
    requires forall p :: l < p < |columns| ==> columns[p] == columns[l] || tok(columns[p]) != tok(columns[l])
    ensures Renamed(columns, MappingOf(Current(columns, tok), aliases, tok))[i] == columns[i]
  {
    CurrentNotEarlier(columns, tok, i, l);
    RenameColumn(columns, aliases, tok, i);
  }

  lemma CurrentNotEarlier(columns: seq<string>, tok: string -> string, i: nat, l: nat)
    requires i < l < |columns| && columns[i] != columns[l]
    requires tok(columns[i]) == tok(columns[l])
    requires forall p :: l < p < |columns| ==> columns[p] == columns[l] || tok(columns[p]) != tok(columns[l])
    ensures tok(columns[i]) in Current(columns, tok) && Current(columns, tok)[tok(columns[i])] != columns[i]
  {
    CurrentIsLast(columns, tok, l);
  }

  /** The token map holds, for a token, the name of the last column with that token. */
  lemma {:induction false} CurrentIsLast(columns: seq<string>, tok: string -> string, l: nat)
    requires l < |columns|
    requires forall p :: l < p < |columns| ==> columns[p] == columns[l] || tok(columns[p]) != tok(columns[l])
    ensures tok(columns[l]) in Current(columns, tok) && Current(columns, tok)[tok(columns[l])] == columns[l]
    decreases |columns|
  {
    var n := |columns| - 1;
    if l < n && tok(columns[n]) != tok(columns[l]) {
      var init := columns[..n];
      assert forall p :: 0 <= p < n ==> init[p] == columns[p];
      CurrentIsLast(init, tok, l);
    }
  }

  /** When several entries want a current column's token, the last of them gives its name. */
  lemma RenameLaterWins(columns: seq<string>, aliases: seq<Alias>, tok: string -> string, i: nat, j: nat)
    requires i < |columns| && j < |aliases|
    requires tok(columns[i]) in Current(columns, tok) && Current(columns, tok)[tok(columns[i])] == columns[i]
    requires tok(columns[i]) in Wanted(aliases[j], tok)
    requires forall l :: j < l < |aliases| ==> tok(columns[i]) !in Wanted(aliases[l], tok)
    ensures Renamed(columns, MappingOf(Current(columns, tok), aliases, tok))[i] == aliases[j].0
  {
    LastMatchIs(aliases, tok(columns[i]), tok, j);
    RenameColumn(columns, aliases, tok, i);
  }

  /** The entry that wants `k` with none after it wanting `k` is the last match. */
  lemma LastMatchIs(aliases: seq<Alias>, k: string, tok: string -> string, j: nat)
    requires j < |aliases| && k in Wanted(aliases[j], tok)
    requires forall l :: j < l < |aliases| ==> k !in Wanted(aliases[l], tok)
    ensures LastMatch(aliases, k, tok) == Some(j)
  {
    LastMatchSpec(aliases, k, tok);
  }

  /** The inner loop: every current column whose token the entry wants takes its name. */
  method AddCanon<K>(cur: map<K, K>, canon: K, wanted: set<K>, mapping: map<K, K>) returns (m: map<K, K>)
    ensures m == mapping + Assign(Origins(cur, cur.Keys, wanted), canon)
  {
    m := mapping;
    var todo := cur.Keys;
    ghost var done: set<K> := {};
    while todo != {}
      invariant todo + done == cur.Keys && todo !! done
      invariant m == mapping + Assign(Origins(cur, done, wanted), canon)
      decreases |todo|
    {
      var k :| k in todo;
      AddCanonStep(cur, canon, wanted, mapping, done, k);
      if k in wanted {
        m := m[cur[k] := canon];
      }
      todo := todo - {k};
      done := done + {k};
    }
  }

  lemma AddCanonStep<K>(cur: map<K, K>, canon: K, wanted: set<K>, mapping: map<K, K>, done: set<K>, k: K)
    requires k in cur
    ensures var m := mapping + Assign(Origins(cur, done, wanted), canon);
      (if k in wanted then m[cur[k] := canon] else m) == mapping + Assign(Origins(cur, done + {k}, wanted), canon)
  {
    var before := Origins(cur, done, wanted);
    if k in wanted {
      assert Origins(cur, done + {k}, wanted) == before + {cur[k]};
      AssignAdd(before, cur[k], canon);
      MergeUpdate(mapping, Assign(before, canon), cur[k], canon);
    } else {
      assert Origins(cur, done + {k}, wanted) == before;
    }
  }

  lemma MergeUpdate<K, V>(m1: map<K, V>, m2: map<K, V>, x: K, v: V)
    ensures (m1 + m2)[x := v] == m1 + m2[x := v]
  {
  }

  lemma AssignAdd<K, V>(xs: set<K>, x: K, v: V)
    ensures Assign(xs + {x}, v) == Assign(xs, v)[x := v]
  {
  }

  /** The two loops of `rename_using_aliases` for a given token function. */
  method RenameBy(columns: seq<string>, aliases: seq<Alias>, tok: string -> string) returns (renamed: seq<string>)
    ensures renamed == Renamed(columns, MappingOf(Current(columns, tok), aliases, tok))
  {
    var cur := Current(columns, tok);
    var mapping: map<string, string> := map[];
    for i := 0 to |aliases|
      invariant mapping == MappingOf(cur, aliases[..i], tok)
    {
      mapping := AddCanon(cur, aliases[i].0, Wanted(aliases[i], tok), mapping);
      assert aliases[..i + 1][..i] == aliases[..i];
    }
    assert aliases[..|aliases|] == aliases;
    renamed := Renamed(columns, mapping);
  }

  /** `rename_using_aliases(df, aliases)` on the frame's column names. */
  method RenameUsingAliases(columns: seq<string>, aliases: seq<Alias>) returns (renamed: seq<string>)
    ensures renamed == Renamed(columns, MappingOf(Current(columns, TokenOf), aliases, TokenOf))
  {
    renamed := RenameBy(columns, aliases, TokenOf);
  }
}
