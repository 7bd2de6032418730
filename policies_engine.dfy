/**
 * The keyword-based batch classification of policies: each policy's access
 * text is run through the legacy keyword matcher, and the policies with a
 * result are split into eligible ones (nothing missing) and nearly eligible
 * ones (something missing). The matcher itself is a parameter.
 */
module PoliciesEngine {
  import opened PyStr
  import opened PyValue
  import opened Seqs
  import opened Frames

  type Dict = map<string, Value>

  /**
   * The legacy `evaluate_requirements(text, profile, kw_map)`: the met and
   * missing lists, either of which may be `None`.
   */
  type Matcher = (string, Dict, Dict) -> (Option<seq<string>>, Option<seq<string>>)

  /** `x or default` for an optional argument. */
  function OrElse<T>(x: Option<T>, default: T): T
  {
    if x.Some? then x.value else default
  }

  /** `list(x or [])` for a list the matcher may leave out; an empty list is the same either way. */
  function ListOrEmpty(x: Option<seq<string>>): seq<string>
  {
    OrElse(x, [])
  }

  /**
   * `evaluate_requirements(requirement_text, profile, kw_map)`: the matcher
   * applied with `""` and `{}` for missing arguments; both results are lists.
   */
  function EvaluateRequirements(text: Option<string>, profile: Option<Dict>, kwMap: Option<Dict>,
                                m: Matcher): (seq<string>, seq<string>)
  {
    var (met, missing) := m(OrElse(text, ""), OrElse(profile, map[]), OrElse(kwMap, map[]));
    (ListOrEmpty(met), ListOrEmpty(missing))
  }

  /**
   * The matcher sees `""` and `{}` in place of missing arguments, and a
   * list it leaves out comes back empty.
   */
  lemma EvaluateRequirementsDefaults(text: Option<string>, profile: Option<Dict>, kwMap: Option<Dict>, m: Matcher)
    ensures var raw := m(if text.None? then "" else text.value,
                         if profile.None? then map[] else profile.value,
                         if kwMap.None? then map[] else kwMap.value);
      var (met, missing) := EvaluateRequirements(text, profile, kwMap, m);
      (raw.0.None? ==> met == []) && (raw.0.Some? ==> met == raw.0.value)
      && (raw.1.None? ==> missing == []) && (raw.1.Some? ==> missing == raw.1.value)
  {
  }

  /** One classified policy: its row position, what it meets and what it misses. */
  datatype Verdict = Verdict(index: nat, met: seq<string>, missing: seq<string>)

  const AccessKey := "Acesso"

  /** `str(row.get("Acesso", ""))` */
  function AccessText(r: Row<Value>): string
  {
    if AccessKey in r then Str(r[AccessKey]) else ""
  }

  /** Row `i`'s verdict. */
  function VerdictAt(r: Row<Value>, i: nat, profile: Option<Dict>, kwMap: Option<Dict>, m: Matcher): Verdict
  {
    var (met, missing) := EvaluateRequirements(Some(AccessText(r)), profile, kwMap, m);
    Verdict(i, met, missing)
  }

  /** Each row's verdict, in row order. */
  function Verdicts(rows: seq<Row<Value>>, profile: Option<Dict>, kwMap: Option<Dict>, m: Matcher): (vs: seq<Verdict>)
    ensures |vs| == |rows|
    ensures forall i :: 0 <= i < |rows| ==> vs[i].index == i
  {
    seq(|rows|, i requires 0 <= i < |rows| => VerdictAt(rows[i], i, profile, kwMap, m))
  }

  /** A policy with nothing missing and something met. */
  predicate IsEligible(v: Verdict)
  {
    |v.missing| == 0 && |v.met| > 0
  }

  /** A policy with something missing. */
  predicate IsNearly(v: Verdict)
  {
    |v.missing| > 0
  }

  /** The frame has rows to classify: present, non-empty and with the access column. */
  predicate Classifiable(df: Option<Frame<Value>>)
  {
    df.Some? && !Empty(df.value) && AccessKey in df.value.columns
  }

  /** The eligible verdicts `batch_evaluate_policies` returns. */
  function EligibleOf(df: Option<Frame<Value>>, profile: Option<Dict>, kwMap: Option<Dict>, m: Matcher): seq<Verdict>
  {
    if !Classifiable(df) then [] else Filter(Verdicts(df.value.rows, profile, kwMap, m), IsEligible)
  }

  /** The nearly eligible verdicts `batch_evaluate_policies` returns. */
  function NearlyOf(df: Option<Frame<Value>>, profile: Option<Dict>, kwMap: Option<Dict>, m: Matcher): seq<Verdict>
  {
    if !Classifiable(df) then [] else Filter(Verdicts(df.value.rows, profile, kwMap, m), IsNearly)
  }

  /**
   * `batch_evaluate_policies(df, profile, kw_map)`: nothing for a missing or
   * empty frame or one without the access column; otherwise every row with
   * a non-empty result goes to `nearly` when something is missing and to
   * `eligible` when not.
   */
  method BatchEvaluatePolicies(df: Option<Frame<Value>>, profile: Option<Dict>, kwMap: Option<Dict>, m: Matcher)
    returns (eligible: seq<Verdict>, nearly: seq<Verdict>)
    ensures eligible == EligibleOf(df, profile, kwMap, m)
    ensures nearly == NearlyOf(df, profile, kwMap, m)
  {
    if df.None? || |df.value.columns| == 0 || |df.value.rows| == 0 || AccessKey !in df.value.columns {
      return [], [];
    }
    eligible, nearly := ClassifyRows(df.value.rows, profile, kwMap, m);
  }

  /** The row loop: each row's verdict appended to the list it belongs to. */
  method ClassifyRows(rows: seq<Row<Value>>, profile: Option<Dict>, kwMap: Option<Dict>, m: Matcher)
    returns (eligible: seq<Verdict>, nearly: seq<Verdict>)
    ensures eligible == Filter(Verdicts(rows, profile, kwMap, m), IsEligible)
    ensures nearly == Filter(Verdicts(rows, profile, kwMap, m), IsNearly)
  {
    eligible, nearly := [], [];
    ghost var vs := Verdicts(rows, profile, kwMap, m);
    for i := 0 to |rows|
      invariant eligible == Filter(vs[..i], IsEligible)
      invariant nearly == Filter(vs[..i], IsNearly)
    {
      var v := VerdictAt(rows[i], i, profile, kwMap, m);
      ClassifyStep(vs, i, v);
      if |v.met| > 0 || |v.missing| > 0 {
        if |v.missing| > 0 {
          nearly := nearly + [v];
        } else {
          eligible := eligible + [v];
        }
      }
    }
    assert vs[..|rows|] == vs;
  }

  lemma ClassifyStep(vs: seq<Verdict>, i: nat, v: Verdict)
    requires i < |vs| && vs[i] == v
    ensures Filter(vs[..i + 1], IsEligible) == Filter(vs[..i], IsEligible) + (if IsEligible(v) then [v] else [])
    ensures Filter(vs[..i + 1], IsNearly) == Filter(vs[..i], IsNearly) + (if IsNearly(v) then [v] else [])
  {
    assert vs[..i + 1] == vs[..i] + [v];
    FilterSnoc(vs[..i], v, IsEligible);
    FilterSnoc(vs[..i], v, IsNearly);
  }

  /**
   * A classifiable frame's row goes to `nearly` exactly when its result
   * misses something, to `eligible` exactly when it misses nothing and
   * meets something, and to neither when both lists are empty; no row is
   * in both lists.
   */
  lemma BatchPartition(df: Option<Frame<Value>>, profile: Option<Dict>, kwMap: Option<Dict>, m: Matcher, i: nat)
    requires Classifiable(df) && i < |df.value.rows|
    ensures var v := Verdicts(df.value.rows, profile, kwMap, m)[i];
      (v in NearlyOf(df, profile, kwMap, m) <==> |v.missing| > 0)
      && (v in EligibleOf(df, profile, kwMap, m) <==> |v.missing| == 0 && |v.met| > 0)
      && !(v in NearlyOf(df, profile, kwMap, m) && v in EligibleOf(df, profile, kwMap, m))
  {
    var vs := Verdicts(df.value.rows, profile, kwMap, m);
    FilterMember(vs, IsNearly, vs[i]);
    FilterMember(vs, IsEligible, vs[i]);
  }

  /** The two lists are disjoint and each keeps the row order. */
  lemma BatchOrdered(df: Option<Frame<Value>>, profile: Option<Dict>, kwMap: Option<Dict>, m: Matcher)
    ensures forall v :: v in EligibleOf(df, profile, kwMap, m) ==> v !in NearlyOf(df, profile, kwMap, m)
    ensures IsSubsequence(EligibleOf(df, profile, kwMap, m), Verdicts(if df.Some? then df.value.rows else [], profile, kwMap, m))
    ensures IsSubsequence(NearlyOf(df, profile, kwMap, m), Verdicts(if df.Some? then df.value.rows else [], profile, kwMap, m))
  {
    var vs := Verdicts(if df.Some? then df.value.rows else [], profile, kwMap, m);
    if Classifiable(df) {
      forall v | v in EligibleOf(df, profile, kwMap, m) ensures v !in NearlyOf(df, profile, kwMap, m) {
        FilterMember(vs, IsEligible, v);
        FilterMember(vs, IsNearly, v);
      }
      FilterIsSubsequence(vs, IsEligible);
      FilterIsSubsequence(vs, IsNearly);
    }
  }

  /** A missing or empty frame, or one without the access column, gives two empty lists. */
  lemma BatchNothing(df: Option<Frame<Value>>, profile: Option<Dict>, kwMap: Option<Dict>, m: Matcher)
    requires !Classifiable(df)
    ensures EligibleOf(df, profile, kwMap, m) == [] && NearlyOf(df, profile, kwMap, m) == []
  {
  }
}
