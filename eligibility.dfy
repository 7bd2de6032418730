/**
 * The per-policy eligibility evaluation both result pages perform: every
 * requirement row of the policy is checked against the profile, then every
 * document the policy asks for against the documents the profile declares.
 * Each check adds a ✓ or ✗ detail; a failed mandatory check adds a missing
 * item and makes the policy not eligible.
 *
 * The functions here are the specification; `TallyRequirements` and
 * `TallyDocuments` are the two counting loops, proved to compute it.
 */
module Eligibility {
  import opened PyStr
  import opened PyValue
  import opened PyFloat
  import opened Operators
  import opened Seqs

  /**
   * `_eval_operator(attr_value, operator, expected)`. Each page carries its own
   * copy of the operator helpers; both are `Operators.EvalOperator`, and the
   * engine takes the evaluator as a parameter so that its facts hold for any.
   */
  type Evaluator = (Value, string, Value) -> bool

  /** The profile: the JSON object of the user's answers. */
  type Profile = map<string, Value>

  /** `profile.get(k)` */
  function Get(p: Profile, k: string): (v: Value)
    ensures k !in p ==> v == VNone
  {
    if k in p then p[k] else VNone
  }

  /** `index.get(pid, [])` on the per-policy indexes both pages build. */
  function Lookup<K, V>(index: map<K, seq<V>>, k: K): seq<V>
  {
    if k in index then index[k] else []
  }

  /** A row of the requirements sheet, cells as read. */
  datatype ReqRow = ReqRow(attribute: Value, operator: Value, value: Value, mandatory: Value)

  /** A document a policy asks for (already cleaned when the sheet is loaded). */
  datatype DocReq = DocReq(name: string, mandatory: bool)

  // ---------------------------------------------------------------------
  // The profile's documents
  // ---------------------------------------------------------------------

  /** `{k: bool(v) for k, v in entries}`: a later entry for the same name wins. */
  function DocsMap(entries: seq<(string, Value)>): (m: map<string, bool>)
    ensures forall k :: k in m <==> exists i :: 0 <= i < |entries| && entries[i].0 == k
    decreases |entries|
  {
    if |entries| == 0 then map[]
    else
      var last := entries[|entries| - 1];
      var m0 := DocsMap(entries[..|entries| - 1]);
      assert forall i :: 0 <= i < |entries| - 1 ==> entries[..|entries| - 1][i] == entries[i];
      m0[last.0 := Truthy(last.1)]
  }

  /**
   * `profile_docs`: the declared documents, from `profile.get("docs") or {}`.
   * Nothing when that is a truthy non-dict, where `.items()` raises.
   */
  function ProfileDocs(p: Profile): (r: Option<map<string, bool>>)
    ensures r.None? <==> Truthy(Get(p, "docs")) && !Get(p, "docs").VDict?
  {
    match Or(Get(p, "docs"), VDict([]))
    case VDict(entries) => Some(DocsMap(entries))
    case _ => None
  }

  /** `profile_docs.get(name, False)`: declared and truthy. */
  predicate Held(held: map<string, bool>, name: string)
  {
    name in held && held[name]
  }

  // ---------------------------------------------------------------------
  // One requirement row
  // ---------------------------------------------------------------------

  /** `str(r.get("attribute") or "").strip()` */
  function AttrName(r: ReqRow): string
  {
    Strip(Str(Or(r.attribute, VStr(""))))
  }

  /** `str(r.get("operator") or "").strip()` */
  function OpText(r: ReqRow): string
  {
    Strip(Str(Or(r.operator, VStr(""))))
  }

  /** The profile's value for the row's attribute. */
  function Actual(r: ReqRow, p: Profile): Value
  {
    Get(p, AttrName(r))
  }

  predicate RowPasses(r: ReqRow, p: Profile, ev: Evaluator)
  {
    ev(Actual(r, p), OpText(r), r.value)
  }

  /** A failed mandatory row: it blocks eligibility. */
  predicate RowBlocks(r: ReqRow, p: Profile, ev: Evaluator)
  {
    !RowPasses(r, p, ev) && Truthy(r.mandatory)
  }

  /** `f"{attr} {op} {exp}"`: the requirement as text (also the missing item). */
  function Requirement(r: ReqRow): string
  {
    AttrName(r) + " " + OpText(r) + " " + Str(r.value)
  }

  function RowDetail(r: ReqRow, p: Profile, ev: Evaluator): string
  {
    if RowPasses(r, p, ev) then "✓ " + Requirement(r)
    else "✗ " + Requirement(r) + " (atual: " + Str(Actual(r, p)) + ")"
  }

  // ---------------------------------------------------------------------
  // One required document
  // ---------------------------------------------------------------------

  predicate DocBlocks(d: DocReq, held: map<string, bool>)
  {
    !Held(held, d.name) && d.mandatory
  }

  function DocMissing(d: DocReq): string
  {
    "Documento obrigatório: " + d.name
  }

  function DocDetail(d: DocReq, held: map<string, bool>): string
  {
    if Held(held, d.name) then "✓ doc: " + d.name else "✗ doc: " + d.name
  }

  // ---------------------------------------------------------------------
  // Over the rows, in order (defined on prefixes, as the loops run)
  // ---------------------------------------------------------------------

  /** `RowBlocks` as a predicate on rows, for the generic sequence lemmas. */
  function RowBlocker(p: Profile, ev: Evaluator): ReqRow -> bool
  {
    r => RowBlocks(r, p, ev)
  }

  function RowPasser(p: Profile, ev: Evaluator): ReqRow -> bool
  {
    r => RowPasses(r, p, ev)
  }

  function RowDetailer(p: Profile, ev: Evaluator): ReqRow -> string
  {
    r => RowDetail(r, p, ev)
  }

  /** The missing items of the rows: the requirements of the failed mandatory rows, in row order. */
  function RowsMissing(rows: seq<ReqRow>, p: Profile, ev: Evaluator): seq<string>
  {
    Map(Filter(rows, RowBlocker(p, ev)), Requirement)
  }

  /** One detail per row, in row order. */
  function RowsDetails(rows: seq<ReqRow>, p: Profile, ev: Evaluator): seq<string>
  {
    Map(rows, RowDetailer(p, ev))
  }

  /** The number of rows that pass. */
  function RowsPassed(rows: seq<ReqRow>, p: Profile, ev: Evaluator): nat
  {
    |Filter(rows, RowPasser(p, ev))|
  }

  /** Some row blocks. */
  predicate AnyRowBlocks(rows: seq<ReqRow>, p: Profile, ev: Evaluator)
  {
    Any(rows, RowBlocker(p, ev))
  }

  function DocBlocker(held: map<string, bool>): DocReq -> bool
  {
    d => DocBlocks(d, held)
  }

  function DocHolder(held: map<string, bool>): DocReq -> bool
  {
    (d: DocReq) => Held(held, d.name)
  }

  function DocDetailer(held: map<string, bool>): DocReq -> string
  {
    d => DocDetail(d, held)
  }

  /** The missing documents: the mandatory ones not held, in list order. */
  function DocsMissing(docs: seq<DocReq>, held: map<string, bool>): seq<string>
  {
    Map(Filter(docs, DocBlocker(held)), DocMissing)
  }

  function DocsDetails(docs: seq<DocReq>, held: map<string, bool>): seq<string>
  {
    Map(docs, DocDetailer(held))
  }

  function DocsHeld(docs: seq<DocReq>, held: map<string, bool>): nat
  {
    |Filter(docs, DocHolder(held))|
  }

  /** Some document blocks. */
  predicate AnyDocBlocks(docs: seq<DocReq>, held: map<string, bool>)
  {
    Any(docs, DocBlocker(held))
  }

  /** What the two loops accumulate. */
  datatype Tally = Tally(missing: seq<string>, details: seq<string>, passed: nat, total: nat, hardFail: bool)

  /** The evaluation of one policy: its rows, then its documents. */
  function Evaluation(rows: seq<ReqRow>, docs: seq<DocReq>, p: Profile, held: map<string, bool>, ev: Evaluator): Tally
  {
    Tally(RowsMissing(rows, p, ev) + DocsMissing(docs, held),
          RowsDetails(rows, p, ev) + DocsDetails(docs, held),
          RowsPassed(rows, p, ev) + DocsHeld(docs, held),
          |rows| + |docs|,
          AnyRowBlocks(rows, p, ev) || AnyDocBlocks(docs, held))
  }

  /** The verdict a page shows for one policy. */
  datatype EvalResult = EvalResult(
    eligible: bool, nearMiss: bool, missing: seq<string>, details: seq<string>,
    scorePassed: nat, scoreTotal: nat)

  /** `near_miss = 0 < len(missing) <= 2` when not eligible; `score_total = max(1, total)`. */
  function Verdict(t: Tally): EvalResult
  {
    var eligible := !t.hardFail;
    EvalResult(eligible, !eligible && 0 < |t.missing| <= 2, t.missing, t.details,
               t.passed, if t.total < 1 then 1 else t.total)
  }

  // ---------------------------------------------------------------------
  // The loops
  // ---------------------------------------------------------------------

  /** The requirement-row loop, from a zero tally. */
  method TallyRequirements(rows: seq<ReqRow>, p: Profile, ev: Evaluator) returns (t: Tally)
    ensures t == Tally(RowsMissing(rows, p, ev), RowsDetails(rows, p, ev), RowsPassed(rows, p, ev),
                       |rows|, AnyRowBlocks(rows, p, ev))
  {
    var missing: seq<string> := [];
    var details: seq<string> := [];
    var passedCount: nat := 0;
    var totalChecks: nat := 0;
    var hardFail := false;
    for i := 0 to |rows|
      invariant missing == RowsMissing(rows[..i], p, ev)
      invariant details == RowsDetails(rows[..i], p, ev)
      invariant passedCount == RowsPassed(rows[..i], p, ev)
      invariant totalChecks == i
      invariant hardFail == AnyRowBlocks(rows[..i], p, ev)
    {
      var r := rows[i];
      var attr := AttrName(r);
      var op := OpText(r);
      var val := Get(p, attr);
      var req := attr + " " + op + " " + Str(r.value);
      var ok := ev(val, op, r.value);
      assert ok == RowPasses(r, p, ev) && req == Requirement(r);
      totalChecks := totalChecks + 1;
      if ok {
        passedCount := passedCount + 1;
        details := details + ["✓ " + req];
      } else {
        details := details + ["✗ " + req + " (atual: " + Str(val) + ")"];
        if Truthy(r.mandatory) {
          hardFail := true;
          missing := missing + [req];
        }
      }
      RowsStep(rows, i, p, ev);
    }
    assert rows[..|rows|] == rows;
    t := Tally(missing, details, passedCount, totalChecks, hardFail);
  }

  /** The document loop, continuing the tally `t0` of the requirement rows. */
  method TallyDocuments(t0: Tally, docs: seq<DocReq>, held: map<string, bool>) returns (t: Tally)
    ensures t == Tally(t0.missing + DocsMissing(docs, held), t0.details + DocsDetails(docs, held),
                       t0.passed + DocsHeld(docs, held), t0.total + |docs|,
                       t0.hardFail || AnyDocBlocks(docs, held))
  {
    var missing := t0.missing;
    var details := t0.details;
    var passedCount := t0.passed;
    var totalChecks := t0.total;
    var hardFail := t0.hardFail;
    for j := 0 to |docs|
      invariant missing == t0.missing + DocsMissing(docs[..j], held)
      invariant details == t0.details + DocsDetails(docs[..j], held)
      invariant passedCount == t0.passed + DocsHeld(docs[..j], held)
      invariant totalChecks == t0.total + j
      invariant hardFail == (t0.hardFail || AnyDocBlocks(docs[..j], held))
    {
      var d := docs[j];
      totalChecks := totalChecks + 1;
      if Held(held, d.name) {
        passedCount := passedCount + 1;
        details := details + ["✓ doc: " + d.name];
      } else {
        details := details + ["✗ doc: " + d.name];
        if d.mandatory {
          hardFail := true;
          missing := missing + ["Documento obrigatório: " + d.name];
        }
      }
      DocsStep(docs, j, held);
      ConcatAssoc(t0.missing, DocsMissing(docs[..j], held), [DocMissing(d)]);
      ConcatAssoc(t0.details, DocsDetails(docs[..j], held), [DocDetail(d, held)]);
    }
    assert docs[..|docs|] == docs;
    t := Tally(missing, details, passedCount, totalChecks, hardFail);
  }

  /** Both loops of one policy: its requirement rows, then its documents. */
  method TallyPolicy(rows: seq<ReqRow>, docs: seq<DocReq>, p: Profile, held: map<string, bool>, ev: Evaluator)
    returns (t: Tally)
    ensures t == Evaluation(rows, docs, p, held, ev)
  {
    var t0 := TallyRequirements(rows, p, ev);
    t := TallyDocuments(t0, docs, held);
  }

  /** One more row: each accumulated quantity grows by that row's contribution. */
  lemma RowsStep(rows: seq<ReqRow>, i: nat, p: Profile, ev: Evaluator)
    requires i < |rows|
    ensures RowBlocks(rows[i], p, ev) ==>
      RowsMissing(rows[..i + 1], p, ev) == RowsMissing(rows[..i], p, ev) + [Requirement(rows[i])]
    ensures !RowBlocks(rows[i], p, ev) ==> RowsMissing(rows[..i + 1], p, ev) == RowsMissing(rows[..i], p, ev)
    ensures RowsDetails(rows[..i + 1], p, ev) == RowsDetails(rows[..i], p, ev) + [RowDetail(rows[i], p, ev)]
    ensures RowsPassed(rows[..i + 1], p, ev) == RowsPassed(rows[..i], p, ev) + (if RowPasses(rows[i], p, ev) then 1 else 0)
    ensures AnyRowBlocks(rows[..i + 1], p, ev) == (AnyRowBlocks(rows[..i], p, ev) || RowBlocks(rows[i], p, ev))
  {
    PrefixStep(rows, i);
    MapFilterSnoc(rows[..i], rows[i], RowBlocker(p, ev), Requirement);
    MapSnoc(rows[..i], rows[i], RowDetailer(p, ev));
    FilterSnoc(rows[..i], rows[i], RowPasser(p, ev));
    AnySnoc(rows[..i], rows[i], RowBlocker(p, ev));
  }

  lemma DocsStep(docs: seq<DocReq>, j: nat, held: map<string, bool>)
    requires j < |docs|
    ensures DocBlocks(docs[j], held) ==>
      DocsMissing(docs[..j + 1], held) == DocsMissing(docs[..j], held) + [DocMissing(docs[j])]
    ensures !DocBlocks(docs[j], held) ==> DocsMissing(docs[..j + 1], held) == DocsMissing(docs[..j], held)
    ensures DocsDetails(docs[..j + 1], held) == DocsDetails(docs[..j], held) + [DocDetail(docs[j], held)]
    ensures DocsHeld(docs[..j + 1], held) == DocsHeld(docs[..j], held) + (if Held(held, docs[j].name) then 1 else 0)
    ensures AnyDocBlocks(docs[..j + 1], held) == (AnyDocBlocks(docs[..j], held) || DocBlocks(docs[j], held))
  {
    PrefixStep(docs, j);
    MapFilterSnoc(docs[..j], docs[j], DocBlocker(held), DocMissing);
    MapSnoc(docs[..j], docs[j], DocDetailer(held));
    FilterSnoc(docs[..j], docs[j], DocHolder(held));
    AnySnoc(docs[..j], docs[j], DocBlocker(held));
  }

  // ---------------------------------------------------------------------
  // Properties of the evaluation
  // ---------------------------------------------------------------------

  /** `hard_fail` is set exactly when a missing item is appended. */
  lemma RowsBlockIffMissing(rows: seq<ReqRow>, p: Profile, ev: Evaluator)
    ensures AnyRowBlocks(rows, p, ev) <==> |RowsMissing(rows, p, ev)| > 0
  {
    AnyFilter(rows, RowBlocker(p, ev));
  }

  lemma DocsBlockIffMissing(docs: seq<DocReq>, held: map<string, bool>)
    ensures AnyDocBlocks(docs, held) <==> |DocsMissing(docs, held)| > 0
  {
    AnyFilter(docs, DocBlocker(held));
  }

  /** A policy is eligible exactly when nothing is missing. */
  lemma EligibleIffNoMissing(rows: seq<ReqRow>, docs: seq<DocReq>, p: Profile, held: map<string, bool>, ev: Evaluator)
    ensures Verdict(Evaluation(rows, docs, p, held, ev)).eligible <==> |Verdict(Evaluation(rows, docs, p, held, ev)).missing| == 0
  {
    RowsBlockIffMissing(rows, p, ev);
    DocsBlockIffMissing(docs, held);
  }

  /** "Quase lá": not eligible with one or two missing items, never together with eligible. */
  lemma NearMissIff(rows: seq<ReqRow>, docs: seq<DocReq>, p: Profile, held: map<string, bool>, ev: Evaluator)
    ensures var v := Verdict(Evaluation(rows, docs, p, held, ev));
      (v.nearMiss <==> !v.eligible && |v.missing| <= 2) && (v.nearMiss ==> 1 <= |v.missing|)
  {
    EligibleIffNoMissing(rows, docs, p, held, ev);
  }

  /** One detail per check; the passed checks are at most all of them; the score total is at least 1. */
  lemma ScoreBounds(rows: seq<ReqRow>, docs: seq<DocReq>, p: Profile, held: map<string, bool>, ev: Evaluator)
    ensures var v := Verdict(Evaluation(rows, docs, p, held, ev));
      && |v.details| == |rows| + |docs|
      && v.scorePassed <= |rows| + |docs|
      && v.scoreTotal == (if |rows| + |docs| < 1 then 1 else |rows| + |docs|)
      && 1 <= v.scoreTotal && v.scorePassed <= v.scoreTotal
  {
  }

  /** A policy with no rows and no documents is eligible with score 0/1. */
  lemma EmptyPolicy(p: Profile, held: map<string, bool>, ev: Evaluator)
    ensures Verdict(Evaluation([], [], p, held, ev)) == EvalResult(true, false, [], [], 0, 1)
  {
  }

  /** Names are unique among the entries of a JSON object. */
  predicate DistinctNames(entries: seq<(string, Value)>)
  {
    forall i, j :: 0 <= i < j < |entries| ==> entries[i].0 != entries[j].0
  }

  /** A document counts as held exactly when its own name maps to a truthy value. */
  lemma {:induction false} HeldExact(entries: seq<(string, Value)>, name: string)
    requires DistinctNames(entries)
    ensures Held(DocsMap(entries), name) <==>
      exists i :: 0 <= i < |entries| && entries[i].0 == name && Truthy(entries[i].1)
    decreases |entries|
  {
    if |entries| > 0 {
      var init := entries[..|entries| - 1];
      var last := entries[|entries| - 1];
      assert DistinctNames(init) by {
        forall i, j | 0 <= i < j < |init| ensures init[i].0 != init[j].0 {
          assert init[i] == entries[i] && init[j] == entries[j];
        }
      }
      HeldExact(init, name);
      if last.0 != name {
        forall i | 0 <= i < |entries| && entries[i].0 == name ensures i < |init| && init[i] == entries[i] {
        }
      } else {
        forall i | 0 <= i < |init| ensures init[i].0 != name {
          assert init[i] == entries[i];
        }
      }
    }
  }

  /** The prefix of length `i + 1` sheds its last element to give the prefix of length `i`. */
  lemma PrefixStep<T>(s: seq<T>, i: nat)
    requires i < |s|
    ensures s[..i + 1][..i] == s[..i] && s[..i + 1][i] == s[i] && |s[..i + 1]| == i + 1
    ensures s[..i] + [s[i]] == s[..i + 1]
  {
  }
}
