/**
 * The automatic result page: the sheets behind the evaluation (the
 * mandatory flag of requirement rows, the per-policy document lists), the
 * evaluation of every policy against the profile, and the filtered,
 * ranked list of matches the page shows.
 */
module ResultAuto {
  import opened PyStr
  import opened PyValue
  import opened Eligibility
  import opened Seqs

  // ---------------------------------------------------------------------
  // Loading the sheets
  // ---------------------------------------------------------------------

  /** The flag spellings that mean "yes". */
  predicate IsYes(t: string)
  {
    t == "1" || t == "true" || t == "sim" || t == "yes"
  }

  /** `mandatory_flag`: `astype(str).str.lower().isin(["1","true","sim","yes"])`. */
  function MandatoryFlag(cell: Value): (flag: Value)
    ensures flag.VBool?
  {
    VBool(IsYes(Lower(Str(cell))))
  }

  /**
   * Booleans keep their value, so a sheet without a flag column, filled with
   * `True`, makes every row mandatory.
   */
  lemma MandatoryFlagOfBool(b: bool)
    ensures MandatoryFlag(VBool(b)) == VBool(b)
  {
    assert Lower("True") == "true";
    assert Lower("False") == "false";
  }

  /** Empty cells read as not mandatory. */
  lemma MandatoryFlagOfEmpty()
    ensures MandatoryFlag(VNone) == VBool(false) && MandatoryFlag(VNaN) == VBool(false)
    ensures MandatoryFlag(VStr("")) == VBool(false)
  {
    assert Lower("None") == "none";
    assert Lower("nan") == "nan";
  }

  /** The spellings are matched case-insensitively; the integer 1 counts, 0 does not. */
  lemma MandatoryFlagSpellings()
    ensures MandatoryFlag(VStr("Sim")) == VBool(true) && MandatoryFlag(VStr("YES")) == VBool(true)
    ensures MandatoryFlag(VInt(1)) == VBool(true) && MandatoryFlag(VInt(0)) == VBool(false)
  {
    assert Lower("Sim") == "sim";
    assert Lower("YES") == "yes";
    assert NatToStr(1) == "1" && NatToStr(0) == "0";
    assert Lower("1") == "1" && Lower("0") == "0";
  }

  /** A row of the documents sheet: policy, document name and mandatory cells. */
  datatype DocRow = DocRow(policy: Value, name: Value, mandatory: Value)

  /** `str(r.get(k_doc) or "").strip()` */
  function DocName(r: DocRow): string
  {
    Strip(Str(Or(r.name, VStr(""))))
  }

  /** `str(r.get(k_mand, "false")).strip().lower() in [...]` */
  predicate DocMandatory(r: DocRow)
  {
    IsYes(Lower(Strip(Str(r.mandatory))))
  }

  function ToDocReq(r: DocRow): DocReq
  {
    DocReq(DocName(r), DocMandatory(r))
  }

  /** What the loader takes from one row: its policy and its `(dname, mand)` pair. */
  datatype DocEntry = DocEntry(policy: Value, doc: DocReq)

  function ToEntry(r: DocRow): DocEntry
  {
    DocEntry(r.policy, ToDocReq(r))
  }

  function EntryDoc(e: DocEntry): DocReq
  {
    e.doc
  }

  /** The entries the loader keeps for policy `pid`: that id and a non-blank name. */
  function KeptFor(pid: Value): DocEntry -> bool
  {
    (e: DocEntry) => e.policy == pid && e.doc.name != ""
  }

  /** The documents of policy `pid` among `es`, in sheet order. */
  function EntriesFor(es: seq<DocEntry>, pid: Value): seq<DocReq>
  {
    Map(Filter(es, KeptFor(pid)), EntryDoc)
  }

  /** The documents of policy `pid` in the sheet. */
  function DocsFor(rows: seq<DocRow>, pid: Value): seq<DocReq>
  {
    EntriesFor(Map(rows, ToEntry), pid)
  }

  /** `index` lists, for every policy, exactly that policy's documents among `es`. */
  ghost predicate EntriesIndexOf(index: map<Value, seq<DocReq>>, es: seq<DocEntry>)
  {
    && (forall pid :: Lookup(index, pid) == EntriesFor(es, pid))
    && (forall pid :: pid in index <==> EntriesFor(es, pid) != [])
  }

  /** `index` lists, for every policy, exactly that policy's documents in `rows`. */
  ghost predicate IndexOf(index: map<Value, seq<DocReq>>, rows: seq<DocRow>)
  {
    EntriesIndexOf(index, Map(rows, ToEntry))
  }

  /** `docs_by_policy.setdefault(pid, []).append((dname, mand))` over the sheet. */
  method BuildDocsByPolicy(rows: seq<DocRow>) returns (index: map<Value, seq<DocReq>>)
    ensures IndexOf(index, rows)
  {
    index := map[];
    ghost var es: seq<DocEntry> := [];
    for i := 0 to |rows|
      invariant es == Map(rows[..i], ToEntry)
      invariant EntriesIndexOf(index, es)
    {
      var r := rows[i];
      var pid := r.policy;
      var dname := Strip(Str(Or(r.name, VStr(""))));
      var mand := IsYes(Lower(Strip(Str(r.mandatory))));
      assert DocEntry(pid, DocReq(dname, mand)) == ToEntry(r);
      AddEntry(index, es, ToEntry(r));
      if dname != "" {
        index := index[pid := Lookup(index, pid) + [DocReq(dname, mand)]];
      }
      PrefixStep(rows, i);
      MapSnoc(rows[..i], r, ToEntry);
      es := es + [ToEntry(r)];
    }
    assert rows[..|rows|] == rows;
  }

  /** The index after the loader has taken entry `e`. */
  function AddDoc(index: map<Value, seq<DocReq>>, e: DocEntry): map<Value, seq<DocReq>>
  {
    if e.doc.name != "" then index[e.policy := Lookup(index, e.policy) + [e.doc]] else index
  }

  /** One more entry keeps the index exact. */
  lemma AddEntry(before: map<Value, seq<DocReq>>, es: seq<DocEntry>, e: DocEntry)
    requires EntriesIndexOf(before, es)
    ensures EntriesIndexOf(AddDoc(before, e), es + [e])
  {
    var after := AddDoc(before, e);
    forall q
      ensures Lookup(after, q) == EntriesFor(es + [e], q)
      ensures q in after <==> EntriesFor(es + [e], q) != []
    {
      MapFilterSnoc(es, e, KeptFor(q), EntryDoc);
      if e.doc.name != "" && e.policy == q {
        assert KeptFor(q)(e);
        assert Lookup(after, q) == Lookup(before, q) + [e.doc];
      } else {
        assert !KeptFor(q)(e);
        assert Lookup(after, q) == Lookup(before, q);
      }
    }
  }

  /**
   * A document is listed under a policy exactly when some row of that policy
   * gives it with a non-blank name.
   */
  lemma DocsForMember(rows: seq<DocRow>, pid: Value, d: DocReq)
    ensures d in DocsFor(rows, pid) <==>
      d.name != "" && exists r :: r in rows && r.policy == pid && ToDocReq(r) == d
  {
    EntriesForMember(Map(rows, ToEntry), pid, d);
    MapMember(rows, ToEntry, DocEntry(pid, d));
  }

  lemma EntriesForMember(es: seq<DocEntry>, pid: Value, d: DocReq)
    ensures d in EntriesFor(es, pid) <==> d.name != "" && DocEntry(pid, d) in es
  {
    var kept := Filter(es, KeptFor(pid));
    MapMember(kept, EntryDoc, d);
    FilterMember(es, KeptFor(pid), DocEntry(pid, d));
    if d in EntriesFor(es, pid) {
      var e :| e in kept && EntryDoc(e) == d;
      FilterMember(es, KeptFor(pid), e);
      assert e == DocEntry(pid, d);
    }
  }

  // ---------------------------------------------------------------------
  // Evaluating every policy
  // ---------------------------------------------------------------------

  /** A row of the policies sheet: its id and name cells. */
  datatype PolicyRow = PolicyRow(id: Value, name: Value)

  /** `PolicyMatch` without the display-only fields (description, info rows, contacts). */
  datatype PolicyMatch = PolicyMatch(
    policyId: Value, policyName: string, eligible: bool, nearMiss: bool,
    missing: seq<string>, details: seq<string>, scorePassed: nat, scoreTotal: nat)

  /** `str(row.get("policy_name") or str(pid))` */
  function PolicyName(row: PolicyRow): string
  {
    Str(Or(row.name, VStr(Str(row.id))))
  }

  /** The `mand_missing` test: a document item, `or True`. */
  predicate CountsAsMandatory(m: string)
  {
    StartsWith(Lower(m), "documento obrigatório") || true
  }

  /** The match the page builds for one policy from its tally. */
  function AutoMatch(row: PolicyRow, t: Tally): PolicyMatch
  {
    var eligible := !t.hardFail;
    var mandMissing := Filter(t.missing, CountsAsMandatory);
    var nearMiss := !eligible && 0 < |mandMissing| <= 2;
    PolicyMatch(row.id, PolicyName(row), eligible, nearMiss && !eligible, t.missing, t.details,
                t.passed, if t.total < 1 then 1 else t.total)
  }

  /** The match for `row`: its requirement rows, then its documents. */
  function MatchFor(row: PolicyRow, reqs: map<Value, seq<ReqRow>>, docsBy: map<Value, seq<DocReq>>,
                    p: Profile, held: map<string, bool>, ev: Evaluator): PolicyMatch
  {
    AutoMatch(row, Evaluation(Lookup(reqs, row.id), Lookup(docsBy, row.id), p, held, ev))
  }

  /**
   * The automatic page decides exactly as the manual page's evaluator: because
   * of `or True` every missing item counts toward "quase lá".
   */
  lemma AutoMatchIsVerdict(row: PolicyRow, t: Tally)
    ensures var m := AutoMatch(row, t);
      var v := Verdict(t);
      && m.eligible == v.eligible && m.nearMiss == v.nearMiss
      && m.missing == v.missing && m.details == v.details
      && m.scorePassed == v.scorePassed && m.scoreTotal == v.scoreTotal
  {
    FilterAll(t.missing, CountsAsMandatory);
  }

  /** The body of the policy loop of `evaluate_policies`, for one policy row. */
  method EvaluateOne(row: PolicyRow, reqs: map<Value, seq<ReqRow>>, docsBy: map<Value, seq<DocReq>>,
                     p: Profile, held: map<string, bool>, ev: Evaluator) returns (m: PolicyMatch)
    ensures m == MatchFor(row, reqs, docsBy, p, held, ev)
  {
    var t := TallyPolicy(Lookup(reqs, row.id), Lookup(docsBy, row.id), p, held, ev);
    m := MatchOf(row, t);
  }

  /** The match the loop body appends once the tally of the policy is known. */
  method MatchOf(row: PolicyRow, t: Tally) returns (m: PolicyMatch)
    ensures m == AutoMatch(row, t)
  {
    var eligible := !t.hardFail;
    var nearMiss := false;
    if !eligible {
      var mandMissing := Filter(t.missing, CountsAsMandatory);
      if 0 < |mandMissing| <= 2 {
        nearMiss := true;
      }
    }
    m := PolicyMatch(row.id, PolicyName(row), eligible, nearMiss && !eligible, t.missing, t.details,
                     t.passed, if t.total < 1 then 1 else t.total);
  }

  /**
   * `evaluate_policies(profile)`: one match per policy row, in sheet order.
   * Nothing when `profile["docs"]` is truthy but not a dict (`.items()` raises).
   */
  method EvaluatePolicies(policies: seq<PolicyRow>, reqs: map<Value, seq<ReqRow>>,
                          docsBy: map<Value, seq<DocReq>>, p: Profile, ev: Evaluator)
    returns (r: Option<seq<PolicyMatch>>)
    ensures ProfileDocs(p).None? <==> r.None?
    ensures r.Some? ==> |r.value| == |policies|
    ensures r.Some? ==> forall i :: 0 <= i < |policies| ==>
      r.value[i] == MatchFor(policies[i], reqs, docsBy, p, ProfileDocs(p).value, ev)
  {
    var docsOpt := ProfileDocs(p);
    if docsOpt.None? {
      return None;
    }
    var held := docsOpt.value;
    var results: seq<PolicyMatch> := [];
    for i := 0 to |policies|
      invariant |results| == i
      invariant forall k :: 0 <= k < i ==> results[k] == MatchFor(policies[k], reqs, docsBy, p, held, ev)
    {
      var m := EvaluateOne(policies[i], reqs, docsBy, p, held, ev);
      results := results + [m];
    }
    return Some(results);
  }

  /** Every match of the page keeps the engine's invariants. */
  lemma MatchInvariants(row: PolicyRow, reqs: map<Value, seq<ReqRow>>, docsBy: map<Value, seq<DocReq>>,
                        p: Profile, held: map<string, bool>, ev: Evaluator)
    ensures var m := MatchFor(row, reqs, docsBy, p, held, ev);
      && (m.eligible <==> |m.missing| == 0)
      && (m.nearMiss <==> !m.eligible && |m.missing| <= 2)
      && (m.nearMiss ==> 1 <= |m.missing|)
      && 1 <= m.scoreTotal && m.scorePassed <= m.scoreTotal
      && m.policyId == row.id
  {
    var rows := Lookup(reqs, row.id);
    var docs := Lookup(docsBy, row.id);
    AutoMatchIsVerdict(row, Evaluation(rows, docs, p, held, ev));
    NearMissIff(rows, docs, p, held, ev);
    EligibleIffNoMissing(rows, docs, p, held, ev);
    ScoreBounds(rows, docs, p, held, ev);
  }

  // ---------------------------------------------------------------------
  // Filtering and ranking
  // ---------------------------------------------------------------------

  /** The three checkboxes: show eligible, show "quase lá", show not eligible. */
  datatype ShowFlags = ShowFlags(eligible: bool, nearMiss: bool, notEligible: bool)

  /** A match survives the three `continue` tests of the filter loop. */
  predicate Shown(f: ShowFlags, m: PolicyMatch)
  {
    !(m.eligible && !f.eligible)
    && !((!m.eligible && m.nearMiss) && !f.nearMiss)
    && !((!m.eligible && !m.nearMiss) && !f.notEligible)
  }

  function ShownBy(f: ShowFlags): PolicyMatch -> bool
  {
    (m: PolicyMatch) => Shown(f, m)
  }

  /** Each match is shown exactly when the checkbox of its own state is ticked. */
  lemma ShownByState(f: ShowFlags, m: PolicyMatch)
    ensures Shown(f, m) <==> if m.eligible then f.eligible else if m.nearMiss then f.nearMiss else f.notEligible
  {
  }

  /** The filter loop of the page. */
  method FilterShown(matches: seq<PolicyMatch>, f: ShowFlags) returns (filtered: seq<PolicyMatch>)
    ensures filtered == Filter(matches, ShownBy(f))
  {
    filtered := [];
    for i := 0 to |matches|
      invariant filtered == Filter(matches[..i], ShownBy(f))
    {
      var m := matches[i];
      PrefixStep(matches, i);
      FilterSnoc(matches[..i], m, ShownBy(f));
      if m.eligible && !f.eligible {
        continue;
      }
      if (!m.eligible && m.nearMiss) && !f.nearMiss {
        continue;
      }
      if (!m.eligible && !m.nearMiss) && !f.notEligible {
        continue;
      }
      filtered := filtered + [m];
    }
    assert matches[..|matches|] == matches;
  }

  /** `state_rank`: eligible 0, "quase lá" 1, not eligible 2. */
  function StateRank(m: PolicyMatch): nat
  {
    if m.eligible then 0 else if m.nearMiss then 1 else 2
  }

  /** `score_passed / max(1, score_total)`, as an exact ratio. */
  function Score(m: PolicyMatch): real
  {
    m.scorePassed as real / (if m.scoreTotal < 1 then 1 else m.scoreTotal) as real
  }

  /**
   * `status_key(a) <= status_key(b)` for the key `(state_rank, -score, name.lower())`:
   * lower rank first, then higher score, then the lower-cased name.
   */
  predicate StatusLe(a: PolicyMatch, b: PolicyMatch)
  {
    StateRank(a) < StateRank(b)
    || (StateRank(a) == StateRank(b)
        && (Score(a) > Score(b) || (Score(a) == Score(b) && StrLe(Lower(a.policyName), Lower(b.policyName)))))
  }

  /** The key order is total and transitive, so sorting by it is well defined. */
  lemma StatusOrder()
    ensures TotalPreorder(StatusLe)
  {
    forall a: PolicyMatch, b: PolicyMatch ensures StatusLe(a, b) || StatusLe(b, a) {
      StrLeTotal(Lower(a.policyName), Lower(b.policyName));
    }
    forall a: PolicyMatch, b: PolicyMatch, c: PolicyMatch | StatusLe(a, b) && StatusLe(b, c)
      ensures StatusLe(a, c)
    {
      if StateRank(a) == StateRank(c) && Score(a) == Score(c) {
        StrLeTrans(Lower(a.policyName), Lower(b.policyName), Lower(c.policyName));
      }
    }
  }

  /** `matches_sorted = sorted(filtered, key=status_key)` (a stable sort). */
  function Displayed(matches: seq<PolicyMatch>, f: ShowFlags): seq<PolicyMatch>
  {
    SortBy(Filter(matches, ShownBy(f)), StatusLe)
  }

  /** Matches with the same sort key as `k`. */
  function SameKey(k: PolicyMatch): PolicyMatch -> bool
  {
    (m: PolicyMatch) => Equiv(StatusLe, m, k)
  }

  /**
   * The page lists exactly the shown matches, ordered by state, then score
   * (descending), then name; matches with equal keys keep their sheet order.
   */
  lemma DisplayedOrder(matches: seq<PolicyMatch>, f: ShowFlags)
    ensures var d := Displayed(matches, f);
      && multiset(d) == multiset(Filter(matches, ShownBy(f)))
      && (forall m :: m in d <==> m in matches && Shown(f, m))
      && (forall i, j :: 0 <= i < j < |d| ==> StatusLe(d[i], d[j]))
      && (forall i, j :: 0 <= i < j < |d| ==> StateRank(d[i]) <= StateRank(d[j]))
  {
    var s := Filter(matches, ShownBy(f));
    var d := SortBy(s, StatusLe);
    SortByPerm(s, StatusLe);
    StatusOrder();
    SortBySorted(s, StatusLe);
    forall m ensures m in d <==> m in matches && Shown(f, m) {
      FilterMember(matches, ShownBy(f), m);
      assert m in d <==> m in multiset(d);
      assert m in s <==> m in multiset(s);
    }
  }

  /** Stability: among matches with the same key, the page keeps the sheet order. */
  lemma DisplayedStable(matches: seq<PolicyMatch>, f: ShowFlags, k: PolicyMatch)
    ensures Filter(Displayed(matches, f), SameKey(k)) == Filter(Filter(matches, ShownBy(f)), SameKey(k))
  {
    StatusOrder();
    SortByStable(Filter(matches, ShownBy(f)), StatusLe, k, SameKey(k));
  }
}
