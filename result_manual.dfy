/**
 * The manual result page: the evaluation of one chosen policy, the index of
 * per-requirement contacts, and the lookup of the contacts for a missing item.
 */
module ResultManual {
  import opened PyStr
  import opened PyValue
  import opened Eligibility
  import opened Seqs
  import ResultAuto

  // ---------------------------------------------------------------------
  // Evaluating one policy
  // ---------------------------------------------------------------------

  /**
   * `evaluate_policy_for_profile(policy_id, profile)`. Nothing when
   * `profile["docs"]` is truthy but not a dict (`.items()` raises).
   */
  method EvaluatePolicyForProfile(pid: Value, reqs: map<Value, seq<ReqRow>>, docsBy: map<Value, seq<DocReq>>,
                                  p: Profile, ev: Evaluator) returns (r: Option<EvalResult>)
    ensures ProfileDocs(p).None? <==> r.None?
    ensures r.Some? ==>
      r.value == Verdict(Evaluation(Lookup(reqs, pid), Lookup(docsBy, pid), p, ProfileDocs(p).value, ev))
  {
    var docsOpt := ProfileDocs(p);
    if docsOpt.None? {
      return None;
    }
    var held := docsOpt.value;
    // `if policy_id in reqs_by_policy` only skips a loop over no rows.
    var rows := Lookup(reqs, pid);
    var docs := Lookup(docsBy, pid);
    var t := TallyPolicy(rows, docs, p, held, ev);
    var eligible := !t.hardFail;
    var nearMiss := false;
    if !eligible {
      if 0 < |t.missing| <= 2 {
        nearMiss := true;
      }
    }
    r := Some(EvalResult(eligible, nearMiss && !eligible, t.missing, t.details, t.passed,
                         if t.total < 1 then 1 else t.total));
  }

  /**
   * For the same requirement rows, documents and profile, the automatic page's
   * match and the manual page's result agree on every field they share.
   */
  lemma PagesAgree(row: ResultAuto.PolicyRow, reqs: map<Value, seq<ReqRow>>, docsBy: map<Value, seq<DocReq>>,
                   p: Profile, held: map<string, bool>, ev: Evaluator)
    ensures var m := ResultAuto.MatchFor(row, reqs, docsBy, p, held, ev);
      var v := Verdict(Evaluation(Lookup(reqs, row.id), Lookup(docsBy, row.id), p, held, ev));
      && m.eligible == v.eligible && m.nearMiss == v.nearMiss
      && m.missing == v.missing && m.details == v.details
      && m.scorePassed == v.scorePassed && m.scoreTotal == v.scoreTotal
  {
    ResultAuto.AutoMatchIsVerdict(row, Evaluation(Lookup(reqs, row.id), Lookup(docsBy, row.id), p, held, ev));
  }

  // ---------------------------------------------------------------------
  // The contacts index
  // ---------------------------------------------------------------------

  /** The contact fields copied from a row of the requirement-contacts sheet. */
  datatype Contact = Contact(orgName: Value, phone: Value, email: Value, url: Value, notes: Value)

  /** A row of that sheet: policy, requirement key, contact. */
  datatype ContactRow = ContactRow(policy: Value, key: Value, contact: Contact)

  /** `_norm_key(x)`: `str(x or "").strip().lower()` */
  function NormKey(x: Value): string
  {
    NormText(Str(Or(x, VStr(""))))
  }

  function NormText(s: string): string
  {
    Lower(Strip(s))
  }

  /** `(policy_id, normalised key)` to contacts. */
  type ContactsIndex = map<(Value, string), seq<Contact>>

  /** What the loader takes from one row: its `(pid, rk)` key and its contact. */
  datatype ContactEntry = ContactEntry(key: (Value, string), contact: Contact)

  function ToContactEntry(r: ContactRow): ContactEntry
  {
    ContactEntry((r.policy, NormKey(r.key)), r.contact)
  }

  function EntryContact(e: ContactEntry): Contact
  {
    e.contact
  }

  /** The entries indexed under `k`: truthy policy, non-empty key, both equal to `k`. */
  function FiledUnder(k: (Value, string)): ContactEntry -> bool
  {
    (e: ContactEntry) => Truthy(e.key.0) && e.key.1 != "" && e.key == k
  }

  /** The contacts filed under `k` among `es`, in sheet order. */
  function ContactsAt(es: seq<ContactEntry>, k: (Value, string)): seq<Contact>
  {
    Map(Filter(es, FiledUnder(k)), EntryContact)
  }

  /** The contacts the sheet files under `(pid, key)`, in sheet order. */
  function ContactsFor(rows: seq<ContactRow>, pid: Value, key: string): seq<Contact>
  {
    ContactsAt(Map(rows, ToContactEntry), (pid, key))
  }

  /** `index` holds, under every key, exactly the contacts filed there among `es`. */
  ghost predicate EntriesIndexOf(index: ContactsIndex, es: seq<ContactEntry>)
  {
    && (forall k :: Lookup(index, k) == ContactsAt(es, k))
    && (forall k :: k in index <==> ContactsAt(es, k) != [])
  }

  /** `index` holds, under every key, exactly the contacts the sheet files there. */
  ghost predicate ContactsIndexOf(index: ContactsIndex, rows: seq<ContactRow>)
  {
    EntriesIndexOf(index, Map(rows, ToContactEntry))
  }

  /** The loader's `req_contacts_index.setdefault((pid, rk), []).append(...)` loop. */
  method BuildContactsIndex(rows: seq<ContactRow>) returns (index: ContactsIndex)
    ensures ContactsIndexOf(index, rows)
  {
    index := map[];
    ghost var es: seq<ContactEntry> := [];
    for i := 0 to |rows|
      invariant es == Map(rows[..i], ToContactEntry)
      invariant EntriesIndexOf(index, es)
    {
      var r := rows[i];
      var pid := r.policy;
      var rk := NormKey(r.key);
      AddContactEntry(index, es, ToContactEntry(r));
      if Truthy(pid) && rk != "" {
        index := index[(pid, rk) := Lookup(index, (pid, rk)) + [r.contact]];
      }
      PrefixStep(rows, i);
      MapSnoc(rows[..i], r, ToContactEntry);
      es := es + [ToContactEntry(r)];
    }
    assert rows[..|rows|] == rows;
  }

  /** The index after the loader has taken entry `e`. */
  function AddContact(index: ContactsIndex, e: ContactEntry): ContactsIndex
  {
    if Truthy(e.key.0) && e.key.1 != "" then index[e.key := Lookup(index, e.key) + [e.contact]] else index
  }

  /** One more entry keeps the index exact. */
  lemma AddContactEntry(before: ContactsIndex, es: seq<ContactEntry>, e: ContactEntry)
    requires EntriesIndexOf(before, es)
    ensures EntriesIndexOf(AddContact(before, e), es + [e])
  {
    var after := AddContact(before, e);
    forall k
      ensures Lookup(after, k) == ContactsAt(es + [e], k)
      ensures k in after <==> ContactsAt(es + [e], k) != []
    {
      MapFilterSnoc(es, e, FiledUnder(k), EntryContact);
      if Truthy(e.key.0) && e.key.1 != "" && e.key == k {
        assert FiledUnder(k)(e);
        assert Lookup(after, k) == Lookup(before, k) + [e.contact];
      } else {
        assert !FiledUnder(k)(e);
        assert Lookup(after, k) == Lookup(before, k);
      }
    }
  }

  /** Only rows with a truthy policy and a non-empty key reach the index. */
  lemma IndexKeysFiled(index: ContactsIndex, rows: seq<ContactRow>, k: (Value, string))
    requires ContactsIndexOf(index, rows)
    requires k in index
    ensures Truthy(k.0) && k.1 != ""
    ensures exists r :: r in rows && r.policy == k.0 && NormKey(r.key) == k.1
  {
    var es := Map(rows, ToContactEntry);
    var kept := Filter(es, FiledUnder(k));
    assert |kept| > 0;
    FilterMember(es, FiledUnder(k), kept[0]);
    MapMember(rows, ToContactEntry, kept[0]);
    var r :| r in rows && ToContactEntry(r) == kept[0];
    assert r.policy == k.0 && NormKey(r.key) == k.1;
  }

  // ---------------------------------------------------------------------
  // Contacts for a missing item
  // ---------------------------------------------------------------------

  /** The operator texts `find_contacts_for_missing` looks for, in its order. */
  const ContactOps: seq<string> :=
    [" not contains ", " contains ", " not in ", " in ", ">=", "<=", ">", "<", "!=", "==", "=", " regex ", " match "]

  /** The first operator of `ops` that occurs in `text`. */
  function FirstOp(ops: seq<string>, text: string): (r: Option<string>)
    ensures r.Some? ==> r.value in ops && Contains(text, r.value)
    decreases |ops|
  {
    if |ops| == 0 then None
    else if Contains(text, ops[0]) then Some(ops[0])
    else FirstOp(ops[1..], text)
  }

  /** The operator found is the earliest listed one that occurs; none is found when none occurs. */
  lemma {:induction false} FirstOpAt(ops: seq<string>, text: string, k: nat)
    requires k <= |ops|
    requires forall j :: 0 <= j < k ==> !Contains(text, ops[j])
    ensures k < |ops| && Contains(text, ops[k]) ==> FirstOp(ops, text) == Some(ops[k])
    ensures k == |ops| ==> FirstOp(ops, text) == None
    decreases k
  {
    if k > 0 {
      FirstOpAt(ops[1..], text, k - 1);
    }
  }

  /** An operator that does not occur can be dropped from the list. */
  lemma {:induction false} FirstOpSkip(xs: seq<string>, o: string, ys: seq<string>, text: string)
    requires !Contains(text, o)
    ensures FirstOp(xs + [o] + ys, text) == FirstOp(xs + ys, text)
    decreases |xs|
  {
    if |xs| == 0 {
      assert xs + [o] + ys == [o] + ys && xs + ys == ys;
      assert ([o] + ys)[0] == o && ([o] + ys)[1..] == ys;
    } else {
      assert (xs + [o] + ys)[1..] == xs[1..] + [o] + ys;
      assert (xs + ys)[1..] == xs[1..] + ys;
      FirstOpSkip(xs[1..], o, ys, text);
    }
  }

  /** The prefix every document item starts with, once lower-cased. */
  const DocPrefix: string := "documento obrigatório"

  /**
   * The key `find_contacts_for_missing` looks up, for an operator list `ops`:
   * the document name after the first ':' for a document item, otherwise the
   * text before the first listed operator that occurs, otherwise the whole item.
   */
  function ContactKey(ops: seq<string>, item: string): string
  {
    var low := Lower(item);
    if StartsWith(low, DocPrefix) then NormText(Strip(AfterFirst(item, ":")))
    else match FirstOp(ops, low)
      case Some(op) => NormText(Strip(BeforeFirst(low, op)))
      case None => NormText(item)
  }

  /** `find_contacts_for_missing(pid, missing_item)` as written. */
  function FindContacts(index: ContactsIndex, pid: Value, item: string): seq<Contact>
  {
    Lookup(index, (pid, ContactKey(ContactOps, item)))
  }

  /**
   * The lookup returns exactly the contacts filed under the recovered key, in
   * sheet order; an unmapped pair gives the empty list.
   */
  lemma FindContactsFiled(index: ContactsIndex, rows: seq<ContactRow>, pid: Value, item: string)
    requires ContactsIndexOf(index, rows)
    ensures FindContacts(index, pid, item) == ContactsFor(rows, pid, ContactKey(ContactOps, item))
    ensures (pid, ContactKey(ContactOps, item)) !in index ==> FindContacts(index, pid, item) == []
  {
  }

  /** `NormKey` of a string is its stripped, lower-cased text. */
  lemma NormKeyOfText(s: string)
    ensures NormKey(VStr(s)) == NormText(s)
  {
    if s == "" {
      assert Or(VStr(s), VStr("")) == VStr("");
    } else {
      assert Or(VStr(s), VStr("")) == VStr(s);
    }
  }

  /**
   * A document's missing item leads back to the document's own name, normalised
   * as the contacts index normalises its keys.
   */
  lemma DocItemKey(ops: seq<string>, d: DocReq)
    ensures ContactKey(ops, DocMissing(d)) == NormKey(VStr(d.name))
  {
    var item := DocMissing(d);
    DocItemStarts(d.name);
    DocItemColon(d.name);
    assert ContactKey(ops, item) == NormText(Strip(" " + d.name));
    StripLeadingSpace(d.name);
    StripIdempotent(d.name);
    NormKeyOfText(d.name);
  }

  lemma DocItemStarts(name: string)
    ensures StartsWith(Lower("Documento obrigatório: " + name), DocPrefix)
  {
    var w := "Documento obrigatório";
    assert "Documento obrigatório: " == w + ": ";
    assert "Documento obrigatório: " + name == w + (": " + name);
    LowerConcat(w, ": " + name);
    LowerDocWord();
    PrefixOf(DocPrefix, Lower(": " + name));
  }

  lemma LowerDocWord()
    ensures Lower("Documento obrigatório") == DocPrefix
  {
  }

  lemma PrefixOf(a: string, b: string)
    ensures StartsWith(a + b, a)
  {
    assert (a + b)[..|a|] == a;
  }

  lemma DocItemColon(name: string)
    ensures AfterFirst("Documento obrigatório: " + name, ":") == " " + name
  {
    var head := "Documento obrigatório: ";
    var item := head + name;
    forall j | 0 <= j < 21 ensures !StartsAt(item, j, ":") {
      assert item[j..j + 1][0] == item[j] == head[j] != ':';
    }
    assert item[21..22] == ":";
    FindAt(item, ":", 21);
    assert item[22..] == " " + name;
  }

  // ---------------------------------------------------------------------
  // The "<>" operator
  // ---------------------------------------------------------------------

  /** The list with `"<>"` placed ahead of `">="`, `">"` and `"<"`. */
  const FixedOps: seq<string> :=
    [" not contains ", " contains ", " not in ", " in ", "<>", ">=", "<=", ">", "<", "!=", "==", "=", " regex ", " match "]

  /** `find_contacts_for_missing` with `"<>"` recognised as one operator. */
  function FindContactsFixed(index: ContactsIndex, pid: Value, item: string): seq<Contact>
  {
    Lookup(index, (pid, ContactKey(FixedOps, item)))
  }

  /** No angle bracket occurs in `s`. */
  predicate NoBrackets(s: string)
  {
    forall c :: c in s ==> c != '<' && c != '>'
  }

  /**
   * The shape of the missing item of an attribute row with operator `"<>"`
   * whose attribute has no angle brackets and whose text carries none of the
   * operators listed ahead of `">"`.
   */
  ghost predicate NotEqualItem(a: string, v: string)
  {
    var low := Lower(a + " <> " + v);
    && |a| > 0 && IsStripped(a) && NoBrackets(a)
    && !StartsWith(low, DocPrefix)
    && (forall j :: 0 <= j < 6 ==> !Contains(low, ContactOps[j]))
  }

  lemma LowerNoBrackets(a: string)
    requires NoBrackets(a)
    ensures NoBrackets(Lower(a))
  {
    forall i | 0 <= i < |a| ensures Lower(a)[i] != '<' && Lower(a)[i] != '>' {
      assert a[i] in a;
    }
  }

  lemma LowerNotEqualItem(a: string, v: string)
    ensures Lower(a + " <> " + v) == Lower(a) + " <> " + Lower(v)
  {
    LowerConcat(a + " <> ", v);
    LowerConcat(a, " <> ");
    assert Lower(" <> ") == " <> ";
  }

  /** Where the angle brackets of such an item are. */
  lemma NotEqualFinds(la: string, lv: string)
    requires NoBrackets(la)
    ensures var t := la + " <> " + lv;
      && Find(t, "<>") == Some(|la| + 1) && Find(t, ">") == Some(|la| + 2)
      && t[..|la| + 1] == la + " " && t[..|la| + 2] == la + " <"
  {
    var t := la + " <> " + lv;
    forall j | 0 <= j < |la| ensures t[j] != '<' && t[j] != '>' {
      assert t[j] == la[j] && la[j] in la;
    }
    assert t[|la|] == ' ' && t[|la| + 1] == '<' && t[|la| + 2] == '>';
    forall j | 0 <= j < |la| + 1 ensures !StartsAt(t, j, "<>") {
      assert t[j..j + 2][0] == t[j];
    }
    forall j | 0 <= j < |la| + 2 ensures !StartsAt(t, j, ">") {
      assert t[j..j + 1][0] == t[j];
    }
    assert t[|la| + 1..|la| + 3] == "<>";
    assert t[|la| + 2..|la| + 3] == ">";
    FindAt(t, "<>", |la| + 1);
    FindAt(t, ">", |la| + 2);
    assert t[..|la| + 1] == la + " ";
    assert t[..|la| + 2] == la + " <";
  }

  /** As written, `">"` is found first, so `"renda <> 5"` is looked up under `"renda <"`. */
  lemma NotEqualKeyAsWritten(a: string, v: string)
    requires NotEqualItem(a, v)
    ensures ContactKey(ContactOps, a + " <> " + v) == Lower(a) + " <"
  {
    var la := Lower(a);
    var item := a + " <> " + v;
    var low := Lower(item);
    assert low == la + " <> " + Lower(v) && BeforeFirst(low, ">") == la + " <" by {
      LowerNotEqualItem(a, v);
      LowerNoBrackets(a);
      NotEqualFinds(la, Lower(v));
    }
    assert FirstOp(ContactOps, low) == Some(">") by {
      assert StartsAt(low, |la| + 2, ">") by {
        LowerNoBrackets(a);
        NotEqualFinds(la, Lower(v));
      }
      FirstOpAt(ContactOps, low, 6);
    }
    KeyFromOp(ContactOps, item, ">");
    assert NormText(Strip(la + " <")) == la + " <" by {
      StrippedWithTail(la, " <", a);
      StripIdempotent(la + " <");
      LowerIdempotent(a);
      LowerBracketTail(la);
    }
  }

  lemma LowerBracketTail(la: string)
    requires Lower(la) == la
    ensures Lower(la + " <") == la + " <"
  {
    LowerConcat(la, " <");
    assert Lower(" <") == " <";
  }

  /** So the contacts filed under the attribute are not found. */
  lemma NotEqualMissesContacts(a: string, v: string)
    requires NotEqualItem(a, v)
    ensures ContactKey(ContactOps, a + " <> " + v) != NormKey(VStr(a))
  {
    NotEqualKeyAsWritten(a, v);
    NormKeyOfText(a);
    StripOfStripped(a);
    assert |NormKey(VStr(a))| == |a|;
  }

  /** With `"<>"` listed ahead, the key is the attribute the contacts are filed under. */
  lemma NotEqualKeyFixed(a: string, v: string)
    requires NotEqualItem(a, v)
    ensures ContactKey(FixedOps, a + " <> " + v) == NormKey(VStr(a))
  {
    var la := Lower(a);
    var low := Lower(a + " <> " + v);
    LowerNotEqualItem(a, v);
    LowerNoBrackets(a);
    NotEqualFinds(la, Lower(v));
    assert StartsAt(low, |la| + 1, FixedOps[4]);
    assert forall j :: 0 <= j < 4 ==> FixedOps[j] == ContactOps[j];
    FirstOpAt(FixedOps, low, 4);
    KeyFromOp(FixedOps, a + " <> " + v, "<>");
    assert BeforeFirst(low, "<>") == la + " ";
    StrippedWithTail(la, " ", a);
    LowerIdempotent(a);
    NormKeyOfText(a);
    StripOfStripped(a);
  }

  /** An attribute item is keyed by the text before its first listed operator. */
  lemma KeyFromOp(ops: seq<string>, item: string, op: string)
    requires !StartsWith(Lower(item), DocPrefix) && FirstOp(ops, Lower(item)) == Some(op)
    ensures ContactKey(ops, item) == NormText(Strip(BeforeFirst(Lower(item), op)))
  {
  }

  /** `a + tail` strips to `a`, or keeps the bracket, for a stripped, non-empty `a`. */
  lemma StrippedWithTail(la: string, tail: string, a: string)
    requires la == Lower(a) && |a| > 0 && IsStripped(a)
    requires tail == " <" || tail == " "
    ensures Strip(la + tail) == (if tail == " " then la else la + tail)
  {
    LowerStripped(a);
    if tail == " " {
      assert RStrip(la + " ") == RStrip(la) by { assert (la + " ")[..|la|] == la; }
      StripOfStripped(la);
    } else {
      StripOfStripped(la + tail);
    }
  }

  /** The corrected list changes nothing for items without `"<>"`. */
  lemma FixedAgrees(item: string)
    requires !Contains(Lower(item), "<>")
    ensures ContactKey(FixedOps, item) == ContactKey(ContactOps, item)
  {
    assert FixedOps == ContactOps[..4] + ["<>"] + ContactOps[4..];
    assert ContactOps == ContactOps[..4] + ContactOps[4..];
    FirstOpSkip(ContactOps[..4], "<>", ContactOps[4..], Lower(item));
  }
}
