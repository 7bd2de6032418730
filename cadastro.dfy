/**
 * The profile helpers of the registration page: the state code picked from
 * a select label, the session's profile slot filled with defaults, the
 * code and timestamp stamping done before a profile is saved, the generated
 * profile code, and the export copy that lists the documents present. The
 * clock, the random hex and the repository's answer are parameters; the
 * file writes are not part of this model.
 */
module Cadastro {
  import opened PyStr
  import opened PyValue
  import opened Seqs
  import opened Frames

  /** A profile dictionary. */
  type Profile = map<string, Value>

  // ---------------------------------------------------------------------
  // State code from a select label
  // ---------------------------------------------------------------------

  const Dash: char := '—'

  /** The select's label for a state: `f"{uf} — {nome_uf}"`. */
  function UfLabel(uf: string, name: string): string
  {
    uf + " " + [Dash] + " " + name
  }

  /** No character of `s` is the dash. */
  predicate DashFree(s: string)
  {
    forall j :: 0 <= j < |s| ==> s[j] != Dash
  }

  /**
   * `_extract_uf_code(label)`: the stripped text before the first dash when
   * there is one, otherwise the stripped label.
   */
  function ExtractUfCode(lbl: string): (r: string)
    ensures IsStripped(r)
  {
    var k := Find(lbl, [Dash]);
    if k.Some? then Strip(lbl[..k.value]) else Strip(lbl)
  }

  /**
   * The code never holds the dash: it is the stripped text before the first
   * dash, or the whole stripped label when there is none.
   */
  lemma ExtractUfCodeSpec(lbl: string)
    ensures DashFree(ExtractUfCode(lbl))
    ensures DashFree(lbl) ==> ExtractUfCode(lbl) == Strip(lbl)
    ensures !DashFree(lbl) ==>
      exists k :: 0 <= k < |lbl| && lbl[k] == Dash && DashFree(lbl[..k]) && ExtractUfCode(lbl) == Strip(lbl[..k])
  {
    var k := Find(lbl, [Dash]);
    if k.Some? {
      var head := lbl[..k.value];
      assert StartsAt(lbl, k.value, [Dash]);
      assert DashFree(head) by {
        forall j | 0 <= j < |head| ensures head[j] != Dash {
          assert !StartsAt(lbl, j, [Dash]);
        }
      }
      StripKeepsDashFree(head);
      assert lbl[k.value..k.value + 1] == [Dash];
      assert lbl[k.value] == Dash;
    } else {
      assert DashFree(lbl) by {
        forall j | 0 <= j < |lbl| ensures lbl[j] != Dash {
          assert !StartsAt(lbl, j, [Dash]);
        }
      }
      StripKeepsDashFree(lbl);
    }
  }

  lemma StripKeepsDashFree(s: string)
    requires DashFree(s)
    ensures DashFree(Strip(s))
  {
    var r := Strip(s);
    var i :| 0 <= i <= |s| && StartsAt(s, i, r);
    assert forall j :: 0 <= j < |r| ==> r[j] == s[i + j];
  }

  /** A blank after a stripped text is stripped away again. */
  lemma StripTrailingBlank(s: string)
    requires IsStripped(s)
    ensures Strip(s + " ") == s
  {
    var t := s + " ";
    if |s| == 0 {
      assert LStrip(t) == LStrip(t[1..]);
      assert t[1..] == "";
    } else {
      assert LStrip(t) == t;
      assert t[..|t| - 1] == s;
      assert RStrip(t) == RStrip(s);
    }
  }

  /** The code of a state's label is the state code itself. */
  lemma ExtractOfLabel(uf: string, name: string)
    requires IsStripped(uf) && DashFree(uf)
    ensures ExtractUfCode(UfLabel(uf, name)) == uf
  {
    var lbl := UfLabel(uf, name);
    var k := |uf| + 1;
    assert lbl[k] == Dash;
    assert lbl[..k] == uf + " ";
    assert DashFree(lbl[..k]) by {
      assert forall j :: 0 <= j < |uf| ==> lbl[..k][j] == uf[j];
    }
    FindAt(lbl, [Dash], k) by {
      assert StartsAt(lbl, k, [Dash]);
      forall j | 0 <= j < k ensures !StartsAt(lbl, j, [Dash]) {
        assert lbl[j] == lbl[..k][j];
      }
    }
    StripTrailingBlank(uf);
  }

  // ---------------------------------------------------------------------
  // Documents present, for export
  // ---------------------------------------------------------------------

  /** Python's `<=` on strings, as a sort order. */
  function ByName(): (string, string) -> bool
  {
    (a: string, b: string) => StrLe(a, b)
  }

  lemma ByNameTotal()
    ensures TotalPreorder(ByName())
  {
    forall a, b ensures ByName()(a, b) || ByName()(b, a) {
      StrLeTotal(a, b);
    }
    forall a, b, c | ByName()(a, b) && ByName()(b, c) ensures ByName()(a, c) {
      StrLeTrans(a, b, c);
    }
  }

  /** An entry whose value is truthy. */
  predicate Present(e: (string, Value))
  {
    Truthy(e.1)
  }

  function EntryName(e: (string, Value)): string
  {
    e.0
  }

  /** `[k for k, v in docs.items() if v]` */
  function PresentNames(docs: seq<(string, Value)>): seq<string>
  {
    Map(Filter(docs, Present), EntryName)
  }

  const DocsKey := "docs"
  const DocsPresentKey := "docs_presentes"

  /** `p.get("docs", {})` as its entries, or nothing when it is not a dictionary. */
  function DocsOf(p: Profile): Option<seq<(string, Value)>>
  {
    if DocsKey !in p then Some([])
    else if p[DocsKey].VDict? then Some(p[DocsKey].entries)
    else None
  }

  /** `sorted(...)` as a list value. */
  function NameList(names: seq<string>): (v: Value)
    ensures v.VList? && |v.items| == |names|
    ensures forall i :: 0 <= i < |names| ==> v.items[i] == VStr(names[i])
  {
    VList(seq(|names|, i requires 0 <= i < |names| => VStr(names[i])))
  }

  /**
   * `_normalize_profile_for_io(p)`: a copy with `docs_presentes` set to the
   * sorted names of the documents with a truthy value; a `docs` that is not
   * a dictionary has no `items` and raises.
   */
  function NormalizeForIo(p: Profile): (r: Outcome<Profile>)
    ensures r.Raises? <==> DocsOf(p).None?
    ensures r.Returns? ==> r.value.Keys == p.Keys + {DocsPresentKey}
    ensures r.Returns? ==> forall k :: k in p && k != DocsPresentKey ==> r.value[k] == p[k]
  {
    var docs := DocsOf(p);
    if docs.None? then Raises("AttributeError")
    else Returns(p[DocsPresentKey := NameList(SortBy(PresentNames(docs.value), ByName()))])
  }

  /**
   * The exported list names exactly the documents marked present, as many
   * times as they are listed, in ascending order.
   */
  lemma NormalizeDocsPresent(p: Profile)
    requires DocsOf(p).Some?
    ensures var out := NormalizeForIo(p).value[DocsPresentKey];
      var names := PresentNames(DocsOf(p).value);
      out.VList? && |out.items| == |names|
      && (forall i :: 0 <= i < |out.items| ==> out.items[i].VStr?)
      && (forall i, j :: 0 <= i < j < |out.items| ==> StrLe(out.items[i].s, out.items[j].s))
      && multiset(seq(|out.items|, i requires 0 <= i < |out.items| => out.items[i].s)) == multiset(names)
  {
    var names := PresentNames(DocsOf(p).value);
    var sorted := SortBy(names, ByName());
    var out := NormalizeForIo(p).value[DocsPresentKey];
    assert out == NameList(sorted);
    ByNameTotal();
    SortBySorted(names, ByName());
    SortByPerm(names, ByName());
    assert seq(|out.items|, i requires 0 <= i < |out.items| => out.items[i].s) == sorted;
  }

  /** A document name is listed exactly when some entry with that name has a truthy value. */
  lemma PresentNamesMember(docs: seq<(string, Value)>, name: string)
    ensures name in PresentNames(docs) <==> exists v :: (name, v) in docs && Truthy(v)
  {
    var kept := Filter(docs, Present);
    MapMember(kept, EntryName, name);
    if name in PresentNames(docs) {
      var e :| e in kept && EntryName(e) == name;
      FilterMember(docs, Present, e);
    }
    if exists v :: (name, v) in docs && Truthy(v) {
      var v :| (name, v) in docs && Truthy(v);
      FilterMember(docs, Present, (name, v));
    }
  }

  // ---------------------------------------------------------------------
  // The generated profile code
  // ---------------------------------------------------------------------

  /** A UTC moment as `strftime` sees it. */
  datatype Moment = Moment(year: nat, month: nat, day: nat, hour: nat, minute: nat, second: nat)

  /** The field ranges of a real moment. */
  predicate ValidMoment(m: Moment)
  {
    1 <= m.month <= 12 && 1 <= m.day <= 31 && m.hour < 24 && m.minute < 60 && m.second < 60
  }

  /** `strftime("%y%m%d%H%M%S")` */
  function Timestamp(m: Moment): string
  {
    PadZeros(m.year % 100, 2) + PadZeros(m.month, 2) + PadZeros(m.day, 2)
    + PadZeros(m.hour, 2) + PadZeros(m.minute, 2) + PadZeros(m.second, 2)
  }

  /** `_generate_profile_code()` with the clock and `uuid4().hex` given. */
  function ProfileCode(now: Moment, hex: string): string
  {
    "PRF-" + Timestamp(now) + "-" + Upper(if |hex| <= 4 then hex else hex[..4])
  }

  predicate IsLowerHex(c: char) { IsDigit(c) || 'a' <= c <= 'f' }
  predicate IsUpperHex(c: char) { IsDigit(c) || 'A' <= c <= 'F' }

  lemma TwoDigits(n: nat)
    requires n < 100
    ensures |PadZeros(n, 2)| == 2
  {
    if n >= 10 {
      assert NatToStr(n) == NatToStr(n / 10) + [DigitChar(n % 10)];
    }
  }

  /** The timestamp is twelve digits. */
  lemma TimestampShape(now: Moment)
    requires ValidMoment(now)
    ensures |Timestamp(now)| == 12 && AllDigits(Timestamp(now))
  {
    TwoDigits(now.year % 100);
    TwoDigits(now.month);
    TwoDigits(now.day);
    TwoDigits(now.hour);
    TwoDigits(now.minute);
    TwoDigits(now.second);
  }

  /** Upper-casing lower-case hexadecimal gives upper-case hexadecimal. */
  lemma UpperHex(hex: string)
    requires forall i :: 0 <= i < |hex| ==> IsLowerHex(hex[i])
    ensures forall i :: 0 <= i < |hex| ==> IsUpperHex(Upper(hex)[i])
  {
  }

  lemma CodeShape(ts: string, rand: string)
    requires |ts| == 12 && AllDigits(ts) && |rand| == 4
    ensures var code := "PRF-" + ts + "-" + rand;
      |code| == 21 && code[..4] == "PRF-" && code[4..16] == ts && code[16] == '-' && code[17..] == rand
  {
  }

  /**
   * A generated code is `PRF-`, twelve timestamp digits, `-` and four
   * upper-case hexadecimal characters.
   */
  lemma ProfileCodeShape(now: Moment, hex: string)
    requires ValidMoment(now)
    requires |hex| >= 4 && forall i :: 0 <= i < |hex| ==> IsLowerHex(hex[i])
    ensures var code := ProfileCode(now, hex);
      |code| == 21 && code[..4] == "PRF-" && AllDigits(code[4..16]) && code[16] == '-'
      && forall i :: 17 <= i < 21 ==> IsUpperHex(code[i])
  {
    TimestampShape(now);
    var rand := Upper(hex[..4]);
    UpperHex(hex[..4]);
    CodeShape(Timestamp(now), rand);
    var code := ProfileCode(now, hex);
    assert forall i :: 17 <= i < 21 ==> code[i] == code[17..][i - 17];
  }

  // ---------------------------------------------------------------------
  // The session's profile
  // ---------------------------------------------------------------------

  /** What `st.session_state` holds under `profile`. */
  datatype Slot = Absent | NotDict(v: Value) | Dict(p: Profile)

  /** The defaults `ensure_profile_state` installs, in order. */
  const ProfileDefaults: seq<(string, Value)> := [
    ("profile_code", VStr("")), ("nome", VStr("")), ("genero", VStr("")), ("segmento", VStr("")),
    ("cpf_cnpj", VStr("")), ("uf", VStr("")), ("municipio", VStr("")), ("municipio_label", VStr("")),
    ("uf_display", VStr("")), ("atividade", VStr("")), ("experiencia_anos", VInt(0)), ("docs", VDict([]))]

  /** `P.setdefault(k, v)` */
  function SetDefault(p: Profile, k: string, v: Value): Profile
  {
    if k in p then p else p[k := v]
  }

  /** The `setdefault` calls, first to last. */
  function WithDefaults(p: Profile, ds: seq<(string, Value)>): Profile
    decreases |ds|
  {
    if |ds| == 0 then p else WithDefaults(SetDefault(p, ds[0].0, ds[0].1), ds[1..])
  }

  /** The first default listed for `k`. */
  function DefaultFor(ds: seq<(string, Value)>, k: string): Option<Value>
    decreases |ds|
  {
    if |ds| == 0 then None else if ds[0].0 == k then Some(ds[0].1) else DefaultFor(ds[1..], k)
  }

  /**
   * Defaults never overwrite: a key already present keeps its value, a
   * listed key that is missing gets its first default, and nothing else is
   * added.
   */
  lemma {:induction false} WithDefaultsSpec(p: Profile, ds: seq<(string, Value)>, k: string)
    ensures k in p ==> k in WithDefaults(p, ds) && WithDefaults(p, ds)[k] == p[k]
    ensures k !in p && DefaultFor(ds, k).Some? ==> k in WithDefaults(p, ds) && WithDefaults(p, ds)[k] == DefaultFor(ds, k).value
    ensures k !in p && DefaultFor(ds, k).None? ==> k !in WithDefaults(p, ds)
    decreases |ds|
  {
    if |ds| > 0 {
      WithDefaultsSpec(SetDefault(p, ds[0].0, ds[0].1), ds[1..], k);
    }
  }

  /** The profile `ensure_profile_state` starts from: the slot's dictionary, or `{}`. */
  function BaseProfile(s: Slot): Profile
  {
    if s.Dict? then s.p else map[]
  }

  /** `ensure_profile_state()` on a slot: the twelve `setdefault` calls. */
  function EnsuredProfile(s: Slot): Profile
  {
    var p := BaseProfile(s);
    var p := SetDefault(p, "profile_code", VStr(""));
    var p := SetDefault(p, "nome", VStr(""));
    var p := SetDefault(p, "genero", VStr(""));
    var p := SetDefault(p, "segmento", VStr(""));
    var p := SetDefault(p, "cpf_cnpj", VStr(""));
    var p := SetDefault(p, "uf", VStr(""));
    var p := SetDefault(p, "municipio", VStr(""));
    var p := SetDefault(p, "municipio_label", VStr(""));
    var p := SetDefault(p, "uf_display", VStr(""));
    var p := SetDefault(p, "atividade", VStr(""));
    var p := SetDefault(p, "experiencia_anos", VInt(0));
    SetDefault(p, "docs", VDict([]))
  }

  /** The calls are the listed defaults applied in order. */
  lemma EnsuredUnfold(s: Slot)
    ensures EnsuredProfile(s) == WithDefaults(BaseProfile(s), ProfileDefaults)
  {
  }

  /**
   * After `ensure_profile_state` every default key is present, a dictionary
   * slot keeps its values, and a missing or non-dictionary slot becomes
   * exactly the defaults.
   */
  lemma EnsuredProfileSpec(s: Slot, k: string)
    ensures DefaultFor(ProfileDefaults, k).Some? ==> k in EnsuredProfile(s)
    ensures s.Dict? && k in s.p ==> EnsuredProfile(s)[k] == s.p[k]
    ensures !s.Dict? ==> (k in EnsuredProfile(s) <==> DefaultFor(ProfileDefaults, k).Some?)
    ensures !s.Dict? && k in EnsuredProfile(s) ==> EnsuredProfile(s)[k] == DefaultFor(ProfileDefaults, k).value
  {
    EnsuredUnfold(s);
    WithDefaultsSpec(BaseProfile(s), ProfileDefaults, k);
  }

  const CodeKey := "profile_code"
  const CreatedKey := "created_at"
  const UpdatedKey := "updated_at"
  const OwnerKey := "owner_account_id"
  const AccountKey := "account_id"

  /** `P.get(k)` */
  function Get(p: Profile, k: string): Value
  {
    if k in p then p[k] else VNone
  }

  /**
   * The stamping of `persist_profile`: a code (and a creation time, unless
   * one is recorded) only for a profile without a code, the update time
   * always, and the owner for a given account.
   */
  function Stamped(p: Profile, account: Option<string>, now: string, newCode: string): Profile
  {
    var p1 := if !Truthy(Get(p, CodeKey)) then SetDefault(p[CodeKey := VStr(newCode)], CreatedKey, VStr(now)) else p;
    var p2 := p1[UpdatedKey := VStr(now)];
    if Given(account) then SetDefault(p2[OwnerKey := VStr(account.value)], AccountKey, VStr(account.value)) else p2
  }

  /**
   * A profile that has a code keeps it and its creation time; one without
   * a code gets the new code and, if it has none, a creation time of now;
   * the update time is always now; the owner is set and the account only
   * filled in for a given account; every other entry is unchanged.
   */
  lemma StampedSpec(p: Profile, account: Option<string>, now: string, newCode: string)
    ensures var q := Stamped(p, account, now, newCode);
      (Truthy(Get(p, CodeKey)) ==> Get(q, CodeKey) == Get(p, CodeKey) && Get(q, CreatedKey) == Get(p, CreatedKey))
      && (!Truthy(Get(p, CodeKey)) ==>
            q[CodeKey] == VStr(newCode) && q[CreatedKey] == (if CreatedKey in p then p[CreatedKey] else VStr(now)))
      && q[UpdatedKey] == VStr(now)
    ensures var q := Stamped(p, account, now, newCode);
      (Given(account) ==>
         q[OwnerKey] == VStr(account.value) && q[AccountKey] == (if AccountKey in p then p[AccountKey] else VStr(account.value)))
      && (!Given(account) ==> Get(q, OwnerKey) == Get(p, OwnerKey) && Get(q, AccountKey) == Get(p, AccountKey))
    ensures var q := Stamped(p, account, now, newCode);
      forall k :: k !in {CodeKey, CreatedKey, UpdatedKey, OwnerKey, AccountKey} ==> Get(q, k) == Get(p, k)
  {
  }

  /** A profile stamped twice at the same moment gets no new code the second time. */
  lemma StampedTwice(p: Profile, account: Option<string>, now: string, code1: string, code2: string)
    requires code1 != ""
    ensures Stamped(Stamped(p, account, now, code1), account, now, code2) == Stamped(p, account, now, code1)
  {
    var q := Stamped(p, account, now, code1);
    assert Truthy(Get(q, CodeKey));
  }

  /** `selected_profile_id or code` */
  function SelectedId(repoResult: Value, code: Value): Value
  {
    var fromRepo := if repoResult.VDict? then
        Or(EntryGet(repoResult.entries, "id"), Or(EntryGet(repoResult.entries, "profile_id"), EntryGet(repoResult.entries, "uuid")))
      else VNone;
    Or(fromRepo, code)
  }

  /** `d.get(k)` on a dictionary's entries (its first entry for `k`). */
  function EntryGet(entries: seq<(string, Value)>, k: string): Value
    decreases |entries|
  {
    if |entries| == 0 then VNone else if entries[0].0 == k then entries[0].1 else EntryGet(entries[1..], k)
  }

  /**
   * The repository's identifier wins when it has a truthy `id`,
   * `profile_id` or `uuid` (in that order); otherwise the profile code.
   */
  lemma SelectedIdSpec(repoResult: Value, code: Value)
    ensures !repoResult.VDict? ==> SelectedId(repoResult, code) == code
    ensures repoResult.VDict? && Truthy(EntryGet(repoResult.entries, "id")) ==>
      SelectedId(repoResult, code) == EntryGet(repoResult.entries, "id")
    ensures (repoResult.VDict? && !Truthy(EntryGet(repoResult.entries, "id"))
             && !Truthy(EntryGet(repoResult.entries, "profile_id")) && !Truthy(EntryGet(repoResult.entries, "uuid"))) ==>
      SelectedId(repoResult, code) == code
  {
  }

  /** What `persist_profile` returns (the file paths are not part of this model). */
  datatype Persisted = Persisted(profile: Outcome<Profile>, code: Value, selected: Value)

  /** The session state the page works on. */
  class Session {
    var profile: Slot
    var selected: Value

    constructor ()
      ensures profile == Absent && selected == VNone
    {
      profile := Absent;
      selected := VNone;
    }

    /** `ensure_profile_state()` */
    method EnsureProfileState()
      modifies this
      ensures profile == Dict(EnsuredProfile(old(profile)))
      ensures selected == old(selected)
    {
      var p := BaseProfile(profile);
      p := SetDefault(p, "profile_code", VStr(""));
      p := SetDefault(p, "nome", VStr(""));
      p := SetDefault(p, "genero", VStr(""));
      p := SetDefault(p, "segmento", VStr(""));
      p := SetDefault(p, "cpf_cnpj", VStr(""));
      p := SetDefault(p, "uf", VStr(""));
      p := SetDefault(p, "municipio", VStr(""));
      p := SetDefault(p, "municipio_label", VStr(""));
      p := SetDefault(p, "uf_display", VStr(""));
      p := SetDefault(p, "atividade", VStr(""));
      p := SetDefault(p, "experiencia_anos", VInt(0));
      p := SetDefault(p, "docs", VDict([]));
      profile := Dict(p);
    }

    /**
     * `persist_profile(account_id)` with the clock's ISO text, the freshly
     * generated code and the repository's answer given: the stamped profile
     * stays in the session, and its export copy, its code and the selected
     * identifier are returned. When the export copy raises, the call stops
     * there: the profile is already stamped and the selection is unchanged.
     */
    method PersistProfile(account: Option<string>, now: string, newCode: string, repoResult: Value)
      returns (r: Persisted)
      modifies this
      ensures profile == Dict(Stamped(EnsuredProfile(old(profile)), account, now, newCode))
      ensures r.profile == NormalizeForIo(profile.p)
      ensures r.code == Get(profile.p, CodeKey)
      ensures r.profile.Returns? ==> selected == r.selected == SelectedId(repoResult, r.code)
      ensures r.profile.Raises? ==> selected == old(selected)
    {
      EnsureProfileState();
      var p := Stamp(profile.p, account, now, newCode);
      profile := Dict(p);
      var code := Get(p, CodeKey);
      var io := NormalizeForIo(p);
      if io.Raises? {
        return Persisted(io, code, VNone);
      }
      var id := SelectedId(repoResult, code);
      selected := id;
      r := Persisted(io, code, id);
    }
  }

  /** The stamping steps of `persist_profile` on the session's profile. */
  method Stamp(p: Profile, account: Option<string>, now: string, newCode: string) returns (q: Profile)
    ensures q == Stamped(p, account, now, newCode)
  {
    q := p;
    if !Truthy(Get(q, CodeKey)) {
      q := q[CodeKey := VStr(newCode)];
      q := SetDefault(q, CreatedKey, VStr(now));
    }
    q := q[UpdatedKey := VStr(now)];
    if Given(account) {
      q := q[OwnerKey := VStr(account.value)];
      q := SetDefault(q, AccountKey, VStr(account.value));
    }
  }

  /** An ensured profile has a `profile_code` entry. */
  lemma EnsuredHasCode(s: Slot)
    ensures CodeKey in EnsuredProfile(s)
  {
    EnsuredProfileSpec(s, CodeKey);
  }
}
