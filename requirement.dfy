/**
 * A requirement rule as the `Requirement` model builds it from keyword
 * arguments: three required identifiers cleaned by the strip validator, a
 * requirement type that defaults to a document, a trigger-token list typed
 * in one cell, a negation flag and free notes; unknown keys are kept.
 */
module RequirementModel {
  import opened PyStr
  import opened PyValue
  import opened Seqs
  import opened ModelFields

  /** `RequirementType` */
  datatype RequirementType = BoolReq | NumberReq | SelectReq | TextReq | DocReq | OtherReq

  /** The enum member's value. */
  function TypeValue(t: RequirementType): string
  {
    match t
    case BoolReq => "bool"
    case NumberReq => "number"
    case SelectReq => "select"
    case TextReq => "text"
    case DocReq => "doc"
    case OtherReq => "other"
  }

  /** `RequirementType(s)`: the member whose value is `s`, if any. */
  function ParseType(s: string): (r: Option<RequirementType>)
    ensures r.Some? ==> TypeValue(r.value) == s
  {
    if s == "bool" then Some(BoolReq)
    else if s == "number" then Some(NumberReq)
    else if s == "select" then Some(SelectReq)
    else if s == "text" then Some(TextReq)
    else if s == "doc" then Some(DocReq)
    else if s == "other" then Some(OtherReq)
    else None
  }

  /** Every member is found again from its value. */
  lemma ParseTypeValue(t: RequirementType)
    ensures ParseType(TypeValue(t)) == Some(t)
  {
  }

  /** Only the six values name a member. */
  lemma ParseTypeNone(s: string)
    requires forall t: RequirementType :: TypeValue(t) != s
    ensures ParseType(s).None?
  {
    assert TypeValue(BoolReq) != s && TypeValue(NumberReq) != s && TypeValue(SelectReq) != s;
    assert TypeValue(TextReq) != s && TypeValue(DocReq) != s && TypeValue(OtherReq) != s;
  }

  // ---------------------------------------------------------------------
  // _listify
  // ---------------------------------------------------------------------

  /** The separators `_listify` rewrites to `|` (no bullet, unlike the policy list). */
  const RequirementSeparators: seq<char> := [';', '|', ',', '\n']

  /**
   * `_listify(v)`: `None` is the empty list, a list keeps its stripped
   * non-blank items, and text is cut at the separators.
   */
  method Listify(v: Value) returns (items: seq<string>)
    ensures items == ListField(v, RequirementSeparators)
  {
    if v.VNone? {
      return [];
    }
    if v.VList? {
      return StripNonEmpty(Map(v.items, Str));
    }
    var s := Strip(Str(v));
    if s == "" {
      CellItemsEmpty(RequirementSeparators);
      return [];
    }
    items := SplitCell(s, RequirementSeparators);
  }

  /** `any_of="cpf; documento"`: both tokens, so `"cpf"` is among them. */
  lemma ListifySemicolon(a: string, b: string)
    requires CleanItems([a, b], SepSet(RequirementSeparators) + {'|'})
    ensures ListField(VStr(a + "; " + b), RequirementSeparators) == [a, b]
  {
    assert ' ' !in SepSet(RequirementSeparators);
    CellPair(a, "; ", b, RequirementSeparators);
  }

  /** The test's trigger tokens. */
  lemma ListifyExample()
    ensures ListField(VStr("cpf" + "; " + "documento"), RequirementSeparators) == ["cpf", "documento"]
  {
    var sset := SepSet(RequirementSeparators) + {'|'};
    assert Free("cpf", sset);
    assert Free("documento", sset);
    ListifySemicolon("cpf", "documento");
  }

  /** A bullet does not cut a requirement's token list. */
  lemma ListifyKeepsBullet(a: string, b: string)
    requires CleanItems([a, b], SepSet(RequirementSeparators) + {'|'})
    ensures ListField(VStr(a + "•" + b), RequirementSeparators) == [a + "•" + b]
  {
    var sset := SepSet(RequirementSeparators) + {'|'};
    CleanPair(a, b, sset);
    assert '•' !in sset;
    var t := a + "•" + b;
    forall i | 0 <= i < |t| ensures t[i] !in sset {
      if i < |a| {
        assert t[i] == a[i];
      } else if i > |a| {
        assert t[i] == b[i - |a| - 1];
      }
    }
    PairStripped(a, "•", b);
    ListFieldOfFree(t, RequirementSeparators);
  }

  // ---------------------------------------------------------------------
  // Requirement(**kwargs)
  // ---------------------------------------------------------------------

  /** A validated requirement; `extra` holds the keyword arguments the model does not declare. */
  datatype Requirement = Requirement(
    code: string,
    labelText: string,
    profileField: string,
    kind: RequirementType,
    anyOf: seq<string>,
    negate: bool,
    notes: Option<string>,
    extra: map<string, Value>)

  const CodeKey := "code"
  const LabelKey := "label"
  const ProfileFieldKey := "profile_field"
  const TypeKey := "type"
  const AnyOfKey := "any_of"
  const NegateKey := "negate"
  const NotesKey := "notes"

  /** The declared fields. */
  const FieldNames: set<string> := {CodeKey, LabelKey, ProfileFieldKey, TypeKey, AnyOfKey, NegateKey, NotesKey}

  /** A required identifier: present, and non-blank once shown and stripped. */
  function Identifier(input: map<string, Value>, key: string): (r: Option<string>)
    ensures r.Some? <==> key in input && StripOrNone(input[key]).Some?
    ensures r.Some? ==> r.value == StripOrNone(input[key]).value
  {
    if key in input then StripOrNone(input[key]) else None
  }

  /** The `type` field: `doc` when absent, otherwise text naming a member. */
  function TypeField(input: map<string, Value>): (r: Option<RequirementType>)
    ensures TypeKey !in input ==> r == Some(DocReq)
    ensures TypeKey in input && r.Some? ==> input[TypeKey] == VStr(TypeValue(r.value))
  {
    if TypeKey !in input then Some(DocReq)
    else if input[TypeKey].VStr? then ParseType(input[TypeKey].s)
    else None
  }

  /** The texts pydantic reads as `True` and as `False`, compared in lower case. */
  const TrueTexts: set<string> := {"1", "on", "t", "true", "y", "yes"}
  const FalseTexts: set<string> := {"0", "off", "f", "false", "n", "no"}

  /**
   * The `negate` field: `False` when absent; otherwise a bool, the integers
   * 0 and 1, or a text from the lax word lists, in any letter case.
   */
  function NegateField(input: map<string, Value>): (r: Option<bool>)
    ensures NegateKey !in input ==> r == Some(false)
    ensures NegateKey in input && input[NegateKey].VBool? ==> r == Some(input[NegateKey].b)
    ensures r == Some(true) ==> NegateKey in input
  {
    if NegateKey !in input then Some(false)
    else
      var v := input[NegateKey];
      if v.VBool? then Some(v.b)
      else if v == VInt(0) then Some(false)
      else if v == VInt(1) then Some(true)
      else if v.VStr? && Lower(v.s) in TrueTexts then Some(true)
      else if v.VStr? && Lower(v.s) in FalseTexts then Some(false)
      else None
  }

  /** No text is read both ways. */
  lemma LaxTextsDisjoint()
    ensures TrueTexts * FalseTexts == {}
  {
    forall w | w in TrueTexts ensures w !in FalseTexts {
      assert w in TrueTexts;
    }
  }

  /**
   * The flag is accepted exactly for the absent key, a bool, 0, 1 and the
   * lax words, and each word reads as the side it is listed on, whatever its case.
   */
  lemma NegateFieldAccepts(input: map<string, Value>)
    requires NegateKey in input
    ensures var v := input[NegateKey];
      NegateField(input).Some? <==>
        v.VBool? || v == VInt(0) || v == VInt(1) || (v.VStr? && Lower(v.s) in TrueTexts + FalseTexts)
    ensures var v := input[NegateKey];
      v.VStr? && Lower(v.s) in TrueTexts ==> NegateField(input) == Some(true)
    ensures var v := input[NegateKey];
      v.VStr? && Lower(v.s) in FalseTexts ==> NegateField(input) == Some(false)
  {
    LaxTextsDisjoint();
  }

  /** `"Yes"` and `"OFF"` are read as pydantic reads them. */
  lemma NegateFieldWords(input: map<string, Value>, w: string)
    requires NegateKey in input && input[NegateKey] == VStr(w)
    requires w == "Yes" || w == "OFF"
    ensures NegateField(input) == Some(w == "Yes")
  {
    if w == "Yes" {
      assert Lower(w) == "yes";
    } else {
      assert Lower(w) == "off";
    }
  }

  /** The keyword arguments kept as extras. */
  function Extras(input: map<string, Value>): map<string, Value>
  {
    map k | k in input && k !in FieldNames :: input[k]
  }

  /**
   * `Requirement(**input)`: the identifiers through the strip validator, the
   * defaults for absent optional fields, the token list through `_listify`.
   * A failure names the first offending field in declaration order.
   */
  function MakeRequirement(input: map<string, Value>): (r: Result<Requirement>)
    ensures r.Ok? ==> r.value.extra == Extras(input)
  {
    var code := Identifier(input, CodeKey);
    var labelText := Identifier(input, LabelKey);
    var field := Identifier(input, ProfileFieldKey);
    var kind := TypeField(input);
    var negate := NegateField(input);
    var notes := OptionalText(input, NotesKey);
    if code.None? then Invalid(CodeKey)
    else if labelText.None? then Invalid(LabelKey)
    else if field.None? then Invalid(ProfileFieldKey)
    else if kind.None? then Invalid(TypeKey)
    else if negate.None? then Invalid(NegateKey)
    else if notes.Invalid? then Invalid(NotesKey)
    else
      Ok(Requirement(
        code.value, labelText.value, field.value, kind.value,
        if AnyOfKey in input then ListField(input[AnyOfKey], RequirementSeparators) else [],
        negate.value, notes.value, Extras(input)))
  }

  /** An identifier argument the strip validator lets through. */
  predicate Given(input: map<string, Value>, key: string)
  {
    key in input && !input[key].VNone? && Strip(Str(input[key])) != ""
  }

  /**
   * The input is accepted exactly when the three identifiers are present and
   * not blank, the type (if given) names a member, the flag (if given) is one
   * `NegateField` accepts (a bool, 0 or 1, or a lax yes/no word in any case)
   * and the notes (if given) are text or `None`.
   */
  lemma MakeRequirementAccepts(input: map<string, Value>)
    ensures MakeRequirement(input).Ok? <==>
      Given(input, CodeKey) && Given(input, LabelKey) && Given(input, ProfileFieldKey)
      && TypeField(input).Some?
      && NegateField(input).Some?
      && (NotesKey !in input || input[NotesKey].VNone? || input[NotesKey].VStr?)
  {
  }

  /** A missing or blank code is rejected, naming that field. */
  lemma MakeRequirementBlankCode(input: map<string, Value>)
    requires !Given(input, CodeKey)
    ensures MakeRequirement(input) == Invalid(CodeKey)
  {
  }

  /**
   * An accepted requirement carries the stripped identifiers and its token
   * list holds clean tokens.
   */
  lemma MakeRequirementFields(input: map<string, Value>)
    requires MakeRequirement(input).Ok?
    ensures MakeRequirement(input).value.code == Strip(Str(input[CodeKey]))
    ensures MakeRequirement(input).value.labelText == Strip(Str(input[LabelKey]))
    ensures MakeRequirement(input).value.profileField == Strip(Str(input[ProfileFieldKey]))
    ensures forall a :: a in MakeRequirement(input).value.anyOf ==> a != "" && IsStripped(a)
  {
    MakeRequirementAccepts(input);
    var r := MakeRequirement(input).value;
    if AnyOfKey in input {
      assert r.anyOf == ListField(input[AnyOfKey], RequirementSeparators);
      ListFieldShape(input[AnyOfKey], RequirementSeparators);
    }
  }

  /** The extras of an accepted requirement are exactly the undeclared arguments, unchanged. */
  lemma MakeRequirementExtras(input: map<string, Value>)
    requires MakeRequirement(input).Ok?
    ensures forall k :: k in MakeRequirement(input).value.extra <==> k in input && k !in FieldNames
    ensures forall k :: k in MakeRequirement(input).value.extra ==> MakeRequirement(input).value.extra[k] == input[k]
  {
    ExtrasKeep(input);
  }

  lemma ExtrasKeep(input: map<string, Value>)
    ensures forall k :: k in Extras(input) <==> k in input && k !in FieldNames
    ensures forall k :: k in Extras(input) ==> Extras(input)[k] == input[k]
  {
  }

  /** The defaults: type `doc`, no tokens, not negated, no notes. */
  lemma MakeRequirementDefaults(input: map<string, Value>)
    requires TypeKey !in input && AnyOfKey !in input && NegateKey !in input && NotesKey !in input
    requires MakeRequirement(input).Ok?
    ensures MakeRequirement(input).value.kind == DocReq
    ensures MakeRequirement(input).value.anyOf == []
    ensures MakeRequirement(input).value.negate == false
    ensures MakeRequirement(input).value.notes.None?
  {
  }
}
