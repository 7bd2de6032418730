/**
 * One row of the policy spreadsheet as the `Policy` model reads it: the
 * government level a free-text "nivel" cell names, the sub-programme list
 * typed in one cell, the optional link, and the dictionary the interface
 * shows for a policy.
 */
module PolicyModel {
  import opened PyStr
  import opened PyValue
  import opened Seqs
  import opened ModelFields

  /** `PolicyLevel` */
  datatype PolicyLevel = Federal | Estadual | Municipal | Outro

  /** The enum member's value. */
  function LevelValue(l: PolicyLevel): string
  {
    match l
    case Federal => "Federal"
    case Estadual => "Estadual"
    case Municipal => "Municipal"
    case Outro => "Outro"
  }

  // ---------------------------------------------------------------------
  // _to_list
  // ---------------------------------------------------------------------

  /** The separators `_to_list` rewrites to `|`, in the order it rewrites them. */
  const ListSeparators: seq<char> := [';', '|', '•', ',', '\n']

  /**
   * `_to_list(value)`: the separators are rewritten to `|` one after the
   * other and the text is split at `|`; the result is the one-pass split
   * at all of them.
   */
  method ToList(v: Value) returns (items: seq<string>)
    ensures items == ListField(v, ListSeparators)
  {
    if v.VNone? {
      return [];
    }
    if v.VList? {
      return StripNonEmpty(Map(v.items, Str));
    }
    var s := Strip(Str(v));
    if s == "" {
      CellItemsEmpty(ListSeparators);
      return [];
    }
    items := SplitCell(s, ListSeparators);
  }

  /** `"Regras | Fiscalização"` gives both items: two clean items around a `|` are kept apart. */
  lemma ToListPipe(a: string, b: string)
    requires CleanItems([a, b], SepSet(ListSeparators) + {'|'})
    ensures ListField(VStr(a + " | " + b), ListSeparators) == [a, b]
  {
    assert ' ' !in SepSet(ListSeparators);
    CellPairSpaced(a, " | ", b, ListSeparators);
  }

  /** The test's axes cell `"Regras | Fiscalização"`. */
  lemma ToListExample()
    ensures ListField(VStr("Regras" + " | " + "Fiscalização"), ListSeparators) == ["Regras", "Fiscalização"]
  {
    var sset := SepSet(ListSeparators) + {'|'};
    assert Free("Regras", sset);
    assert Free("Fiscalização", sset);
    ToListPipe("Regras", "Fiscalização");
  }

  // ---------------------------------------------------------------------
  // _norm_level
  // ---------------------------------------------------------------------

  /**
   * `_norm_level(v)`: `None` and the empty string give no level; any other
   * value is shown, stripped and lower-cased, and the first keyword class
   * it contains decides. (Python's `v == ""` holds only for the empty string.)
   */
  function NormLevel(v: Value): Option<PolicyLevel>
  {
    if v.VNone? || v == VStr("") then None
    else Some(LevelOf(Lower(Strip(Str(v)))))
  }

  /** The level a stripped, lower-cased text names. */
  function LevelOf(s: string): PolicyLevel
  {
    if Contains(s, "federal") then Federal
    else if Contains(s, "estadual") || Contains(s, "estado") then Estadual
    else if Contains(s, "municip") then Municipal
    else Outro
  }

  /** Every infix is contained. */
  lemma ContainsInfix(x: string, w: string, y: string)
    ensures Contains(x + w + y, w)
  {
    assert StartsAt(x + w + y, |x|, w) by {
      assert (x + w + y)[|x|..|x| + |w|] == w;
    }
  }

  /**
   * "federal" anywhere in the text wins over every other keyword, and
   * "estado" or "estadual" anywhere wins over "municip" unless "federal"
   * occurs too.
   */
  lemma LevelPrecedence(x: string, y: string)
    ensures LevelOf(x + "federal" + y) == Federal
    ensures !Contains(x + "estado" + y, "federal") ==> LevelOf(x + "estado" + y) == Estadual
    ensures !Contains(x + "estadual" + y, "federal") ==> LevelOf(x + "estadual" + y) == Estadual
  {
    ContainsInfix(x, "federal", y);
    ContainsInfix(x, "estado", y);
    ContainsInfix(x, "estadual", y);
  }

  /** A blank that is not the empty string names the level `Outro`. */
  lemma BlankLevelIsOutro(v: Value)
    requires !v.VNone? && v != VStr("") && Strip(Str(v)) == ""
    ensures NormLevel(v) == Some(Outro)
  {
    assert Lower("") == "";
    NoKeywordInEmpty();
  }

  lemma NoKeywordInEmpty()
    ensures LevelOf("") == Outro
  {
  }

  /** What `to_display_dict` shows as the level reads back as that level. */
  lemma LevelRoundTrip(l: PolicyLevel)
    ensures NormLevel(VStr(LevelValue(l))) == Some(l)
  {
    match l
    case Federal => FederalReads(LevelValue(l));
    case Estadual => EstadualReads(LevelValue(l));
    case Municipal => MunicipalReads(LevelValue(l));
    case Outro => OutroReads(LevelValue(l));
  }

  /** A word does not start where its first letter is missing. */
  lemma NotAt(s: string, w: string, i: nat)
    requires i < |s| && |w| > 0 && s[i] != w[0]
    ensures !StartsAt(s, i, w)
  {
    if i + |w| <= |s| {
      assert s[i..i + |w|][0] == s[i];
    }
  }

  /** A stripped, non-empty text names the level of its lower-cased form. */
  lemma LevelText(s: string, lowered: string)
    requires IsStripped(s) && s != "" && Lower(s) == lowered
    ensures NormLevel(VStr(s)) == Some(LevelOf(lowered))
  {
    StripOfStripped(s);
    assert VStr(s) != VStr("") by { assert VStr(s).s != ""; }
  }

  lemma FederalReads(w: string)
    requires w == "Federal"
    ensures NormLevel(VStr(w)) == Some(Federal)
  {
    LowerWord(w, "federal");
    LevelText(w, "federal");
    SelfContained("federal");
  }

  lemma EstadualReads(w: string)
    requires w == "Estadual"
    ensures NormLevel(VStr(w)) == Some(Estadual)
  {
    LowerWord(w, "estadual");
    LevelText(w, "estadual");
    EstadualWords();
    SelfContained("estadual");
  }

  /** A word is contained in itself. */
  lemma SelfContained(w: string)
    ensures Contains(w, w)
  {
    assert StartsAt(w, 0, w) by { assert w[0..|w|] == w; }
  }

  /** A capitalised word lowers to its lower-case spelling: only the first letter changes. */
  lemma LowerWord(s: string, w: string)
    requires |s| == |w| > 0 && LowerChar(s[0]) == w[0]
    requires forall i :: 1 <= i < |s| ==> LowerChar(s[i]) == s[i] == w[i]
    ensures Lower(s) == w
  {
    forall i | 0 <= i < |s| ensures Lower(s)[i] == w[i] {
      if i > 0 { assert LowerChar(s[i]) == w[i]; }
    }
  }

  lemma EstadualWords()
    ensures !Contains("estadual", "federal")
  {
    var s := "estadual";
    forall i | 0 <= i <= |s| ensures !StartsAt(s, i, "federal") {
      if i == 0 { NotAt(s, "federal", 0); }
      else if i == 1 { NotAt(s, "federal", 1); }
    }
  }

  lemma MunicipalReads(w: string)
    requires w == "Municipal"
    ensures NormLevel(VStr(w)) == Some(Municipal)
  {
    LowerWord(w, "municipal");
    LevelText(w, "municipal");
    MunicipalWords("federal");
    MunicipalWords("estadual");
    MunicipalWords("estado");
    assert StartsAt("municipal", 0, "municip");
  }

  /** "municipal" has no `f` or `e` among its first four letters, so no other keyword fits in it. */
  lemma MunicipalWords(w: string)
    requires w == "federal" || w == "estadual" || w == "estado"
    ensures !Contains("municipal", w)
  {
    var s := "municipal";
    forall i | 0 <= i <= |s| ensures !StartsAt(s, i, w) {
      if i == 0 { NotAt(s, w, 0); }
      else if i == 1 { NotAt(s, w, 1); }
      else if i == 2 { NotAt(s, w, 2); }
      else if i == 3 { NotAt(s, w, 3); }
    }
  }

  lemma OutroReads(w: string)
    requires w == "Outro"
    ensures NormLevel(VStr(w)) == Some(Outro)
  {
    LowerWord(w, "outro");
    LevelText(w, "outro");
    ShortWord("outro", "federal");
    ShortWord("outro", "estadual");
    ShortWord("outro", "estado");
    ShortWord("outro", "municip");
  }

  /** A word longer than the text does not occur in it. */
  lemma ShortWord(s: string, w: string)
    requires |s| < |w|
    ensures !Contains(s, w)
  {
  }

  // ---------------------------------------------------------------------
  // Policy.from_row / to_display_dict
  // ---------------------------------------------------------------------

  /** A validated policy row. */
  datatype Policy = Policy(
    number: Option<string>,
    title: string,
    level: Option<PolicyLevel>,
    description: Option<string>,
    accessText: Option<string>,
    operationalization: Option<string>,
    axes: seq<string>,
    link: Option<string>,
    notes: Option<string>)

  // The spreadsheet's column names, the fields' aliases.
  const NumberKey := "Número"
  const TitleKey := "Politicas publicas"
  const LevelKey := "nivel"
  const DescriptionKey := "Descrição dos direitos"
  const AccessKey := "Acesso"
  const OperationalizationKey := "Operacionalização/Aplicação"
  const AxesKey := "Organização interna (Subprogramas e/ou Eixos)"
  const LinkKey := "Link"
  const NotesKey := "Observações"

  /**
   * `Policy.from_row(row)`: the row's cells under the column names, the
   * title required as text, the free-text cells text or `None`, and the
   * level, axes and link run through their validators; unknown columns are
   * ignored. A failure names the first offending field in declaration order.
   */
  function FromRow(row: map<string, Value>): Result<Policy>
  {
    var number := OptionalText(row, NumberKey);
    var description := OptionalText(row, DescriptionKey);
    var access := OptionalText(row, AccessKey);
    var operationalization := OptionalText(row, OperationalizationKey);
    var notes := OptionalText(row, NotesKey);
    if number.Invalid? then Invalid(NumberKey)
    else if TitleKey !in row || !row[TitleKey].VStr? then Invalid(TitleKey)
    else if description.Invalid? then Invalid(DescriptionKey)
    else if access.Invalid? then Invalid(AccessKey)
    else if operationalization.Invalid? then Invalid(OperationalizationKey)
    else if notes.Invalid? then Invalid(NotesKey)
    else
      Ok(Policy(
        number.value,
        row[TitleKey].s,
        if LevelKey in row then NormLevel(row[LevelKey]) else None,
        description.value,
        access.value,
        operationalization.value,
        if AxesKey in row then ListField(row[AxesKey], ListSeparators) else [],
        if LinkKey in row then StripOrNone(row[LinkKey]) else None,
        notes.value))
  }

  /** The row is accepted exactly when the title is text and every free-text cell is text or `None`. */
  lemma FromRowAccepts(row: map<string, Value>)
    ensures FromRow(row).Ok? <==>
      (TitleKey in row && row[TitleKey].VStr?)
      && forall k :: k in [NumberKey, DescriptionKey, AccessKey, OperationalizationKey, NotesKey] ==>
           k !in row || row[k].VNone? || row[k].VStr?
  {
  }

  /**
   * An accepted row keeps its title, its level is the validator's reading
   * of the "nivel" cell, its axes are clean items and its link, when
   * present, is stripped and non-blank.
   */
  lemma FromRowFields(row: map<string, Value>)
    requires FromRow(row).Ok?
    ensures FromRow(row).value.title == row[TitleKey].s
    ensures FromRow(row).value.level == (if LevelKey in row then NormLevel(row[LevelKey]) else None)
    ensures forall a :: a in FromRow(row).value.axes ==> a != "" && IsStripped(a)
    ensures FromRow(row).value.link.Some? ==>
      FromRow(row).value.link.value != "" && IsStripped(FromRow(row).value.link.value)
  {
    if AxesKey in row {
      ListFieldShape(row[AxesKey], ListSeparators);
    }
  }

  // The keys of the display dictionary, in order.
  const DisplayKeys: seq<string> := ["Número", "Política", "Nível", "Descrição dos direitos",
    "Acesso (texto)", "Organização interna", "Link", "Observações"]

  /** `to_display_dict()`: the fields under display names, axes joined with `", "`, the level as its value. */
  function ToDisplay(p: Policy): seq<(string, Value)>
  {
    [("Número", OptText(p.number)),
     ("Política", VStr(p.title)),
     ("Nível", if p.level.Some? then VStr(LevelValue(p.level.value)) else VNone),
     ("Descrição dos direitos", OptText(p.description)),
     ("Acesso (texto)", OptText(p.accessText)),
     ("Organização interna", VStr(Join(p.axes, ", "))),
     ("Link", OptText(p.link)),
     ("Observações", OptText(p.notes))]
  }

  /** The display has the eight keys in order. */
  lemma DisplayKeysInOrder(p: Policy)
    ensures |ToDisplay(p)| == |DisplayKeys|
    ensures forall k :: 0 <= k < |DisplayKeys| ==> ToDisplay(p)[k].0 == DisplayKeys[k]
  {
  }

  /**
   * What the display shows reads back: its level cell through the level
   * validator gives the policy's level, and its axes cell through the list
   * splitter gives the axes, provided no axis holds a separator (always the
   * case when the axes were cut from text).
   */
  lemma DisplayReadsBack(p: Policy)
    requires CleanItems(p.axes, SepSet(ListSeparators) + {'|'})
    ensures NormLevel(ToDisplay(p)[2].1) == p.level
    ensures ListField(ToDisplay(p)[5].1, ListSeparators) == p.axes
  {
    assert NormLevel(ToDisplay(p)[2].1) == p.level by {
      DisplayCells(p);
      if p.level.Some? {
        LevelRoundTrip(p.level.value);
      }
    }
    assert ListField(ToDisplay(p)[5].1, ListSeparators) == p.axes by {
      DisplayCells(p);
      assert ',' in ListSeparators && ' ' !in ListSeparators;
      ListFieldOfJoin(p.axes, ListSeparators);
    }
  }

  /** The level and axes cells of the display. */
  lemma DisplayCells(p: Policy)
    ensures ToDisplay(p)[2].1 == (if p.level.Some? then VStr(LevelValue(p.level.value)) else VNone)
    ensures ToDisplay(p)[5].1 == VStr(Join(p.axes, ", "))
  {
  }

  /** The axes of an accepted row are the list reading of its axes cell. */
  lemma FromRowAxes(row: map<string, Value>)
    requires FromRow(row).Ok?
    ensures FromRow(row).value.axes == if AxesKey in row then ListField(row[AxesKey], ListSeparators) else []
  {
  }

  /** Axes cut from a text cell are clean, so a policy read from such a row shows them back. */
  lemma FromRowDisplayReadsBack(row: map<string, Value>)
    requires FromRow(row).Ok?
    requires AxesKey in row ==> !row[AxesKey].VList?
    ensures ListField(ToDisplay(FromRow(row).value)[5].1, ListSeparators) == FromRow(row).value.axes
  {
    var p := FromRow(row).value;
    FromRowAxes(row);
    if AxesKey in row {
      ListFieldClean(row[AxesKey], ListSeparators);
    } else {
      assert p.axes == [];
    }
    DisplayReadsBack(p);
  }
}
