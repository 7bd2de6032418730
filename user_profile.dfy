/**
 * The user profile the eligibility engine reads: four declared location
 * and identity fields with their validators, any further answers kept as
 * extras, and the typed getters `get_bool`, `get_number` and `get_text`.
 */
module UserProfileModel {
  import opened PyStr
  import opened PyValue
  import opened PyFloat
  import opened TextUtils
  import opened ModelFields

  /**
   * A validated profile. `given` is the set of keyword arguments the profile
   * was built from (`model_fields_set`); `extra` holds the undeclared ones.
   */
  datatype UserProfile = UserProfile(
    estado: Option<string>,
    municipio: Option<string>,
    ibgeMun: Option<string>,
    genero: Option<string>,
    given: set<string>,
    extra: map<string, Value>)

  const EstadoKey := "estado"
  const MunicipioKey := "municipio"
  const IbgeMunKey := "ibge_mun"
  const GeneroKey := "genero"

  /** The declared fields. */
  predicate Declared(key: string)
  {
    key == EstadoKey || key == MunicipioKey || key == IbgeMunKey || key == GeneroKey
  }

  /**
   * `UserProfile(**input)`: the state code through `_norm_uf`, the town and
   * gender through the strip validator, the IBGE code as text or `None`, and
   * every other argument kept. Only a non-text IBGE code is rejected.
   */
  function MakeProfile(input: map<string, Value>): Result<UserProfile>
  {
    var ibge := OptionalText(input, IbgeMunKey);
    if ibge.Invalid? then Invalid(IbgeMunKey)
    else
      Ok(UserProfile(
        if EstadoKey in input then NormUf(input[EstadoKey]) else None,
        if MunicipioKey in input then StripOrNone(input[MunicipioKey]) else None,
        ibge.value,
        if GeneroKey in input then StripOrNone(input[GeneroKey]) else None,
        input.Keys,
        map k | k in input && !Declared(k) :: input[k]))
  }

  /** A profile as validation leaves it: unset declared fields are `None`, extras are undeclared arguments. */
  predicate Valid(p: UserProfile)
  {
    (EstadoKey !in p.given ==> p.estado.None?)
    && (MunicipioKey !in p.given ==> p.municipio.None?)
    && (IbgeMunKey !in p.given ==> p.ibgeMun.None?)
    && (GeneroKey !in p.given ==> p.genero.None?)
    && (forall k :: k in p.extra ==> k in p.given && !Declared(k))
  }

  /** Validation rejects only a non-text IBGE code, and what it builds is a valid profile. */
  lemma MakeProfileValid(input: map<string, Value>)
    ensures MakeProfile(input).Invalid? <==>
      IbgeMunKey in input && !input[IbgeMunKey].VNone? && !input[IbgeMunKey].VStr?
    ensures MakeProfile(input).Ok? ==> Valid(MakeProfile(input).value)
  {
  }

  /**
   * An accepted profile's fields: the state code is the upper-cased first
   * two characters of the stripped text, the town and gender are stripped
   * and non-blank, and an undeclared argument is kept unchanged.
   */
  lemma MakeProfileFields(input: map<string, Value>)
    requires MakeProfile(input).Ok?
    ensures var p := MakeProfile(input).value;
      (EstadoKey in input && !input[EstadoKey].VNone? ==>
         p.estado == Some(UfCode(Str(input[EstadoKey]))))
      && (p.municipio.Some? ==> p.municipio.value != "" && IsStripped(p.municipio.value))
      && (p.genero.Some? ==> p.genero.value != "" && IsStripped(p.genero.value))
      && (forall k :: k in input && !Declared(k) ==> k in p.extra && p.extra[k] == input[k])
  {
  }

  /** `getattr(self, key, None)`: a declared field, an extra, or `None`. */
  function Attribute(p: UserProfile, key: string): Value
  {
    if key == EstadoKey then OptText(p.estado)
    else if key == MunicipioKey then OptText(p.municipio)
    else if key == IbgeMunKey then OptText(p.ibgeMun)
    else if key == GeneroKey then OptText(p.genero)
    else ExtraGet(p, key)
  }

  /** `self.model_extra.get(key)` */
  function ExtraGet(p: UserProfile, key: string): Value
  {
    if key in p.extra then p.extra[key] else VNone
  }

  /**
   * The value the getters read: the extras for a key that was not given,
   * the attribute for one that was.
   */
  function Lookup(p: UserProfile, key: string): Value
  {
    if key !in p.given then ExtraGet(p, key) else Attribute(p, key)
  }

  /** On a valid profile both branches of the lookup read the attribute. */
  lemma LookupIsAttribute(p: UserProfile, key: string)
    requires Valid(p)
    ensures Lookup(p, key) == Attribute(p, key)
  {
    if key !in p.given {
      assert key !in p.extra;
    }
  }

  // ---------------------------------------------------------------------
  // get_bool / get_number / get_text
  // ---------------------------------------------------------------------

  /** `get_bool(key)` */
  function GetBool(p: UserProfile, key: string): Option<bool>
  {
    var v := Lookup(p, key);
    if v.VNone? then None
    else if v.VBool? then Some(v.b)
    else BoolWord(Lower(Strip(Str(v))))
  }

  /**
   * `None` for a missing value, a bool unchanged, and otherwise `True`
   * exactly for a yes-word and `False` exactly for a no-word once the text
   * is stripped and lower-cased.
   */
  lemma GetBoolCases(p: UserProfile, key: string)
    ensures Lookup(p, key).VNone? ==> GetBool(p, key).None?
    ensures Lookup(p, key).VBool? ==> GetBool(p, key) == Some(Lookup(p, key).b)
    ensures var v := Lookup(p, key); !v.VNone? && !v.VBool? ==>
      (GetBool(p, key) == Some(true) <==> Lower(Strip(Str(v))) in TrueWords)
      && (GetBool(p, key) == Some(false) <==> Lower(Strip(Str(v))) in FalseWords)
  {
    BoolWordCases(Lower(Strip(Str(Lookup(p, key)))));
  }

  /** `get_number(key)`: `None` for `None` and `""`, and where `float` raises. */
  function GetNumber(p: UserProfile, key: string): Option<Num>
  {
    var v := Lookup(p, key);
    if v.VNone? || v == VStr("") then None else FloatOf(v)
  }

  /** A missing value, the empty text and a container give no number; an integer or bool its value. */
  lemma GetNumberCases(p: UserProfile, key: string)
    ensures var v := Lookup(p, key); v.VNone? || v == VStr("") || v.VList? || v.VDict? ==>
      GetNumber(p, key).None?
    ensures Lookup(p, key).VInt? ==> GetNumber(p, key) == Some(Fin(Lookup(p, key).i as real))
    ensures Lookup(p, key).VBool? ==>
      GetNumber(p, key) == Some(Fin(if Lookup(p, key).b then 1.0 else 0.0))
    ensures Lookup(p, key).VStr? && Lookup(p, key) != VStr("") ==>
      GetNumber(p, key) == ParseFloat(Lookup(p, key).s)
  {
  }

  /** `get_text(key)` */
  function GetText(p: UserProfile, key: string): (r: Option<string>)
    ensures r.None? <==> Lookup(p, key).VNone? || Strip(Str(Lookup(p, key))) == ""
    ensures r.Some? ==> r.value == Strip(Str(Lookup(p, key)))
  {
    StripOrNone(Lookup(p, key))
  }

  /** Reading a text back through `get_text` and storing it again changes nothing. */
  lemma GetTextIdempotent(p: UserProfile, key: string)
    ensures GetText(p, key).Some? ==> StripOrNone(VStr(GetText(p, key).value)) == GetText(p, key)
  {
    StripOrNoneIdempotent(Lookup(p, key));
  }

  // ---------------------------------------------------------------------
  // as_dict / the test's profile
  // ---------------------------------------------------------------------

  /** `as_dict()`: the declared fields (absent ones as `None`) and the extras. */
  function AsDict(p: UserProfile): map<string, Value>
  {
    p.extra[EstadoKey := OptText(p.estado)][MunicipioKey := OptText(p.municipio)]
      [IbgeMunKey := OptText(p.ibgeMun)][GeneroKey := OptText(p.genero)]
  }

  /** The dictionary shows every attribute under its key. */
  lemma AsDictShowsAttributes(p: UserProfile, key: string)
    requires Valid(p)
    ensures key in AsDict(p) <==> Declared(key) || key in p.extra
    ensures key in AsDict(p) ==> AsDict(p)[key] == Attribute(p, key)
  {
  }

  /** An undeclared bool answer reads back through `get_bool` (`cpf_ok=True`). */
  lemma ExtraBoolReadsBack(input: map<string, Value>, key: string, b: bool)
    requires MakeProfile(input).Ok?
    requires key in input && input[key] == VBool(b) && !Declared(key)
    ensures GetBool(MakeProfile(input).value, key) == Some(b)
  {
    var p := MakeProfile(input).value;
    MakeProfileValid(input);
    MakeProfileFields(input);
    LookupIsAttribute(p, key);
  }

  /** The test's state code: `estado="pa"` becomes `"PA"`. */
  lemma EstadoExample()
    ensures NormUf(VStr("pa")) == Some("PA")
  {
    var t := "pa";
    assert NormUf(VStr(t)) == Some(UfCode(t));
    PaLetters();
    UfCodeOfLetters(t);
    assert "PA" == [UpperChar('p'), UpperChar('a')];
  }

  lemma PaLetters()
    ensures UpperChar('p') == 'P' && UpperChar('a') == 'A'
    ensures !IsSpace('p') && !IsSpace('a')
  {
  }

  /** The test's extra answer key is not a declared field. */
  lemma CpfOkIsExtra()
    ensures !Declared("cpf_ok")
  {
  }
}
