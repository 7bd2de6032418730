/**
 * A place: a two-letter state code, an optional town name and optional
 * IBGE codes, as the `Region` model validates them. Unknown arguments are
 * dropped.
 */
module RegionModel {
  import opened PyStr
  import opened PyValue
  import opened ModelFields

  /** A validated region (the coordinates are not part of this model). */
  datatype Region = Region(
    uf: string,
    municipio: Option<string>,
    ibgeUf: Option<string>,
    ibgeMun: Option<string>)

  const UfKey := "uf"
  const MunicipioKey := "municipio"
  const IbgeUfKey := "ibge_uf"
  const IbgeMunKey := "ibge_mun"

  /**
   * The `uf` field: required, through `_norm_uf`, and then exactly two
   * characters long.
   */
  function UfField(input: map<string, Value>): (r: Option<string>)
    ensures r.Some? ==> |r.value| == 2
    ensures r.Some? <==> UfKey in input && !input[UfKey].VNone? && |Strip(Str(input[UfKey]))| >= 2
  {
    if UfKey !in input then None
    else
      var code := NormUf(input[UfKey]);
      if code.Some? && |code.value| == 2 then code else None
  }

  /**
   * `Region(**input)`: the state code as above, the town through the strip
   * validator, the IBGE codes as text or `None`. A failure names the first
   * offending field in declaration order.
   */
  function MakeRegion(input: map<string, Value>): Result<Region>
  {
    var uf := UfField(input);
    var ibgeUf := OptionalText(input, IbgeUfKey);
    var ibgeMun := OptionalText(input, IbgeMunKey);
    if uf.None? then Invalid(UfKey)
    else if ibgeUf.Invalid? then Invalid(IbgeUfKey)
    else if ibgeMun.Invalid? then Invalid(IbgeMunKey)
    else
      Ok(Region(
        uf.value,
        if MunicipioKey in input then StripOrNone(input[MunicipioKey]) else None,
        ibgeUf.value,
        ibgeMun.value))
  }

  /**
   * A region is built exactly when the state code is given, not `None`, and
   * at least two characters long once stripped, and the IBGE codes are text
   * or `None`; a shorter code is rejected on `uf`.
   */
  lemma MakeRegionAccepts(input: map<string, Value>)
    ensures MakeRegion(input).Ok? <==>
      UfKey in input && !input[UfKey].VNone? && |Strip(Str(input[UfKey]))| >= 2
      && (IbgeUfKey !in input || input[IbgeUfKey].VNone? || input[IbgeUfKey].VStr?)
      && (IbgeMunKey !in input || input[IbgeMunKey].VNone? || input[IbgeMunKey].VStr?)
    ensures UfKey in input && |Strip(Str(input[UfKey]))| < 2 ==> MakeRegion(input) == Invalid(UfKey)
  {
  }

  /**
   * An accepted region's code is the first two characters of the stripped
   * text, upper-cased, and its town is stripped and non-blank.
   */
  lemma MakeRegionFields(input: map<string, Value>)
    requires MakeRegion(input).Ok?
    ensures var r := MakeRegion(input).value;
      var t := Strip(Str(input[UfKey]));
      |r.uf| == 2 && r.uf[0] == UpperChar(t[0]) && r.uf[1] == UpperChar(t[1])
    ensures var r := MakeRegion(input).value;
      r.municipio.Some? ==> r.municipio.value != "" && IsStripped(r.municipio.value)
  {
    MakeRegionAccepts(input);
  }

  /** The test's state code: `uf=" pa "` becomes `"PA"`. */
  lemma UfExample()
    ensures UfCode(" " + "pa" + " ") == "PA"
  {
    assert "pa" == ['p', 'a'];
    assert !IsSpace('p') && !IsSpace('a');
    UfCodeOfPadded('p', 'a');
    assert "PA" == [UpperChar('p'), UpperChar('a')];
  }
}
