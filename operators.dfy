/**
 * The requirement operators of the eligibility engine: numeric coercion,
 * list membership, case-insensitive containment and the operator dispatch
 * shared, letter for letter, by the automatic and the manual result pages.
 */
module Operators {
  import opened PyStr
  import opened PyValue
  import opened PyFloat

  /**
   * `bool(re.compile(pattern).search(text))`, false when the pattern does not
   * compile. Regular expressions are outside the model, so the matcher is a
   * parameter: its first argument is the pattern, its second the text.
   */
  type RegexSearch = (string, string) -> bool

  /** `_coerce_numeric`: `float(x)`, or nothing when it raises. */
  function CoerceNumeric(x: Value): (r: Option<Num>)
    ensures x.VNone? || x.VList? || x.VDict? ==> r.None?
    ensures x.VInt? ==> r == Some(Fin(x.i as real))
    ensures x.VStr? ==> r == ParseFloat(x.s)
  {
    FloatOf(x)
  }

  /** The separators of a list written in one cell: `,`, `;` and `|`. */
  const ListSeparators: set<char> := {',', ';', '|'}

  /** The items of a cell such as `"pesca; aquicultura | extrativismo"`. */
  function ListItems(s: string): seq<string>
  {
    StripNonEmpty(SplitChars(s, ListSeparators))
  }

  /** Every item is non-empty, trimmed and free of separators. */
  lemma ListItemsShape(s: string)
    ensures forall p :: p in ListItems(s) ==> p != "" && IsStripped(p)
    ensures forall p :: p in ListItems(s) ==> forall c :: c in p ==> c !in ListSeparators
  {
    var parts := SplitChars(s, ListSeparators);
    SplitCharsPieces(s, ListSeparators);
    StripNonEmptyItems(parts);
    StripNonEmptyAvoids(parts, ListSeparators);
  }

  /** `_value_in(left, right)` */
  predicate ValueIn(left: Value, right: Value)
  {
    match right
    case VList(items) => exists k :: 0 <= k < |items| && PyEq(left, items[k])
    case VStr(s) => Str(left) in ListItems(s)
    case _ => false
  }

  /** `_contains_text(container, needle)` */
  predicate ContainsText(container: Value, needle: string)
    decreases container
  {
    match container
    case VNone => false
    case VStr(s) => Contains(Lower(s), Lower(needle))
    case VList(items) => exists k :: 0 <= k < |items| && ContainsText(items[k], needle)
    case _ => Contains(Lower(Str(container)), Lower(needle))
  }

  // The operator spellings, after trimming and lower-casing.
  const EqOps: set<string> := {"==", "=", "eq"}
  const NeOps: set<string> := {"!=", "<>", "ne"}
  const GeOps: set<string> := {">=", "ge"}
  const LeOps: set<string> := {"<=", "le"}
  const GtOps: set<string> := {">", "gt"}
  const LtOps: set<string> := {"<", "lt"}
  const InOps: set<string> := {"in", "∈"}
  const NotInOps: set<string> := {"not in", "∉"}
  const ContainsOps: set<string> := {"contains", "has", "∋"}
  const NotContainsOps: set<string> := {"not contains", "!contains"}
  const RegexOps: set<string> := {"regex", "match"}

  /** A spelling of one of the four numeric comparators. */
  predicate IsNumericOp(t: string)
  {
    t in GeOps || t in LeOps || t in GtOps || t in LtOps
  }

  /** A spelling the dispatch recognises at all. */
  predicate IsKnownOp(t: string)
  {
    t in EqOps || t in NeOps || IsNumericOp(t) || t in InOps || t in NotInOps ||
    t in ContainsOps || t in NotContainsOps || t in RegexOps
  }

  /** The operator token as the dispatch sees it. */
  function OpToken(operator: string): string
  {
    Lower(Strip(operator))
  }

  /** The group an operator token belongs to; the groups are pairwise disjoint. */
  datatype OpKind = Eq | Ne | Ge | Le | Gt | Lt | In | NotIn | Has | NotHas | Regex | Unknown

  function Classify(t: string): OpKind
  {
    if t in EqOps then Eq
    else if t in NeOps then Ne
    else if t in GeOps then Ge
    else if t in LeOps then Le
    else if t in GtOps then Gt
    else if t in LtOps then Lt
    else if t in InOps then In
    else if t in NotInOps then NotIn
    else if t in ContainsOps then Has
    else if t in NotContainsOps then NotHas
    else if t in RegexOps then Regex
    else Unknown
  }

  /** Each kind is exactly the token set the source tests for it. */
  lemma ClassifyComparisons(t: string)
    ensures Classify(t) == Eq <==> t in EqOps
    ensures Classify(t) == Ne <==> t in NeOps
    ensures Classify(t) == Ge <==> t in GeOps
    ensures Classify(t) == Le <==> t in LeOps
    ensures Classify(t) == Gt <==> t in GtOps
    ensures Classify(t) == Lt <==> t in LtOps
  {
  }

  lemma ClassifyTextual(t: string)
    ensures Classify(t) == In <==> t in InOps
    ensures Classify(t) == NotIn <==> t in NotInOps
    ensures Classify(t) == Has <==> t in ContainsOps
    ensures Classify(t) == NotHas <==> t in NotContainsOps
    ensures Classify(t) == Regex <==> t in RegexOps
  {
  }

  lemma ClassifyUnknown(t: string)
    ensures Classify(t) == Unknown <==> !IsKnownOp(t)
  {
    ClassifyComparisons(t);
    ClassifyTextual(t);
  }

  /**
   * `_eval_operator(attr_value, operator, expected)`. The source tests the
   * groups in this order; a numeric comparator applies only when both sides
   * coerce, and otherwise the dispatch falls through the remaining groups,
   * none of which can match (they are disjoint), to `False`.
   */
  predicate EvalOperator(attr: Value, operator: string, expected: Value, rx: RegexSearch)
  {
    Apply(Classify(OpToken(operator)), attr, expected, rx)
  }

  predicate Apply(k: OpKind, attr: Value, expected: Value, rx: RegexSearch)
  {
    match k
    case Eq => Str(attr) == Str(expected)
    case Ne => Str(attr) != Str(expected)
    case Ge => Compare(attr, expected, Ge)
    case Le => Compare(attr, expected, Le)
    case Gt => Compare(attr, expected, Gt)
    case Lt => Compare(attr, expected, Lt)
    case In => ValueIn(attr, expected)
    case NotIn => !ValueIn(attr, expected)
    case Has => ContainsText(attr, Str(expected))
    case NotHas => !ContainsText(attr, Str(expected))
    case Regex => rx(Str(expected), Str(attr))
    case Unknown => false
  }

  /** A numeric comparison of kind `k`: false unless both sides coerce. */
  predicate Compare(attr: Value, expected: Value, k: OpKind)
  {
    var lv := CoerceNumeric(attr);
    var rv := CoerceNumeric(expected);
    lv.Some? && rv.Some? &&
    match k
    case Ge => NumLe(rv.value, lv.value)
    case Le => NumLe(lv.value, rv.value)
    case Gt => NumLt(rv.value, lv.value)
    case Lt => NumLt(lv.value, rv.value)
    case _ => false
  }

  // ---------------------------------------------------------------------
  // Properties of the dispatch
  // ---------------------------------------------------------------------

  /** The four numeric kinds. */
  predicate IsNumericKind(k: OpKind)
  {
    k == Ge || k == Le || k == Gt || k == Lt
  }

  /** A numeric kind dispatches to the numeric comparison. */
  lemma ApplyNumeric(k: OpKind, attr: Value, expected: Value, rx: RegexSearch)
    requires IsNumericKind(k)
    ensures Apply(k, attr, expected, rx) == Compare(attr, expected, k)
  {
  }

  /** Equality compares the string forms. */
  lemma EqComparesText(attr: Value, operator: string, expected: Value, rx: RegexSearch)
    requires OpToken(operator) in EqOps
    ensures EvalOperator(attr, operator, expected, rx) <==> Str(attr) == Str(expected)
  {
    ClassifyComparisons(OpToken(operator));
  }

  /** Any inequality spelling is the exact negation of any equality spelling. */
  lemma NeIsNotEq(attr: Value, eq: string, ne: string, expected: Value, rx: RegexSearch)
    requires OpToken(eq) in EqOps && OpToken(ne) in NeOps
    ensures EvalOperator(attr, ne, expected, rx) == !EvalOperator(attr, eq, expected, rx)
  {
    ClassifyComparisons(OpToken(eq));
    ClassifyComparisons(OpToken(ne));
  }

  /** A numeric comparison with a side that does not coerce is false. */
  lemma NumericNeedsNumbers(attr: Value, operator: string, expected: Value, rx: RegexSearch)
    requires IsNumericOp(OpToken(operator))
    requires CoerceNumeric(attr).None? || CoerceNumeric(expected).None?
    ensures !EvalOperator(attr, operator, expected, rx)
  {
    ClassifyComparisons(OpToken(operator));
    ApplyNumeric(Classify(OpToken(operator)), attr, expected, rx);
  }

  /** Integer comparisons mean what they say. */
  lemma IntegerComparisons(a: int, b: int, operator: string, rx: RegexSearch)
    requires IsNumericOp(OpToken(operator))
    ensures OpToken(operator) in GeOps ==> (EvalOperator(VInt(a), operator, VInt(b), rx) <==> a >= b)
    ensures OpToken(operator) in LeOps ==> (EvalOperator(VInt(a), operator, VInt(b), rx) <==> a <= b)
    ensures OpToken(operator) in GtOps ==> (EvalOperator(VInt(a), operator, VInt(b), rx) <==> a > b)
    ensures OpToken(operator) in LtOps ==> (EvalOperator(VInt(a), operator, VInt(b), rx) <==> a < b)
  {
    var k := Classify(OpToken(operator));
    ClassifyComparisons(OpToken(operator));
    CompareIntegers(k, a, b);
    ApplyNumeric(k, VInt(a), VInt(b), rx);
  }

  /** Two integers compare as integers. */
  lemma CompareIntegers(k: OpKind, a: int, b: int)
    requires IsNumericKind(k)
    ensures Compare(VInt(a), VInt(b), k) <==>
      match k
      case Ge => a >= b
      case Le => a <= b
      case Gt => a > b
      case _ => a < b
  {
    NumLeFinite(a as real, b as real);
    NumLeFinite(b as real, a as real);
  }

  /** A profile number against a threshold written as text in the spreadsheet. */
  lemma IntegerAgainstText(a: int, b: int, operator: string, rx: RegexSearch)
    requires OpToken(operator) in GeOps
    ensures EvalOperator(VInt(a), operator, VStr(IntToStr(b)), rx) <==> a >= b
  {
    assert Classify(OpToken(operator)) == Ge by {
      ClassifyComparisons(OpToken(operator));
    }
    GeAgainstText(a, b, rx);
  }

  lemma GeAgainstText(a: int, b: int, rx: RegexSearch)
    ensures Apply(Ge, VInt(a), VStr(IntToStr(b)), rx) <==> a >= b
  {
    ApplyNumeric(Ge, VInt(a), VStr(IntToStr(b)), rx);
    FloatOfIntText(b);
    NumLeFinite(b as real, a as real);
  }

  /** NaN (an empty cell) satisfies no numeric comparison. */
  lemma NaNComparesFalse(attr: Value, operator: string, expected: Value, rx: RegexSearch)
    requires IsNumericOp(OpToken(operator))
    requires attr.VNaN? || expected.VNaN?
    ensures !EvalOperator(attr, operator, expected, rx)
  {
    var k := Classify(OpToken(operator));
    ClassifyComparisons(OpToken(operator));
    ApplyNumeric(k, attr, expected, rx);
    NaNNoOrder(attr, expected, k);
  }

  lemma NaNNoOrder(attr: Value, expected: Value, k: OpKind)
    requires attr.VNaN? || expected.VNaN?
    ensures !Compare(attr, expected, k)
  {
    if CoerceNumeric(attr).Some? && CoerceNumeric(expected).Some? {
      NaNIncomparable(CoerceNumeric(attr).value);
      NaNIncomparable(CoerceNumeric(expected).value);
    }
  }

  /** `in` against text tests `str(actual)` among the cell's items. */
  lemma InAgainstText(attr: Value, operator: string, expected: Value, rx: RegexSearch)
    requires OpToken(operator) in InOps && expected.VStr?
    ensures EvalOperator(attr, operator, expected, rx) <==> Str(attr) in ListItems(expected.s)
  {
    assert Classify(OpToken(operator)) == In by {
      ClassifyTextual(OpToken(operator));
    }
    ApplyIn(attr, expected, rx);
    ValueInText(attr, expected);
  }

  lemma ApplyIn(attr: Value, expected: Value, rx: RegexSearch)
    ensures Apply(In, attr, expected, rx) <==> ValueIn(attr, expected)
  {
  }

  lemma ValueInText(attr: Value, expected: Value)
    requires expected.VStr?
    ensures ValueIn(attr, expected) <==> Str(attr) in ListItems(expected.s)
  {
  }

  /** `not in` against text is the negation of `in`. */
  lemma NotInNegates(attr: Value, i: string, ni: string, expected: Value, rx: RegexSearch)
    requires OpToken(i) in InOps && OpToken(ni) in NotInOps
    ensures EvalOperator(attr, ni, expected, rx) == !EvalOperator(attr, i, expected, rx)
  {
    ClassifyTextual(OpToken(i));
    ClassifyTextual(OpToken(ni));
  }

  /** Membership against anything but a list or text is false, so `not in` holds. */
  lemma InAgainstOther(attr: Value, operator: string, expected: Value, rx: RegexSearch)
    requires OpToken(operator) in InOps || OpToken(operator) in NotInOps
    requires !expected.VList? && !expected.VStr?
    ensures EvalOperator(attr, operator, expected, rx) <==> OpToken(operator) in NotInOps
  {
    ClassifyTextual(OpToken(operator));
  }

  /** `contains` tests containment of `str(expected)`; `not contains` is its negation. */
  lemma NotContainsNegates(attr: Value, c: string, nc: string, expected: Value, rx: RegexSearch)
    requires OpToken(c) in ContainsOps && OpToken(nc) in NotContainsOps
    ensures EvalOperator(attr, c, expected, rx) == ContainsText(attr, Str(expected))
    ensures EvalOperator(attr, nc, expected, rx) == !EvalOperator(attr, c, expected, rx)
  {
    ClassifyTextual(OpToken(c));
    ClassifyTextual(OpToken(nc));
  }

  /** A missing value contains nothing; a list contains what one of its elements contains. */
  lemma ContainsCases(items: seq<Value>, s: string, needle: string)
    ensures !ContainsText(VNone, needle)
    ensures ContainsText(VStr(s), needle) <==> Contains(Lower(s), Lower(needle))
    ensures ContainsText(VList(items), needle) <==> exists k :: 0 <= k < |items| && ContainsText(items[k], needle)
  {
  }

  /** Containment ignores case on both sides. */
  lemma ContainsIgnoresCase(s: string, needle: string)
    ensures ContainsText(VStr(Lower(s)), needle) <==> ContainsText(VStr(s), needle)
    ensures ContainsText(VStr(s), Lower(needle)) <==> ContainsText(VStr(s), needle)
  {
    LowerIdempotent(s);
    LowerIdempotent(needle);
  }

  /** The regular-expression operators consult the matcher with the pattern first. */
  lemma RegexDelegates(attr: Value, operator: string, expected: Value, rx: RegexSearch)
    requires OpToken(operator) in RegexOps
    ensures EvalOperator(attr, operator, expected, rx) == rx(Str(expected), Str(attr))
  {
    ClassifyTextual(OpToken(operator));
  }

  /** An unknown operator is never satisfied. */
  lemma UnknownIsFalse(attr: Value, operator: string, expected: Value, rx: RegexSearch)
    requires !IsKnownOp(OpToken(operator))
    ensures !EvalOperator(attr, operator, expected, rx)
  {
    ClassifyUnknown(OpToken(operator));
  }

  /** Trimming and lower-casing the token again changes nothing. */
  lemma OpTokenIdempotent(operator: string)
    ensures OpToken(OpToken(operator)) == OpToken(operator)
  {
    var t := Strip(operator);
    LowerStripped(t);
    StripOfStripped(Lower(t));
    LowerIdempotent(t);
  }

  /** Only the trimmed, lower-cased spelling of the operator matters. */
  lemma SpellingIrrelevant(attr: Value, operator: string, expected: Value, rx: RegexSearch)
    ensures EvalOperator(attr, operator, expected, rx) == EvalOperator(attr, OpToken(operator), expected, rx)
  {
    OpTokenIdempotent(operator);
  }
}
