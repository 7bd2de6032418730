/**
 * The Python values the application moves around (JSON-like profile values and
 * spreadsheet cells): `str()`, truthiness, `==` and `float()`.
 */
module PyValue {
  import opened PyStr
  import opened PyFloat

  /**
   * A Python value. `VNaN` is the float NaN pandas uses for an empty cell;
   * `VDict` keeps insertion order, as Python dicts do.
   */
  datatype Value =
    | VNone
    | VNaN
    | VBool(b: bool)
    | VInt(i: int)
    | VStr(s: string)
    | VList(items: seq<Value>)
    | VDict(entries: seq<(string, Value)>)

  /** `str(v)` */
  function Str(v: Value): string
    decreases v, 0
  {
    match v
    case VNone => "None"
    case VNaN => "nan"
    case VBool(b) => if b then "True" else "False"
    case VInt(i) => IntToStr(i)
    case VStr(s) => s
    case VList(items) =>
      "[" + Join(seq(|items|, k requires 0 <= k < |items| => Repr(items[k])), ", ") + "]"
    case VDict(entries) =>
      "{" + Join(seq(|entries|, k requires 0 <= k < |entries| =>
                   "'" + entries[k].0 + "': " + Repr(entries[k].1)), ", ") + "}"
  }

  /** `repr(v)` as used inside container displays (strings in single quotes). */
  function Repr(v: Value): string
    decreases v, 1
  {
    if v.VStr? then "'" + v.s + "'" else Str(v)
  }

  /** `bool(v)`: NaN is truthy, empty containers and zero are not. */
  predicate Truthy(v: Value)
  {
    match v
    case VNone => false
    case VNaN => true
    case VBool(b) => b
    case VInt(i) => i != 0
    case VStr(s) => s != ""
    case VList(items) => items != []
    case VDict(entries) => entries != []
  }

  /** `a or b` */
  function Or(a: Value, b: Value): (r: Value)
    ensures Truthy(a) ==> r == a
    ensures !Truthy(a) ==> r == b
  {
    if Truthy(a) then a else b
  }

  /** The integer a bool or int stands for in arithmetic comparisons. */
  function AsInt(v: Value): Option<int>
  {
    match v
    case VBool(b) => Some(if b then 1 else 0)
    case VInt(i) => Some(i)
    case _ => None
  }

  /** Python `==` (`True == 1`, NaN equal to nothing, containers element by element). */
  predicate PyEq(a: Value, b: Value)
    decreases a
  {
    if AsInt(a).Some? || AsInt(b).Some? then AsInt(a).Some? && AsInt(a) == AsInt(b)
    else match a
      case VNone => b.VNone?
      case VNaN => false
      case VStr(s) => b.VStr? && b.s == s
      case VList(xs) =>
        b.VList? && |xs| == |b.items| && forall k :: 0 <= k < |xs| ==> PyEq(xs[k], b.items[k])
      case VDict(es) =>
        // the same keys, each mapped to equal values, in whatever order they were inserted
        b.VDict?
        && (forall k :: 0 <= k < |b.entries| ==> DictGet(es, b.entries[k].0).Some?)
        && (forall k :: 0 <= k < |es| ==>
              DictGet(b.entries, es[k].0).Some?
              && (DictGet(es, es[k].0) == Some(es[k].1) ==> PyEq(es[k].1, DictGet(b.entries, es[k].0).value)))
      case _ => false
  }

  /** Dict equality ignores insertion order: `{"a": 1, "b": 2} == {"b": 2, "a": 1}`. */
  lemma DictEqIgnoresOrder()
    ensures PyEq(VDict([("a", VInt(1)), ("b", VInt(2))]), VDict([("b", VInt(2)), ("a", VInt(1))]))
    ensures !PyEq(VDict([("a", VInt(1))]), VDict([("a", VInt(1)), ("b", VInt(2))]))
  {
    var x := [("a", VInt(1)), ("b", VInt(2))];
    var y := [("b", VInt(2)), ("a", VInt(1))];
    assert DictGet(x, "a") == Some(VInt(1));
    assert DictGet(x, "b") == Some(VInt(2)) by { assert x[1..] == [("b", VInt(2))]; }
    assert DictGet(y, "b") == Some(VInt(2));
    assert DictGet(y, "a") == Some(VInt(1)) by { assert y[1..] == [("a", VInt(1))]; }
    assert PyEq(VInt(1), VInt(1)) && PyEq(VInt(2), VInt(2));
    var z := [("a", VInt(1))];
    assert DictGet(z, "b").None? by { assert z[1..] == []; }
  }

  /** `d.get(k)` on a dict's entries (first entry with that key). */
  function DictGet(entries: seq<(string, Value)>, k: string): (r: Option<Value>)
    ensures r.Some? <==> exists i :: 0 <= i < |entries| && entries[i].0 == k
    decreases |entries|
  {
    if |entries| == 0 then None
    else if entries[0].0 == k then Some(entries[0].1)
    else DictGet(entries[1..], k)
  }

  // ---------------------------------------------------------------------
  // float()
  // ---------------------------------------------------------------------

  /** `float(v)`, or nothing where Python raises (None, containers, malformed text). */
  function FloatOf(v: Value): (r: Option<Num>)
    ensures v.VNone? || v.VList? || v.VDict? ==> r.None?
    ensures v.VInt? ==> r == Some(Fin(v.i as real))
    ensures v.VBool? ==> r == Some(Fin(if v.b then 1.0 else 0.0))
  {
    match v
    case VNone => None
    case VNaN => Some(NaN)
    case VBool(b) => Some(Fin(if b then 1.0 else 0.0))
    case VInt(i) => Some(Fin(i as real))
    case VStr(s) => ParseFloat(s)
    case VList(_) => None
    case VDict(_) => None
  }

  /** `float(str(i)) == i`: the text of an integer reads back as that number. */
  lemma FloatOfIntText(i: int)
    ensures FloatOf(VStr(IntToStr(i))) == Some(Fin(i as real))
  {
    FloatOfIntegerText(i);
  }
}
