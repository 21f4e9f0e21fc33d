/**
 * The Python values that reach the OSC library from the host (action
 * parameter values, received arguments) and the built-in conversions the
 * library applies to them: truthiness, `str(v)`, `int(v)`, `float(v)` and
 * list indexing with negative indices.
 */
module PyValues {
  import opened Wrappers
  import opened Text

  /** A Python value: int, float (as an exact real), bool, str, None, list or tuple. */
  datatype Value =
    | VInt(n: int)
    | VReal(x: real)
    | VBool(b: bool)
    | VStr(s: string)
    | VNone
    | VList(items: seq<Value>)
    | VTuple(items: seq<Value>)

  /** A list or a tuple: the values that can be indexed and iterated. */
  predicate IsSequence(v: Value) {
    v.VList? || v.VTuple?
  }

  /** `bool(v)`. */
  predicate Truthy(v: Value) {
    match v
    case VInt(n) => n != 0
    case VReal(x) => x != 0.0
    case VBool(b) => b
    case VStr(s) => |s| > 0
    case VNone => false
    case VList(items) => |items| > 0
    case VTuple(items) => |items| > 0
  }

  /** `str(v)`. */
  function Str(v: Value): string
    decreases v, 3
  {
    match v
    case VInt(n) => IntToString(n)
    case VReal(x) => FormatReal(x)
    case VBool(b) => if b then "True" else "False"
    case VStr(s) => s
    case VNone => "None"
    case VList(items) => "[" + ReprItems(v, 0) + "]"
    case VTuple(items) => "(" + ReprItems(v, 0) + (if |items| == 1 then ",)" else ")")
  }

  /** `repr(v)`: strings are quoted, everything else prints as `str(v)`. */
  function Repr(v: Value): string
    decreases v, 4
  {
    if v.VStr? then "'" + v.s + "'" else Str(v)
  }

  /** `", ".join(repr(x) for x in items[i:])` for a list or tuple value. */
  function ReprItems(v: Value, i: nat): string
    requires IsSequence(v) && i <= |v.items|
    decreases v, 2, |v.items| - i
  {
    if i == |v.items| then ""
    else if i + 1 == |v.items| then Repr(v.items[i])
    else Repr(v.items[i]) + ", " + ReprItems(v, i + 1)
  }

  /** `int(v)`; `None` where Python raises. */
  function PyInt(v: Value): Option<int> {
    match v
    case VInt(n) => Some(n)
    case VReal(x) => Some(Trunc(x))
    case VBool(b) => Some(if b then 1 else 0)
    case VStr(s) => ParseInt(s)
    case VNone => None
    case _ => None
  }

  /** `float(v)`; `None` where Python raises. */
  function PyFloat(v: Value): Option<real> {
    match v
    case VInt(n) => Some(n as real)
    case VReal(x) => Some(x)
    case VBool(b) => Some(if b then 1.0 else 0.0)
    case VStr(s) => ParseDecimal(s)
    case VNone => None
    case _ => None
  }

  /** `v * 255` as a number, for the values on which Python's arithmetic yields a number. */
  function Numeric(v: Value): Option<real> {
    match v
    case VInt(n) => Some(n as real)
    case VReal(x) => Some(x)
    case VBool(b) => Some(if b then 1.0 else 0.0)
    case _ => None
  }

  /**
   * The position `xs[idx]` reads in a list of length `len`: negative indices
   * count from the end; `None` is Python's IndexError.
   */
  function PyIndex(len: nat, idx: int): (k: Option<nat>)
    ensures k.Some? <==> -(len as int) <= idx < len
    ensures k.Some? ==> k.value < len && (k.value == idx || k.value == len + idx)
  {
    if 0 <= idx < len then Some(idx)
    else if -(len as int) <= idx < 0 then Some(len + idx)
    else None
  }
}
