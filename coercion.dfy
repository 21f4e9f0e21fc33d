/**
 * Per-kind coercion of one raw invocation argument against one placeholder
 * definition. The same rules run for path placeholders (the result is spliced
 * into the address as text) and for value placeholders (the result becomes one
 * entry of the value list handed to the sender).
 */
module Coercion {
  import opened Wrappers
  import opened Text
  import opened PyValues
  import opened Templates

  /** The outcome of coercing one argument. */
  datatype Resolved =
    | AsInt(n: int)        // kind I: the number truncated toward zero
    | AsReal(x: real)      // kind F: the number with its fraction
    | AsText(s: string)    // kinds B, A, S and every other kind
    | Fallback(s: string)  // the conversion raised: `str(raw)` is used and an error is logged

  /** The lower-cased texts that make a truthy argument read as false. */
  const FalseWords: set<string> := {"false", "0", "no"}

  /** The modifier field: the seventh field when there are more than six, else none (empty). */
  function Modifier(parts: seq<string>): string {
    if |parts| > 6 then parts[6] else ""
  }

  /**
   * Applies a modifier `*k`, `/k`, `+k` or `-k` to `v`, chosen by its first
   * character; any other modifier leaves `v` alone. `None` when `k` does not
   * parse or when dividing by zero.
   */
  function ApplyModifier(v: real, modifier: string): Option<real> {
    if modifier == "" || !IsOperator(modifier[0]) then Some(v)
    else
      match ParseDecimal(modifier[1..])
      case None => None
      case Some(k) => ApplyOperator(v, modifier[0], k)
  }

  predicate IsOperator(c: char) {
    c == '*' || c == '/' || c == '+' || c == '-'
  }

  /** The arithmetic of an operator modifier; `None` for a division by zero. */
  function ApplyOperator(v: real, op: char, k: real): Option<real>
    requires IsOperator(op)
  {
    if op == '*' then Some(v * k)
    else if op == '/' then (if k == 0.0 then None else Some(v / k))
    else if op == '+' then Some(v + k)
    else Some(v - k)
  }

  /** Kinds I and F: parse the argument as a number first, then apply the modifier. */
  function NumberOf(parts: seq<string>, raw: Value): Option<real> {
    match PyFloat(raw)
    case None => None
    case Some(v) => ApplyModifier(v, Modifier(parts))
  }

  /** Kind B: the argument is truthy and its lower-cased text is not a false word. */
  predicate BoolOf(raw: Value) {
    Truthy(raw) && Lower(Str(raw)) !in FalseWords
  }

  /**
   * Kind A: the fourth field split on `;` gives the options; the argument,
   * read as an int, indexes them (negative indices count from the end) and the
   * chosen option is stripped.
   */
  function OptionOf(parts: seq<string>, raw: Value): Option<string> {
    if |parts| <= 3 then None
    else
      var options := SplitOn(parts[3], ";");
      match PyInt(raw)
      case None => None
      case Some(i) =>
        match PyIndex(|options|, i)
        case None => None
        case Some(k) => Some(Strip(options[k]))
  }

  /** Coerces `raw` against the fields of a definition. */
  function ResolveFields(parts: seq<string>, raw: Value): Resolved
    requires |parts| >= 1
  {
    var kind := parts[0];
    if kind == "I" || kind == "F" then
      match NumberOf(parts, raw)
      case None => Fallback(Str(raw))
      case Some(v) => if kind == "I" then AsInt(Trunc(v)) else AsReal(v)
    else if kind == "B" then AsText(if BoolOf(raw) then "True" else "False")
    else if kind == "A" then
      match OptionOf(parts, raw)
      case None => Fallback(Str(raw))
      case Some(o) => AsText(o)
    else AsText(Str(raw))  // kind S, and every kind without a rule of its own
  }

  /** Coerces `raw` against the definition `ddef` (the text between the braces). */
  function Resolve(ddef: string, raw: Value): Resolved {
    ResolveFields(Fields(ddef), raw)
  }

  /** The text spliced into the address: `str(int(v))` for I, `str(v)` for F. */
  function PathText(r: Resolved): string {
    match r
    case AsInt(n) => IntToString(n)
    case AsReal(x) => FormatReal(x)
    case AsText(s) => s
    case Fallback(s) => s
  }

  /** The entry appended to the value list: an int for I, a float for F, text otherwise. */
  function SendValue(r: Resolved): Value {
    match r
    case AsInt(n) => VInt(n)
    case AsReal(x) => VReal(x)
    case AsText(s) => VStr(s)
    case Fallback(s) => VStr(s)
  }

  // ---------------------------------------------------------------------
  // Properties
  // ---------------------------------------------------------------------

  /** Coercion never aborts: a failed conversion substitutes the argument's own text. */
  lemma FallbackIsRawText(parts: seq<string>, raw: Value)
    requires |parts| >= 1
    ensures ResolveFields(parts, raw).Fallback? ==> ResolveFields(parts, raw).s == Str(raw)
    ensures ResolveFields(parts, raw).Fallback? ==> parts[0] in {"I", "F", "A"}
    ensures PathText(ResolveFields(parts, raw)) == Str(raw) || !ResolveFields(parts, raw).Fallback?
  {
  }

  /**
   * The modifier is applied to the parsed number, by its first character; it
   * comes only from the seventh field.
   */
  lemma ModifierAfterParse(parts: seq<string>, raw: Value, v: real, op: char, k: real)
    requires |parts| > 6 && |parts[6]| > 0 && parts[6][0] == op
    requires PyFloat(raw) == Some(v) && ParseDecimal(parts[6][1..]) == Some(k)
    ensures op == '*' ==> NumberOf(parts, raw) == Some(v * k)
    ensures op == '/' ==> NumberOf(parts, raw) == (if k == 0.0 then None else Some(v / k))
    ensures op == '+' ==> NumberOf(parts, raw) == Some(v + k)
    ensures op == '-' ==> NumberOf(parts, raw) == Some(v - k)
    ensures !IsOperator(op) ==> NumberOf(parts, raw) == Some(v)
  {
    var m := parts[6];
    assert NumberOf(parts, raw) == ApplyModifier(v, m);
    if IsOperator(op) {
      assert ApplyModifier(v, m) == ApplyOperator(v, op, k);
    }
  }

  /** With six fields or fewer there is no modifier: the number is the argument's value. */
  lemma NoSeventhFieldNoModifier(parts: seq<string>, raw: Value)
    requires 1 <= |parts| <= 6
    ensures NumberOf(parts, raw) == PyFloat(raw)
  {
    match PyFloat(raw)
    case None =>
    case Some(v) =>
  }

  /** Kind I truncates toward zero (Python's `int`), kind F keeps the fraction. */
  lemma NumericKinds(parts: seq<string>, raw: Value, v: real)
    requires |parts| >= 1 && NumberOf(parts, raw) == Some(v)
    ensures parts[0] == "F" ==> ResolveFields(parts, raw) == AsReal(v)
    ensures parts[0] == "I" ==> ResolveFields(parts, raw).AsInt?
    ensures parts[0] == "I" && v >= 0.0 ==> ResolveFields(parts, raw).n as real <= v < ResolveFields(parts, raw).n as real + 1.0
    ensures parts[0] == "I" && v < 0.0 ==> ResolveFields(parts, raw).n as real - 1.0 < v <= ResolveFields(parts, raw).n as real
  {
  }

  /** `"10"` with the modifier `*2` is the number 20. */
  lemma ScaledNumberExample(parts: seq<string>)
    requires |parts| > 6 && parts[6] == "*2"
    ensures NumberOf(parts, VStr("10")) == Some(20.0)
  {
    assert ParseDecimal("10") == Some(10.0) by {
      assert NatToString(1) == "1" && NatToString(10) == "10";
      ParseDecimalOfInt(10);
    }
    assert ParseDecimal("2") == Some(2.0) by {
      assert IntToString(2) == "2";
      ParseDecimalOfInt(2);
    }
    assert "*2"[1..] == "2";
  }

  /** `"10"` with `*2`: 20.0 for kind F, 20 for kind I; parsing comes before the modifier. */
  lemma ScaledArgumentExample()
    ensures ResolveFields(["F", "Level", "0", "0", "100", "%", "*2"], VStr("10")) == AsReal(20.0)
    ensures ResolveFields(["I", "Level", "0", "0", "100", "", "*2"], VStr("10")) == AsInt(20)
  {
    ScaledNumberExample(["F", "Level", "0", "0", "100", "%", "*2"]);
    ScaledNumberExample(["I", "Level", "0", "0", "100", "", "*2"]);
    assert Trunc(20.0) == 20;
  }

  /** The texts spliced into an address: `str(20.0)` is "20.0", `str(int(20.0))` is "20". */
  lemma PathTextExample()
    ensures PathText(AsReal(20.0)) == "20.0" && PathText(AsInt(20)) == "20"
  {
    FormatIntegral(20);
    assert NatToString(20) == NatToString(2) + [DigitChar(0)];
  }

  /** Kind I truncates toward zero: -2.5 becomes -2, where rounding down would give -3. */
  lemma TruncationExample()
    ensures ResolveFields(["I", "x"], VReal(-2.5)) == AsInt(-2)
    ensures ResolveFields(["I", "x"], VReal(2.5)) == AsInt(2)
  {
  }

  /**
   * Kind B yields "True" or "False"; for a text argument it is "False" exactly
   * when the text is empty or lower-cases to "false", "0" or "no".
   */
  lemma BoolCoercion(parts: seq<string>, s: string)
    requires |parts| >= 1 && parts[0] == "B"
    ensures ResolveFields(parts, VStr(s)) in {AsText("True"), AsText("False")}
    ensures ResolveFields(parts, VStr(s)) == AsText("False") <==> s == "" || Lower(s) in FalseWords
  {
  }

  lemma BoolCoercionExamples(parts: seq<string>)
    requires |parts| >= 1 && parts[0] == "B"
    ensures ResolveFields(parts, VStr("0")) == AsText("False")
    ensures ResolveFields(parts, VStr("FALSE")) == AsText("False")
    ensures ResolveFields(parts, VStr("1")) == AsText("True")
    ensures ResolveFields(parts, VBool(true)) == AsText("True")
    ensures ResolveFields(parts, VInt(0)) == AsText("False")
  {
    assert Lower("0") == "0";
    assert Lower("FALSE") == "false";
    assert Lower("1") == "1";
    assert Lower("True") == "true";
  }

  /**
   * Kind A picks the stripped option at the argument's index; a missing options
   * field, an argument that is not an int, or an index out of range falls back
   * to the argument's text.
   */
  lemma ArrayCoercion(parts: seq<string>, raw: Value)
    requires |parts| >= 1 && parts[0] == "A"
    ensures ResolveFields(parts, raw).Fallback? <==>
      |parts| <= 3 || PyInt(raw).None? || PyIndex(|SplitOn(parts[3], ";")|, PyInt(raw).value).None?
    ensures !ResolveFields(parts, raw).Fallback? ==>
      var options := SplitOn(parts[3], ";");
      var k := PyIndex(|options|, PyInt(raw).value).value;
      ResolveFields(parts, raw) == AsText(Strip(options[k]))
  {
  }

  /** Kind S and kinds without a rule of their own pass the argument's text through. */
  lemma TextKinds(parts: seq<string>, raw: Value)
    requires |parts| >= 1 && parts[0] !in {"I", "F", "B", "A"}
    ensures ResolveFields(parts, raw) == AsText(Str(raw))
  {
  }
}
