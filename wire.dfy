/**
 * The send side: the OSC type tags, the conversion of a raw value into OSC
 * arguments chosen by the tag, and the message that results. The model stops
 * at the (host, port, address, arguments) of the datagram; its byte encoding
 * is not modelled.
 */
module Wire {
  import opened Wrappers
  import opened Text
  import opened PyValues
  import opened Colour

  /** The type tags an action or event can name. */
  datatype OscType =
    | Int | Float | String | Blob | BigInt | TimeTag | Double | Char | Color
    | Midi | TrueBit | FalseBit | Bool | Nil | Infinitum | Bare | Mixed

  /** The tag letter of each type; `Bare` has the empty letter. */
  function Letter(t: OscType): (s: string)
    ensures |s| <= 1
    ensures s == "" <==> t == Bare
  {
    match t
    case Int => "i"
    case Float => "f"
    case String => "s"
    case Blob => "b"
    case BigInt => "h"
    case TimeTag => "t"
    case Double => "d"
    case Char => "c"
    case Color => "r"
    case Midi => "m"
    case TrueBit => "T"
    case FalseBit => "F"
    case Bool => "B"
    case Nil => "N"
    case Infinitum => "I"
    case Bare => ""
    case Mixed => "M"
  }

  /** What a caller passes as the type: an enum member, a plain string, or nothing. */
  datatype TypeArg = Enum(t: OscType) | Text(s: string) | NoType

  /**
   * The tag text `send` dispatches on: the enum's letter (the empty letter for
   * `Bare` included), a non-empty plain string as it is, and `None` for an
   * empty string or no type at all.
   */
  function TagOf(ta: TypeArg): (tag: Option<string>)
    ensures ta.Enum? ==> tag == Some(Letter(ta.t))
    ensures ta.Text? ==> (tag.None? <==> ta.s == "")
    ensures ta.NoType? ==> tag.None?
  {
    match ta
    case Enum(t) => Some(Letter(t))
    case Text(s) => if s == "" then None else Some(s)
    case NoType => None
  }

  /** One OSC argument. `ONil` is the `None` appended for tag N, which is never sent. */
  datatype Arg =
    | OInt(n: int)
    | OFloat(x: real)
    | OBool(b: bool)
    | OStr(s: string)
    | OBlob(text: string)   // the UTF-8 encoding of `text`
    | OInf
    | ONil

  /**
   * Tag `r`: a list or tuple whose first four items are numbers, packed as a
   * colour; anything else raises (an item that is not a number cannot be
   * scaled and compared).
   */
  function ColourOf(v: Value): Option<int> {
    if IsSequence(v) && |v.items| >= 4
       && Numeric(v.items[0]).Some? && Numeric(v.items[1]).Some?
       && Numeric(v.items[2]).Some? && Numeric(v.items[3]).Some?
    then Some(Pack(Numeric(v.items[0]).value, Numeric(v.items[1]).value,
                   Numeric(v.items[2]).value, Numeric(v.items[3]).value))
    else None
  }

  /**
   * The conversion of one value under a tag other than `M`; `None` where
   * Python raises. Tags without a rule of their own (the empty letter, `T`,
   * `F`, and any plain string) append `str(v)`.
   */
  function Convert(tag: string, v: Value): Option<Arg> {
    if tag == "i" || tag == "h" then
      (match PyInt(v) case None => None case Some(n) => Some(OInt(n)))
    else if tag == "f" || tag == "d" then
      (match PyFloat(v) case None => None case Some(x) => Some(OFloat(x)))
    else if tag == "B" then Some(OBool(v == VStr("True")))
    else if tag == "s" then Some(OStr(Str(v)))
    else if tag == "c" then Some(OStr(if Str(v) != "" then [Str(v)[0]] else "\0"))
    else if tag == "b" then Some(OBlob(Str(v)))
    else if tag == "r" then
      (match ColourOf(v) case None => None case Some(p) => Some(OInt(p)))
    else if tag == "m" || tag == "t" then
      (if !Truthy(v) then Some(OInt(0))
       else match PyInt(v) case None => None case Some(n) => Some(OInt(n)))
    else if tag == "N" then Some(ONil)
    else if tag == "I" then Some(OInf)
    else Some(OStr(Str(v)))
  }

  /** Tag `M` converts by the value's own type; a bool is an int, so it becomes 0 or 1. */
  function MixedArg(v: Value): (a: Arg)
    ensures a != ONil
  {
    match v
    case VInt(n) => OInt(n)
    case VBool(b) => OInt(if b then 1 else 0)
    case VReal(x) => OFloat(x)
    case VStr(s) => OStr(s)
    case _ => OStr(Str(v))
  }

  /** What `for val in raw` walks over for tag `M`: the items of a list or tuple, or a string's characters. */
  function MixedItems(raw: Value): (items: Option<seq<Value>>)
    ensures IsSequence(raw) ==> items == Some(raw.items)
    ensures raw.VStr? ==> (items.Some? && |items.value| == |raw.s| &&
      forall i :: 0 <= i < |raw.s| ==> items.value[i] == VStr([raw.s[i]]))
    ensures !IsSequence(raw) && !raw.VStr? ==> items.None?
  {
    match raw
    case VList(xs) => Some(xs)
    case VTuple(xs) => Some(xs)
    case VStr(s) => Some(seq(|s|, i requires 0 <= i < |s| => VStr([s[i]])))
    case _ => None
  }

  /** The inputs converted one by one: a list's items, or the single scalar (a tuple included). */
  function Inputs(raw: Value): (xs: seq<Value>)
    ensures raw.VList? ==> xs == raw.items
    ensures !raw.VList? ==> xs == [raw]
  {
    if raw.VList? then raw.items else [raw]
  }

  /** `[Convert(tag, x) for x in xs]`, `None` as soon as one conversion raises. */
  function ConvertAll(tag: string, xs: seq<Value>): (vals: Option<seq<Arg>>)
    ensures vals.Some? ==> |vals.value| == |xs|
    ensures vals.Some? ==> forall i :: 0 <= i < |xs| ==> Convert(tag, xs[i]) == Some(vals.value[i])
    ensures vals.None? ==> exists i :: 0 <= i < |xs| && Convert(tag, xs[i]).None?
  {
    if |xs| == 0 then Some([])
    else
      var init := ConvertAll(tag, xs[..|xs| - 1]);
      var last := Convert(tag, xs[|xs| - 1]);
      if init.None? then None
      else if last.None? then None
      else Some(init.value + [last.value])
  }

  /** The arguments actually added: none without a tag, otherwise every value but `ONil`. */
  function Added(tag: Option<string>, vals: seq<Arg>): (args: seq<Arg>)
    ensures tag.None? ==> args == []
    ensures tag.Some? ==> |args| <= |vals| && forall a :: a in args <==> a in vals && a != ONil
  {
    if tag.None? || |vals| == 0 then []
    else Added(tag, vals[..|vals| - 1]) + (if vals[|vals| - 1] == ONil then [] else [vals[|vals| - 1]])
  }

  /** The sender's configuration: destination and address prefix. */
  datatype Endpoint = Endpoint(host: string, port: int, prefix: string)

  /** One outgoing message, up to its encoding. */
  datatype Datagram = Datagram(host: string, port: int, address: string, args: seq<Arg>)

  /** `send` either emits a message or catches an exception and emits nothing. */
  datatype SendOutcome = Sent(msg: Datagram) | Failed

  /** The values `send` builds before filtering; `None` where it raises. */
  function Values(tag: Option<string>, raw: Value): Option<seq<Arg>> {
    if tag == Some("M") then
      match MixedItems(raw)
      case None => None
      case Some(xs) => Some(seq(|xs|, i requires 0 <= i < |xs| => MixedArg(xs[i])))
    else ConvertAll(if tag.Some? then tag.value else "", Inputs(raw))
  }

  /** `send(address, val_type, raw)` against the configuration `cfg`. */
  function SendSpec(cfg: Endpoint, address: string, ta: TypeArg, raw: Value): SendOutcome {
    var tag := TagOf(ta);
    match Values(tag, raw)
    case None => Failed
    case Some(vals) => Sent(Datagram(cfg.host, cfg.port, cfg.prefix + address, Added(tag, vals)))
  }

  // ---------------------------------------------------------------------
  // Properties
  // ---------------------------------------------------------------------

  /** A message goes to the configured host and port, at the prefix followed by the address. */
  lemma SendAddress(cfg: Endpoint, address: string, ta: TypeArg, raw: Value)
    requires SendSpec(cfg, address, ta, raw).Sent?
    ensures SendSpec(cfg, address, ta, raw).msg.host == cfg.host
    ensures SendSpec(cfg, address, ta, raw).msg.port == cfg.port
    ensures SendSpec(cfg, address, ta, raw).msg.address == cfg.prefix + address
  {
  }

  /**
   * Under a tag that is neither `M` nor `N`, a list gives one argument per
   * item, in order, and a scalar exactly one; the send fails exactly when one
   * conversion raises.
   */
  lemma {:induction false} SendShape(cfg: Endpoint, address: string, tag: string, raw: Value)
    requires tag != "" && tag != "M" && tag != "N"
    ensures var out := SendSpec(cfg, address, Text(tag), raw);
      (out.Failed? <==> exists i :: 0 <= i < |Inputs(raw)| && Convert(tag, Inputs(raw)[i]).None?) &&
      (out.Sent? ==>
        |out.msg.args| == |Inputs(raw)| &&
        forall i :: 0 <= i < |Inputs(raw)| ==> Convert(tag, Inputs(raw)[i]) == Some(out.msg.args[i]))
  {
    var xs := Inputs(raw);
    var vals := ConvertAll(tag, xs);
    assert Values(Some(tag), raw) == vals;
    if vals.Some? {
      assert Added(Some(tag), vals.value) == vals.value by {
        NoNilConverted(tag, xs, vals.value);
        AddedKeepsAll(Some(tag), vals.value);
      }
      SendOfValues(cfg, address, Text(tag), raw, vals.value);
    }
  }

  /** The message built from the values `send` computed. */
  lemma SendOfValues(cfg: Endpoint, address: string, ta: TypeArg, raw: Value, vals: seq<Arg>)
    requires Values(TagOf(ta), raw) == Some(vals)
    ensures SendSpec(cfg, address, ta, raw) == Sent(Datagram(cfg.host, cfg.port, cfg.prefix + address, Added(TagOf(ta), vals)))
  {
  }

  /** An enum member and its tag letter send the same message. */
  lemma EnumSendsAsLetter(cfg: Endpoint, address: string, t: OscType, raw: Value)
    requires t != Bare
    ensures SendSpec(cfg, address, Enum(t), raw) == SendSpec(cfg, address, Text(Letter(t)), raw)
  {
  }

  lemma NoNilConverted(tag: string, xs: seq<Value>, vals: seq<Arg>)
    requires tag != "N" && ConvertAll(tag, xs) == Some(vals)
    ensures forall i :: 0 <= i < |vals| ==> vals[i] != ONil
  {
    forall i | 0 <= i < |vals| ensures vals[i] != ONil {
      assert Convert(tag, xs[i]) == Some(vals[i]);
    }
  }

  /** With a tag and no `ONil`, every value is added, in order. */
  lemma {:induction false} AddedKeepsAll(tag: Option<string>, vals: seq<Arg>)
    requires tag.Some? && forall i :: 0 <= i < |vals| ==> vals[i] != ONil
    ensures Added(tag, vals) == vals
    decreases |vals|
  {
    if |vals| > 0 {
      AddedKeepsAll(tag, vals[..|vals| - 1]);
      assert vals[..|vals| - 1] + [vals[|vals| - 1]] == vals;
    }
  }

  /** Tag `N` values, and every value when there is no tag, produce no argument. */
  lemma NoArguments(cfg: Endpoint, address: string, ta: TypeArg, raw: Value)
    requires TagOf(ta).None? || TagOf(ta) == Some("N")
    ensures SendSpec(cfg, address, ta, raw).Sent?
    ensures SendSpec(cfg, address, ta, raw).msg.args == []
  {
    var tag := TagOf(ta);
    var t := if tag.Some? then tag.value else "";
    var xs := Inputs(raw);
    ConvertAllTotal(t, xs);
    var vals := ConvertAll(t, xs).value;
    assert Values(tag, raw) == Some(vals);
    assert Added(tag, vals) == [] by {
      if tag.Some? {
        forall i | 0 <= i < |vals| ensures vals[i] == ONil {
          assert Convert("N", xs[i]) == Some(vals[i]);
        }
        AddedDropsNil(tag, vals);
      }
    }
    SendOfValues(cfg, address, ta, raw, vals);
  }

  /** Values that are all `ONil` add no argument. */
  lemma {:induction false} AddedDropsNil(tag: Option<string>, vals: seq<Arg>)
    requires forall i :: 0 <= i < |vals| ==> vals[i] == ONil
    ensures Added(tag, vals) == []
    decreases |vals|
  {
    if tag.Some? && |vals| > 0 {
      AddedDropsNil(tag, vals[..|vals| - 1]);
    }
  }

  /** Under tag `N` and under the default arm no conversion raises. */
  lemma {:induction false} ConvertAllTotal(tag: string, xs: seq<Value>)
    requires tag == "" || tag == "N"
    ensures ConvertAll(tag, xs).Some?
    decreases |xs|
  {
    if |xs| > 0 {
      ConvertAllTotal(tag, xs[..|xs| - 1]);
    }
  }

  /** Per-tag conversions of one value. */
  lemma ConvertRules(v: Value)
    ensures Convert("B", v) == Some(OBool(v == VStr("True")))
    ensures !Truthy(v) ==> Convert("m", v) == Some(OInt(0)) && Convert("t", v) == Some(OInt(0))
    ensures Convert("c", v) == Some(OStr(if Str(v) == "" then "\0" else [Str(v)[0]]))
    ensures Convert("I", v) == Some(OInf)
    ensures Convert("N", v) == Some(ONil)
    ensures v.VReal? ==> Convert("i", v) == Some(OInt(Trunc(v.x)))
  {
  }

  /** A type name that is not a tag letter, such as "Float", falls to `str(v)`. */
  lemma UnknownTagStringifies(tag: string, v: Value)
    requires tag !in {"i", "h", "f", "d", "B", "s", "c", "b", "r", "m", "t", "N", "I", "M"}
    ensures Convert(tag, v) == Some(OStr(Str(v)))
  {
  }

  /** Every tag letter is a single character, so a longer type text falls to `str(v)`. */
  lemma LongTagStringifies(tag: string, v: Value)
    requires |tag| > 1
    ensures Convert(tag, v) == Some(OStr(Str(v)))
  {
  }

  /** Tag `M` checks int before bool, so booleans are sent as 0 or 1; a list is sent as its text. */
  lemma MixedRules(cfg: Endpoint, address: string, xs: seq<Value>)
    ensures var out := SendSpec(cfg, address, Enum(Mixed), VList(xs));
      out.Sent? && |out.msg.args| == |xs| &&
      forall i :: 0 <= i < |xs| ==> out.msg.args[i] == MixedArg(xs[i])
    ensures MixedArg(VBool(true)) == OInt(1) && MixedArg(VBool(false)) == OInt(0)
  {
    var vals := seq(|xs|, i requires 0 <= i < |xs| => MixedArg(xs[i]));
    AddedKeepsAll(Some("M"), vals);
  }

  /** Tag `M` on a number raises (it is not iterable): nothing is sent. */
  lemma MixedScalarFails(cfg: Endpoint, address: string, n: int)
    ensures SendSpec(cfg, address, Enum(Mixed), VInt(n)) == Failed
  {
  }

  /** Tag `r` on a tuple sends the packed colour as the one int argument. */
  lemma ColourArgument(cfg: Endpoint, address: string, v: Value, p: int)
    requires v.VTuple? && ColourOf(v) == Some(p)
    ensures SendSpec(cfg, address, Enum(Color), v) == Sent(Datagram(cfg.host, cfg.port, cfg.prefix + address, [OInt(p)]))
  {
    var tag := TagOf(Enum(Color));
    assert tag == Some("r");
    assert Inputs(v) == [v];
    assert Convert("r", v) == Some(OInt(p));
    assert ConvertAll("r", [v]) == Some([OInt(p)]) by {
      assert [v][..0] == [];
      assert [] + [OInt(p)] == [OInt(p)];
    }
    assert Values(tag, v) == Some([OInt(p)]);
    AddedKeepsAll(tag, [OInt(p)]);
  }

  /** Opaque red given as a tuple of an int, floats and a bool packs to 0xFF0000FF. */
  lemma ColourOfExample()
    ensures ColourOf(VTuple([VReal(1.0), VInt(0), VReal(0.0), VBool(true)])) == Some(0xFF00_00FF)
  {
    PackExamples();
  }

  /** Tag `r` on a flat list of floats raises: each float is indexed as if it were a colour. */
  lemma ColourFlatListFails(cfg: Endpoint, address: string)
    ensures SendSpec(cfg, address, Enum(Color), VList([VReal(1.0), VInt(0), VReal(0.0), VBool(true)])) == Failed
  {
    var xs := [VReal(1.0), VInt(0), VReal(0.0), VBool(true)];
    assert Convert("r", xs[0]).None?;
  }
}
