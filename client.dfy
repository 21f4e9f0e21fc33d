/**
 * The `SPOSC` object itself: its destination configuration, its lifecycle
 * flags, and the operations that read them — `send`, the invocation of a
 * templated action, the custom action and the entity receiver.
 *
 * Threads and the event loop are not modelled. Each lifecycle operation is a
 * sequential step on the flags, and what the concurrent parts decide (whether
 * the background loop is running when `disable` is called, whether a bind
 * succeeds) is passed in as an input.
 */
module Client {
  import opened Wrappers
  import opened Text
  import opened PyValues
  import opened Coercion
  import opened Wire
  import opened Actions

  // ---------------------------------------------------------------------
  // Lifecycle flags as values
  // ---------------------------------------------------------------------

  /**
   * The lifecycle state: `_should_run`, `_listener_enabled`, whether
   * `_osc_server` is set and whether `_transport` is set.
   */
  datatype Flags = Flags(shouldRun: bool, listenerEnabled: bool, serverSet: bool, transportOpen: bool)

  /** A transport is held exactly while the listener is enabled, and an enabled listener has a server. */
  predicate Consistent(f: Flags) {
    (f.transportOpen <==> f.listenerEnabled) && (f.listenerEnabled ==> f.serverSet)
  }

  /** The state of a new object: stopped, with no server, transport or listener. */
  const Initial := Flags(false, false, false, false)

  /** `enable`: a no-op when already running; otherwise only the run guard is raised. */
  function EnableStep(f: Flags): Flags {
    if f.shouldRun then f else f.(shouldRun := true)
  }

  /**
   * `disable`: a no-op when already stopped. Otherwise the run guard is
   * lowered, and the shutdown coroutine, which runs only when the background
   * loop is running, closes the transport and clears the server and the
   * listener flag.
   */
  function DisableStep(f: Flags, loopRunning: bool): Flags {
    if !f.shouldRun then f
    else if loopRunning then Initial
    else f.(shouldRun := false)
  }

  /**
   * `_start_listener`: skipped when the listener is already enabled.
   * Otherwise the server is created; a successful bind stores the transport
   * and enables the listener, a failed one leaves the listener disabled (the
   * server reference stays set).
   */
  function StartStep(f: Flags, bindOk: bool): Flags {
    if f.listenerEnabled then f
    else if bindOk then f.(serverSet := true, transportOpen := true, listenerEnabled := true)
    else f.(serverSet := true, listenerEnabled := false)
  }

  /** `_main_loop` iterations, one bind outcome each, while the run guard is up. */
  function Attempts(f: Flags, binds: seq<bool>): Flags {
    if !f.shouldRun || |binds| == 0 then f
    else StartStep(Attempts(f, binds[..|binds| - 1]), binds[|binds| - 1])
  }

  // ---------------------------------------------------------------------
  // Properties of the lifecycle steps
  // ---------------------------------------------------------------------

  /** A new object is consistent and not running. */
  lemma InitialConsistent()
    ensures Consistent(Initial) && !Initial.shouldRun && !Initial.listenerEnabled
  {
  }

  /** `enable` leaves the object running and changes nothing else; a second `enable` changes nothing. */
  lemma EnableRuns(f: Flags)
    ensures EnableStep(f).shouldRun
    ensures EnableStep(f).(shouldRun := f.shouldRun) == f
    ensures EnableStep(EnableStep(f)) == EnableStep(f)
    ensures Consistent(f) ==> Consistent(EnableStep(f))
  {
  }

  /**
   * `disable` on a stopped object changes nothing; on a running one it
   * lowers the guard, and when the loop runs the shutdown it releases the
   * listener, the transport and the server.
   */
  lemma DisableStops(f: Flags, loopRunning: bool)
    ensures !DisableStep(f, loopRunning).shouldRun
    ensures !f.shouldRun ==> DisableStep(f, loopRunning) == f
    ensures f.shouldRun && loopRunning ==> DisableStep(f, loopRunning) == Initial
    ensures f.shouldRun && !loopRunning ==> DisableStep(f, loopRunning).(shouldRun := true) == f
    ensures Consistent(f) ==> Consistent(DisableStep(f, loopRunning))
  {
  }

  /**
   * `_start_listener` never disables a listener, enables it exactly when the
   * bind succeeds, and keeps the run guard and the consistency of the flags.
   */
  lemma StartListens(f: Flags, bindOk: bool)
    ensures StartStep(f, bindOk).listenerEnabled <==> f.listenerEnabled || bindOk
    ensures f.listenerEnabled ==> StartStep(f, bindOk) == f
    ensures StartStep(f, bindOk).shouldRun == f.shouldRun
    ensures !f.listenerEnabled ==> StartStep(f, bindOk).serverSet
    ensures Consistent(f) ==> Consistent(StartStep(f, bindOk))
  {
  }

  /**
   * After a run of the main loop the listener is enabled exactly when it
   * was already, or the loop was running and some bind attempt succeeded;
   * the run guard is untouched and the flags stay consistent.
   */
  lemma {:induction false} AttemptsListen(f: Flags, binds: seq<bool>)
    requires Consistent(f)
    ensures Attempts(f, binds).listenerEnabled <==> f.listenerEnabled || (f.shouldRun && true in binds)
    ensures Attempts(f, binds).shouldRun == f.shouldRun
    ensures Consistent(Attempts(f, binds))
    decreases |binds|
  {
    if f.shouldRun && |binds| > 0 {
      var init := binds[..|binds| - 1];
      AttemptsListen(f, init);
      StartListens(Attempts(f, init), binds[|binds| - 1]);
      assert binds == init + [binds[|binds| - 1]];
      assert true in binds <==> true in init || binds[|binds| - 1];
    }
  }

  /**
   * `restart` (disable, then enable) leaves the object running; when it was
   * running with its loop, the listener is released, so the next loop
   * iteration binds again.
   */
  lemma RestartRebinds(f: Flags, loopRunning: bool)
    ensures EnableStep(DisableStep(f, loopRunning)).shouldRun
    ensures f.shouldRun && loopRunning ==>
      EnableStep(DisableStep(f, loopRunning)) == Flags(true, false, false, false)
    ensures !f.shouldRun ==> EnableStep(DisableStep(f, loopRunning)) == EnableStep(f)
  {
  }

  // ---------------------------------------------------------------------
  // The custom action
  // ---------------------------------------------------------------------

  /** The options of the custom action's "Value Type" parameter, in order. */
  const TypeNames: seq<string> := ["Int", "Float", "String", "Bool"]

  /** The words a Bool custom value is compared against after lower-casing. */
  const TrueWords: seq<string> := ["true", "True", "1", "yes", "on"]

  /** The value coerced under a type name; `None` where `int()` or `float()` raises. */
  function CustomCoerce(name: string, v: Value): Option<Value> {
    if name == "Int" then
      (match PyInt(v) case None => None case Some(n) => Some(VInt(n)))
    else if name == "Float" then
      (match PyFloat(v) case None => None case Some(x) => Some(VReal(x)))
    else if name in ["Bool", "True", "False"] then Some(VBool(Lower(Str(v)) in TrueWords))
    else if name == "String" then Some(VStr(Str(v)))
    else Some(v)
  }

  /** What the custom action does: fail (the callback gets `False`) or forward a coerced value under its type name. */
  datatype CustomOutcome = CustomFailed | Forwarded(typeName: string, value: Value)

  /** The custom action with the type index and the raw value. */
  function CustomSpec(typeIndex: int, value: Value): CustomOutcome {
    match PyIndex(|TypeNames|, typeIndex)
    case None => CustomFailed
    case Some(k) =>
      match CustomCoerce(TypeNames[k], value)
      case None => CustomFailed
      case Some(c) => Forwarded(TypeNames[k], c)
  }

  /**
   * A forwarded custom value is sent as one string argument, its `str()`:
   * the type names are not tag letters, so `send` takes its default arm.
   */
  lemma CustomSendsText(cfg: Endpoint, path: string, typeIndex: int, value: Value)
    requires CustomSpec(typeIndex, value).Forwarded?
    ensures var o := CustomSpec(typeIndex, value);
      SendSpec(cfg, path, Text(o.typeName), o.value) ==
        Sent(Datagram(cfg.host, cfg.port, cfg.prefix + path, [OStr(Str(o.value))]))
  {
    var o := CustomSpec(typeIndex, value);
    assert |o.typeName| > 1 && !o.value.VList?;
    NameSendsText(cfg, path, o.typeName, o.value);
  }

  /**
   * A value that is not a list, sent under a type text longer than one
   * character (no tag letter is), becomes its `str()`.
   */
  lemma NameSendsText(cfg: Endpoint, path: string, name: string, c: Value)
    requires |name| > 1 && !c.VList?
    ensures SendSpec(cfg, path, Text(name), c) == Sent(Datagram(cfg.host, cfg.port, cfg.prefix + path, [OStr(Str(c))]))
  {
    var arg := OStr(Str(c));
    LongTagStringifies(name, c);
    assert Inputs(c) == [c];
    SendShape(cfg, path, name, c);
    var out := SendSpec(cfg, path, Text(name), c);
    assert out.Sent? && |out.msg.args| == 1 && out.msg.args[0] == arg;
    assert out.msg.args == [arg];
  }

  /**
   * The type index is read like a Python list index: indices 0..3 and -4..-1
   * name a type, any other index fails the action.
   */
  lemma CustomIndexRule(typeIndex: int, value: Value)
    ensures !(-4 <= typeIndex < 4) ==> CustomSpec(typeIndex, value) == CustomFailed
    ensures CustomSpec(typeIndex, value).Forwarded? ==>
      CustomSpec(typeIndex, value).typeName == TypeNames[if typeIndex < 0 then typeIndex + 4 else typeIndex]
  {
  }

  /**
   * Bool compares the lower-cased text with the true words, so any casing
   * of "true", "yes" and "on" is true; String and Bool never fail.
   */
  lemma CustomBoolAndString(value: Value)
    ensures CustomSpec(3, value) == Forwarded("Bool", VBool(Lower(Str(value)) in TrueWords))
    ensures CustomSpec(-1, value) == CustomSpec(3, value)
    ensures CustomSpec(2, value) == Forwarded("String", VStr(Str(value)))
  {
  }

  /** Int on a text that is not an integer fails the action: the default value "0.5" under Int. */
  lemma CustomIntRejectsFraction()
    ensures CustomSpec(0, VStr("0.5")) == CustomFailed
    ensures CustomSpec(0, VStr("12")) == Forwarded("Int", VInt(12))
  {
    assert ParseInt("0.5").None? by {
      StripKeeps("0.5");
      assert !IsDigit("0.5"[1]);
    }
    ParseIntOfNat(12);
    assert IntToString(12) == "12";
  }

  /** "YES" and "On" are true under Bool, "0" is not. */
  lemma CustomBoolExamples()
    ensures CustomSpec(3, VStr("YES")) == Forwarded("Bool", VBool(true))
    ensures CustomSpec(3, VStr("On")) == Forwarded("Bool", VBool(true))
    ensures CustomSpec(3, VStr("0")) == Forwarded("Bool", VBool(false))
  {
    assert Lower("YES") == "yes";
    assert Lower("On") == "on";
    assert Lower("0") == "0";
  }

  // ---------------------------------------------------------------------
  // The entity receiver
  // ---------------------------------------------------------------------

  /** The value an entity receiver stores: the first received argument, `None` when there is none. */
  function FirstArg(args: seq<Value>): Value {
    if |args| > 0 then args[0] else VNone
  }

  /**
   * The entity values after a message on the receiver's path: the entity at
   * `entityPath` (created if missing) holds the first argument, and every
   * other entity keeps its value.
   */
  function Receive(entities: map<string, Value>, entityPath: string, args: seq<Value>): (after: map<string, Value>)
    ensures after.Keys == entities.Keys + {entityPath}
    ensures forall k :: k in entities && k != entityPath ==> after[k] == entities[k]
    ensures after[entityPath] == VNone <==> |args| == 0 || args[0] == VNone
    ensures |args| > 0 ==> after[entityPath] == args[0]
  {
    entities[entityPath := FirstArg(args)]
  }

  // ---------------------------------------------------------------------
  // The loops of `send`
  // ---------------------------------------------------------------------

  /** Tag `M`: each item converted by its own type. */
  method MixedValues(xs: seq<Value>) returns (values: seq<Arg>)
    ensures values == seq(|xs|, j requires 0 <= j < |xs| => MixedArg(xs[j]))
  {
    values := [];
    var i := 0;
    while i < |xs|
      invariant 0 <= i <= |xs|
      invariant |values| == i
      invariant forall j :: 0 <= j < i ==> values[j] == MixedArg(xs[j])
    {
      values := values + [MixedArg(xs[i])];
      i := i + 1;
    }
  }

  /** Any other tag: each input converted under the tag, stopping at the first that raises. */
  method ConvertInputs(tag: string, xs: seq<Value>) returns (values: Option<seq<Arg>>)
    ensures values == ConvertAll(tag, xs)
  {
    var vals: seq<Arg> := [];
    var i := 0;
    while i < |xs|
      invariant 0 <= i <= |xs|
      invariant ConvertAll(tag, xs[..i]) == Some(vals)
    {
      var a := Convert(tag, xs[i]);
      if a.None? {
        return None;
      }
      assert xs[..i + 1][..i] == xs[..i];
      vals := vals + [a.value];
      i := i + 1;
    }
    assert xs[..i] == xs;
    values := Some(vals);
  }

  /** The builder loop: a value is added as an argument only when there is a tag and the value is not `None`. */
  method AddArgs(tag: Option<string>, values: seq<Arg>) returns (args: seq<Arg>)
    ensures args == Added(tag, values)
  {
    args := [];
    var j := 0;
    while j < |values|
      invariant 0 <= j <= |values|
      invariant args == Added(tag, values[..j])
    {
      if tag.Some? && values[j] != ONil {
        args := args + [values[j]];
      }
      assert values[..j + 1][..j] == values[..j];
      j := j + 1;
    }
    assert values[..j] == values;
  }

  // ---------------------------------------------------------------------
  // The loops of an action invocation
  // ---------------------------------------------------------------------

  /** The path loop: each path placeholder replaced in turn by its coerced text; the ones that fell back are logged. */
  method SubstitutePath(path0: string, defs: seq<string>, dyn: seq<Value>) returns (path: string, errors: seq<string>)
    requires |defs| <= |dyn|
    ensures path == PathAfter(path0, defs, dyn, |defs|)
    ensures errors == FallbacksOf(defs, dyn)
  {
    path := path0;
    errors := [];
    var i := 0;
    while i < |defs|
      invariant 0 <= i <= |defs|
      invariant path == PathAfter(path0, defs, dyn, i)
      invariant errors == FallbacksOf(defs[..i], dyn)
    {
      var d := defs[i];
      var r := Resolve(d, dyn[i]);
      assert defs[..i + 1][..i] == defs[..i];
      if r.Fallback? {
        errors := errors + [d];
      }
      path := Replace(path, "{" + d + "}", PathText(r));
      i := i + 1;
    }
    assert defs[..i] == defs;
  }

  /** The value loop: one value per value placeholder, in order; the ones that fell back are logged. */
  method BuildValues(defs: seq<string>, xs: seq<Value>) returns (values: seq<Value>, errors: seq<string>)
    requires |defs| <= |xs|
    ensures values == ValuesOf(defs, xs)
    ensures errors == FallbacksOf(defs, xs)
  {
    values := [];
    errors := [];
    var j := 0;
    while j < |defs|
      invariant 0 <= j <= |defs|
      invariant values == ValuesOf(defs[..j], xs)
      invariant errors == FallbacksOf(defs[..j], xs)
    {
      var d := defs[j];
      var r := Resolve(d, xs[j]);
      assert defs[..j + 1][..j] == defs[..j];
      if r.Fallback? {
        errors := errors + [d];
      }
      values := values + [SendValue(r)];
      j := j + 1;
    }
    assert defs[..j] == defs;
  }

  // ---------------------------------------------------------------------
  // The object
  // ---------------------------------------------------------------------

  /** An `SPOSC` instance: its configuration and its lifecycle flags. */
  class OscClient {
    var host: string
    var port: int
    var prefix: string
    var shouldRun: bool
    var listenerEnabled: bool
    var serverSet: bool
    var transportOpen: bool

    /** The flags as a value. */
    function State(): Flags
      reads this
    {
      Flags(shouldRun, listenerEnabled, serverSet, transportOpen)
    }

    /** The destination `send` uses. */
    function Config(): Endpoint
      reads this
    {
      Endpoint(host, port, prefix)
    }

    ghost predicate Valid()
      reads this
    {
      Consistent(State())
    }

    /** `SPOSC(logger, host, port, prefix)`. */
    constructor (host0: string, port0: int, prefix0: string)
      ensures Valid()
      ensures Config() == Endpoint(host0, port0, prefix0)
      ensures State() == Initial
    {
      host, port, prefix := host0, port0, prefix0;
      shouldRun, listenerEnabled, serverSet, transportOpen := false, false, false, false;
    }

    /** `enable()`: raise the run guard unless it is up already. */
    method Enable()
      requires Valid()
      modifies this
      ensures Valid()
      ensures State() == EnableStep(old(State()))
      ensures Config() == old(Config())
    {
      if shouldRun {
        return;
      }
      shouldRun := true;
    }

    /** `disable()`, where `loopRunning` says whether the background loop runs the shutdown. */
    method Disable(loopRunning: bool)
      requires Valid()
      modifies this
      ensures Valid()
      ensures State() == DisableStep(old(State()), loopRunning)
      ensures Config() == old(Config())
    {
      if !shouldRun {
        return;
      }
      shouldRun := false;
      if loopRunning {
        if transportOpen {
          transportOpen := false;
        }
        serverSet := false;
        listenerEnabled := false;
      }
    }

    /** `_start_listener()`, where `bindOk` is the outcome of creating the serving endpoint. */
    method StartListener(bindOk: bool)
      requires Valid()
      modifies this
      ensures Valid()
      ensures State() == StartStep(old(State()), bindOk)
      ensures Config() == old(Config())
    {
      if listenerEnabled {
        return;
      }
      serverSet := true;
      if bindOk {
        transportOpen := true;
        listenerEnabled := true;
      } else {
        listenerEnabled := false;
      }
    }

    /** `_main_loop()`: while the run guard is up, try to start the listener if it is not enabled, once per bind outcome. */
    method MainLoop(binds: seq<bool>)
      requires Valid()
      modifies this
      ensures Valid()
      ensures State() == Attempts(old(State()), binds)
      ensures Config() == old(Config())
    {
      var i := 0;
      while shouldRun && i < |binds|
        invariant 0 <= i <= |binds|
        invariant Valid()
        invariant shouldRun == old(shouldRun)
        invariant State() == Attempts(old(State()), binds[..i])
        invariant Config() == old(Config())
      {
        if !listenerEnabled {
          StartListener(binds[i]);
        }
        assert binds[..i + 1][..i] == binds[..i];
        i := i + 1;
      }
      if shouldRun {
        assert binds[..i] == binds;
      }
    }

    /** `update_config(host, port, prefix)`: the destination changes, the lifecycle does not. */
    method UpdateConfig(host0: string, port0: int, prefix0: string)
      requires Valid()
      modifies this
      ensures Valid()
      ensures Config() == Endpoint(host0, port0, prefix0)
      ensures State() == old(State())
    {
      host, port, prefix := host0, port0, prefix0;
    }

    /** `restart()`: disable, then enable (the one-second pause is not modelled). */
    method Restart(loopRunning: bool)
      requires Valid()
      modifies this
      ensures Valid()
      ensures State() == EnableStep(DisableStep(old(State()), loopRunning))
      ensures Config() == old(Config())
    {
      Disable(loopRunning);
      Enable();
    }

    /** `send(address, val_type, raw_val)`: the values are built, then filtered into the message's arguments. */
    method Send(address: string, ta: TypeArg, raw: Value) returns (out: SendOutcome)
      ensures out == SendSpec(Config(), address, ta, raw)
    {
      var tag := TagOf(ta);
      var values: seq<Arg>;
      if tag == Some("M") {
        var items := MixedItems(raw);
        if items.None? {
          return Failed;
        }
        values := MixedValues(items.value);
      } else {
        var converted := ConvertInputs(if tag.Some? then tag.value else "", Inputs(raw));
        if converted.None? {
          return Failed;
        }
        values := converted.value;
      }
      var args := AddArgs(tag, values);
      out := Sent(Datagram(host, port, prefix + address, args));
    }

    /** `_send_osc_action`: send, then call back with `True` (the send catches its own errors). */
    method SendOscAction(address: string, ta: TypeArg, raw: Value) returns (out: SendOutcome, reported: bool)
      ensures out == SendSpec(Config(), address, ta, raw)
      ensures reported
    {
      out := Send(address, ta, raw);
      reported := true;
    }

    /**
     * The callback `oscAction` registers, called with the callback and then
     * `args`: the guard, the path rewritten one placeholder at a time, the
     * value list built one placeholder at a time, and the send.
     */
    method InvokeAction(act: Action, args: seq<Value>) returns (inv: Invocation, out: Option<SendOutcome>)
      ensures inv == InvocationSpec(act, args)
      ensures out.None? <==> inv.NotEnoughArgs?
      ensures inv.Completed? ==> out == Some(Delivery(Config(), act, inv))
    {
      var expected := 1 + |act.pathDefs| + |act.valueDefs|;
      if 1 + |args| < expected {
        return NotEnoughArgs(1 + |args|, expected), None;
      }
      var dyn := args[..expected - 1];
      assert InvocationSpec(act, args) == Complete(act, dyn);
      var np := |act.pathDefs|;
      var path, pathErrors := SubstitutePath(act.path, act.pathDefs, dyn);
      var sendValues: seq<Value> := [];
      var valueErrors: seq<string> := [];
      if HasValues(act) {
        sendValues, valueErrors := BuildValues(act.valueDefs, dyn[np..]);
      }
      inv := Completed(path, sendValues, pathErrors + valueErrors, true);
      assert inv == Complete(act, dyn);
      var sent := Send(path, act.typeArg, VList(sendValues));
      out := Some(sent);
    }

    /**
     * The callback `oscCustomAction` registers: the type name is read at the
     * index, the value coerced, and the result forwarded to the sender under
     * the type name; a failure calls back with `False` and sends nothing.
     */
    method CustomAction(path: string, typeIndex: int, value: Value) returns (out: Option<SendOutcome>, reported: bool)
      ensures CustomSpec(typeIndex, value).CustomFailed? ==> out.None? && !reported
      ensures CustomSpec(typeIndex, value).Forwarded? ==>
        (reported && out == Some(SendSpec(Config(), path, Text(CustomSpec(typeIndex, value).typeName), CustomSpec(typeIndex, value).value)))
    {
      var k := PyIndex(|TypeNames|, typeIndex);
      if k.None? {
        return None, false;
      }
      var name := TypeNames[k.value];
      var coerced := CustomCoerce(name, value);
      if coerced.None? {
        return None, false;
      }
      var sent;
      sent, reported := SendOscAction(path, Text(name), coerced.value);
      out := Some(sent);
    }
  }
}
