/**
 * What registering a templated action or event adds to the host: one UI
 * parameter per action placeholder, read from the placeholder's fields, and
 * one script event per `E` placeholder of an event path.
 */
module Registration {
  import opened Wrappers
  import opened Text
  import opened PyValues
  import opened Templates
  import opened Coercion

  /** A UI parameter of a registered action, with its default and bounds. */
  datatype Param =
    | IntParam(name: string, initial: int, lo: int, hi: int)
    | FloatParam(name: string, initialReal: real, loReal: real, hiReal: real)
    | EnumParam(name: string, initial: int, options: string)
    | StringParam(name: string, initialText: string)
    | BoolParam(name: string, on: bool)
    | IPParam(name: string, on: bool)
    | ColorParam(name: string)

  /**
   * The outcome for one placeholder: a parameter is added; reading a field or
   * converting a default raised, which is logged and registration goes on;
   * the kind has no parameter; or the definition has no name field, which
   * raises out of the whole registration.
   */
  datatype ParamOutcome = Added(param: Param) | Rejected | Skipped | Aborted

  /** `bool(text)` for a string: true exactly when the text is non-empty. */
  function TextTruth(text: string): (b: bool)
    ensures b <==> text != ""
  {
    Truthy(VStr(text))
  }

  /**
   * The default of a `B` parameter read with the same rule the action applies
   * to its argument: true unless empty or "false", "0" or "no" in any case.
   */
  function BoolDefault(text: string): (b: bool)
    ensures b == BoolOf(VStr(text))
  {
    text != "" && Lower(text) !in FalseWords
  }

  /**
   * The parameter for the fields of one definition, as the registration loop
   * reads them: the name field is read outside the `try`, so a definition
   * without one aborts; a missing or unparsable field of a known kind is
   * logged; a kind without a parameter is skipped.
   */
  function ReadFields(parts: seq<string>): ParamOutcome
    requires |parts| >= 1
  {
    if |parts| < 2 then Aborted
    else
      var kind, name := parts[0], parts[1];
      if kind == "I" then
        if |parts| < 5 then Rejected
        else
          match (ParseInt(parts[2]), ParseInt(parts[3]), ParseInt(parts[4]))
          case (Some(d), Some(lo), Some(hi)) => Added(IntParam(name, d, lo, hi))
          case _ => Rejected
      else if kind == "F" then
        if |parts| < 5 then Rejected
        else
          match (ParseDecimal(parts[2]), ParseDecimal(parts[3]), ParseDecimal(parts[4]))
          case (Some(d), Some(lo), Some(hi)) => Added(FloatParam(name, d, lo, hi))
          case _ => Rejected
      else if kind == "A" then
        if |parts| < 4 then Rejected
        else
          match ParseInt(parts[2])
          case Some(d) => Added(EnumParam(name, d, parts[3]))
          case None => Rejected
      else if kind == "S" then
        if |parts| < 3 then Rejected else Added(StringParam(name, parts[2]))
      else if kind == "B" then
        if |parts| < 3 then Rejected else Added(BoolParam(name, TextTruth(parts[2])))
      else if kind == "IP" then
        if |parts| < 3 then Rejected else Added(IPParam(name, TextTruth(parts[2])))
      else if kind == "C" then Added(ColorParam(name))
      else Skipped
  }

  /** The kinds that have a parameter. */
  const ParamKinds: set<string> := {"I", "F", "A", "S", "B", "IP", "C"}

  function ReadParam(ddef: string): ParamOutcome {
    ReadFields(Fields(ddef))
  }

  /**
   * Only a definition without a name aborts; a parameter carries the name
   * field; exactly the kinds without a parameter are skipped; and a known
   * kind other than `C` without a default is logged.
   */
  lemma ReadFieldsOutcome(parts: seq<string>)
    requires |parts| >= 1
    ensures ReadFields(parts) == Aborted <==> |parts| < 2
    ensures ReadFields(parts).Added? ==> ReadFields(parts).param.name == parts[1]
    ensures ReadFields(parts).Skipped? <==> |parts| >= 2 && parts[0] !in ParamKinds
    ensures |parts| == 2 && parts[0] in ParamKinds && parts[0] != "C" ==> ReadFields(parts) == Rejected
  {
  }

  /**
   * The corrected reading: a `B` default is read with the rule the action
   * applies to its argument (`BoolDefault`); every other kind as written.
   */
  function ReadFieldsCorrected(parts: seq<string>): ParamOutcome
    requires |parts| >= 1
  {
    if |parts| >= 3 && parts[0] == "B" then Added(BoolParam(parts[1], BoolDefault(parts[2])))
    else ReadFields(parts)
  }

  function ReadParamCorrected(ddef: string): ParamOutcome {
    ReadFieldsCorrected(Fields(ddef))
  }

  /** The parameters added, the definitions whose registration failed, and whether it stopped early. */
  datatype Registration = Registration(params: seq<Param>, errors: seq<string>, aborted: bool)

  /** One more definition registered, unless registration already stopped. */
  function RegisterOne(reg: Registration, d: string, outcome: ParamOutcome): (next: Registration)
    ensures |next.params| + |next.errors| <= |reg.params| + |reg.errors| + 1
  {
    if reg.aborted then reg
    else
      match outcome
      case Added(p) => reg.(params := reg.params + [p])
      case Rejected => reg.(errors := reg.errors + [d])
      case Skipped => reg
      case Aborted => reg.(aborted := true)
  }

  /** Registration of the definitions in order; an abort keeps what was added before it. */
  function RegisterAll(defs: seq<string>): (reg: Registration)
    ensures |reg.params| + |reg.errors| <= |defs|
  {
    if |defs| == 0 then Registration([], [], false)
    else RegisterOne(RegisterAll(defs[..|defs| - 1]), defs[|defs| - 1], ReadParam(defs[|defs| - 1]))
  }

  /**
   * The registration loop of `oscAction`, over the path definitions then the
   * value definitions. A definition without a name raises out of the loop;
   * here the remaining definitions then leave the registration unchanged.
   */
  method RegisterParams(defs: seq<string>) returns (reg: Registration)
    ensures reg == RegisterAll(defs)
  {
    reg := Registration([], [], false);
    var i := 0;
    while i < |defs|
      invariant 0 <= i <= |defs|
      invariant reg == RegisterAll(defs[..i])
    {
      var d := defs[i];
      RegisterNext(defs, i);
      reg := RegisterOne(reg, d, ReadParam(d));
      i := i + 1;
    }
    assert defs[..i] == defs;
  }

  lemma RegisterNext(defs: seq<string>, i: nat)
    requires i < |defs|
    ensures RegisterAll(defs[..i + 1]) == RegisterOne(RegisterAll(defs[..i]), defs[i], ReadParam(defs[i]))
  {
    assert defs[..i + 1][..i] == defs[..i];
  }

  /** Once aborted, later definitions change nothing. */
  lemma {:induction false} StaysAborted(defs: seq<string>, k: nat)
    requires k <= |defs| && RegisterAll(defs[..k]).aborted
    ensures RegisterAll(defs) == RegisterAll(defs[..k])
    decreases |defs| - k
  {
    if k < |defs| {
      assert defs[..k + 1][..k] == defs[..k];
      StaysAborted(defs, k + 1);
    } else {
      assert defs[..k] == defs;
    }
  }

  // ---------------------------------------------------------------------
  // Properties
  // ---------------------------------------------------------------------

  /** Only a definition with fewer than two fields stops registration. */
  lemma ReadParamAborts(d: string)
    ensures ReadParam(d) == Aborted <==> |Fields(d)| < 2
  {
  }

  /** Registration of `defs` when definition i reads as `outs[i]`. */
  function RegisterWith(defs: seq<string>, outs: seq<ParamOutcome>): (reg: Registration)
    requires |outs| == |defs|
    ensures |reg.params| + |reg.errors| <= |defs|
  {
    if |defs| == 0 then Registration([], [], false)
    else RegisterOne(RegisterWith(defs[..|defs| - 1], outs[..|defs| - 1]), defs[|defs| - 1], outs[|defs| - 1])
  }

  /** How each definition reads, in order. */
  function ReadParams(defs: seq<string>): (outs: seq<ParamOutcome>)
    ensures |outs| == |defs|
  {
    if |defs| == 0 then [] else ReadParams(defs[..|defs| - 1]) + [ReadParam(defs[|defs| - 1])]
  }

  lemma {:induction false} ReadParamsAt(defs: seq<string>, i: nat)
    requires i < |defs|
    ensures ReadParams(defs)[i] == ReadParam(defs[i])
  {
    if i < |defs| - 1 {
      ReadParamsAt(defs[..|defs| - 1], i);
    }
  }

  /** `RegisterAll` is `RegisterWith` on what each definition reads as. */
  lemma {:induction false} RegisterAllWith(defs: seq<string>)
    ensures RegisterAll(defs) == RegisterWith(defs, ReadParams(defs))
  {
    if |defs| > 0 {
      RegisterAllWith(defs[..|defs| - 1]);
    }
  }

  /** Registration stops early exactly when some outcome is an abort. */
  lemma {:induction false} AbortedWith(defs: seq<string>, outs: seq<ParamOutcome>)
    requires |outs| == |defs|
    ensures RegisterWith(defs, outs).aborted <==> exists i :: 0 <= i < |outs| && outs[i] == Aborted
  {
    if |defs| > 0 {
      var n := |defs| - 1;
      AbortedWith(defs[..n], outs[..n]);
      assert forall i :: 0 <= i < n ==> outs[..n][i] == outs[i];
    }
  }

  /** Registration stops early exactly when some definition stops it. */
  lemma AbortedAtSomeDefinition(defs: seq<string>)
    ensures RegisterAll(defs).aborted <==> exists i :: 0 <= i < |defs| && ReadParam(defs[i]) == Aborted
  {
    RegisterAllWith(defs);
    var outs := ReadParams(defs);
    AbortedWith(defs, outs);
    if RegisterAll(defs).aborted {
      var i :| 0 <= i < |outs| && outs[i] == Aborted;
      ReadParamsAt(defs, i);
    }
    if exists i :: 0 <= i < |defs| && ReadParam(defs[i]) == Aborted {
      var i :| 0 <= i < |defs| && ReadParam(defs[i]) == Aborted;
      ReadParamsAt(defs, i);
    }
  }

  /** Registration stops early exactly when some definition has fewer than two fields. */
  lemma AbortedIff(defs: seq<string>)
    ensures RegisterAll(defs).aborted <==> exists i :: 0 <= i < |defs| && |Fields(defs[i])| < 2
  {
    AbortedAtSomeDefinition(defs);
    forall i | 0 <= i < |defs| ensures ReadParam(defs[i]) == Aborted <==> |Fields(defs[i])| < 2 {
      ReadParamAborts(defs[i]);
    }
  }

  /** The step adds the definition's parameter, or logs it as rejected, and nothing else. */
  lemma RegisterOneAdds(reg: Registration, d: string, o: ParamOutcome)
    requires !reg.aborted && !RegisterOne(reg, d, o).aborted
    ensures forall p :: p in RegisterOne(reg, d, o).params <==> p in reg.params || o == Added(p)
    ensures forall e :: e in RegisterOne(reg, d, o).errors <==> e in reg.errors || (e == d && o == Rejected)
  {
  }

  /** Without an abort, a parameter is registered exactly when some outcome adds it. */
  lemma {:induction false} ParamWith(defs: seq<string>, outs: seq<ParamOutcome>, p: Param)
    requires |outs| == |defs| && !RegisterWith(defs, outs).aborted
    ensures p in RegisterWith(defs, outs).params <==> exists i :: 0 <= i < |outs| && outs[i] == Added(p)
  {
    if |defs| > 0 {
      var n := |defs| - 1;
      assert RegisterWith(defs, outs) == RegisterOne(RegisterWith(defs[..n], outs[..n]), defs[n], outs[n]);
      assert !RegisterWith(defs[..n], outs[..n]).aborted;
      ParamWith(defs[..n], outs[..n], p);
      RegisterOneAdds(RegisterWith(defs[..n], outs[..n]), defs[n], outs[n]);
      assert forall i :: 0 <= i < n ==> outs[..n][i] == outs[i];
    }
  }

  /** Without an abort, a definition is logged as failed exactly when its outcome is a rejection. */
  lemma {:induction false} ErrorWith(defs: seq<string>, outs: seq<ParamOutcome>, d: string)
    requires |outs| == |defs| && !RegisterWith(defs, outs).aborted
    ensures d in RegisterWith(defs, outs).errors <==> exists i :: 0 <= i < |defs| && defs[i] == d && outs[i] == Rejected
  {
    if |defs| > 0 {
      var n := |defs| - 1;
      assert RegisterWith(defs, outs) == RegisterOne(RegisterWith(defs[..n], outs[..n]), defs[n], outs[n]);
      assert !RegisterWith(defs[..n], outs[..n]).aborted;
      ErrorWith(defs[..n], outs[..n], d);
      RegisterOneAdds(RegisterWith(defs[..n], outs[..n]), defs[n], outs[n]);
      assert forall i :: 0 <= i < n ==> defs[..n][i] == defs[i] && outs[..n][i] == outs[i];
    }
  }

  /** Without an abort, a failure is logged for exactly the definitions whose fields are rejected. */
  lemma RegisteredError(defs: seq<string>, d: string)
    requires !RegisterAll(defs).aborted
    ensures d in RegisterAll(defs).errors <==> d in defs && ReadParam(d) == Rejected
  {
    RegisterAllWith(defs);
    var outs := ReadParams(defs);
    ErrorWith(defs, outs, d);
    if exists i :: 0 <= i < |defs| && defs[i] == d && outs[i] == Rejected {
      var i :| 0 <= i < |defs| && defs[i] == d && outs[i] == Rejected;
      ReadParamsAt(defs, i);
    }
    if d in defs && ReadParam(d) == Rejected {
      var i :| 0 <= i < |defs| && defs[i] == d;
      ReadParamsAt(defs, i);
    }
  }

  lemma ParseIntExamples()
    ensures ParseInt("127") == Some(127) && ParseInt("255") == Some(255)
    ensures ParseInt("0") == Some(0) && ParseInt("1") == Some(1)
    ensures ParseInt("x") == None
  {
    assert NatToString(127) == "127" by {
      assert NatToString(12) == "12" by { assert NatToString(1) == "1"; }
    }
    ParseIntToString(127);
    assert NatToString(255) == "255" by {
      assert NatToString(25) == "25" by { assert NatToString(2) == "2"; }
    }
    ParseIntToString(255);
    assert IntToString(0) == "0";
    ParseIntToString(0);
    assert IntToString(1) == "1";
    ParseIntToString(1);
    StripKeeps("x");
    assert !IsDigit('x');
  }

  /** An int level with its default and bounds, as in `{I, Level, 127, 0, 255}`. */
  lemma IntParamExample()
    ensures ReadFields(["I", "Level", "127", "0", "255"]) == Added(IntParam("Level", 127, 0, 255))
    ensures ReadFields(["I", "Level", "x", "0", "255"]) == Rejected
    ensures ReadFields(["I", "Level", "127"]) == Rejected
  {
    ParseIntExamples();
  }

  /** An option list, an event placeholder in an action, and a definition without a name. */
  lemma OtherKindsExample()
    ensures ReadFields(["A", "Mode", "1", "Loop;Shuffle"]) == Added(EnumParam("Mode", 1, "Loop;Shuffle"))
    ensures ReadFields(["E", "Go", "cue"]) == Skipped
    ensures ReadFields(["I"]) == Aborted
  {
    ParseIntExamples();
  }

  /**
   * The `B` default as written: `bool("0")` is true, so `{B, Freeze, 0, 0;1, Off;On}`
   * registers a parameter that starts switched on.
   */
  lemma BoolDefaultAsWrittenIsOn()
    ensures ReadFields(["B", "Freeze", "0", "0;1", "Off;On"]) == Added(BoolParam("Freeze", true))
    ensures BoolOf(VStr("0")) == false
  {
    assert Lower("0") == "0";
  }

  /** The corrected `B` default, read as the action reads its argument: "0", "no" and "false" start off. */
  lemma BoolDefaultMatchesInvocation(parts: seq<string>)
    requires |parts| >= 3 && parts[0] == "B"
    ensures ReadFieldsCorrected(parts) == Added(BoolParam(parts[1], BoolOf(VStr(parts[2]))))
    ensures ReadFieldsCorrected(["B", "Freeze", "0", "0;1", "Off;On"]) == Added(BoolParam("Freeze", false))
  {
    assert Lower("0") == "0";
  }

  /**
   * The two readings differ exactly for a `B` definition whose default is
   * non-empty text that the action reads as false: as written it starts on,
   * corrected it starts off.
   */
  lemma CorrectionOnlyTurnsOff(ddef: string)
    ensures var parts := Fields(ddef);
      ReadParamCorrected(ddef) != ReadParam(ddef) <==>
        |parts| >= 3 && parts[0] == "B" && parts[2] != "" && Lower(parts[2]) in FalseWords
    ensures var parts := Fields(ddef);
      ReadParamCorrected(ddef) != ReadParam(ddef) ==>
        ReadParam(ddef) == Added(BoolParam(parts[1], true)) &&
        ReadParamCorrected(ddef) == Added(BoolParam(parts[1], false))
  {
  }

  /**
   * Registering `{B, Freeze, 0, 0;1, Off;On}` on its own: as written the
   * parameter starts on, corrected it starts off.
   */
  lemma FreezeRegistration(d: string)
    requires Fields(d) == ["B", "Freeze", "0", "0;1", "Off;On"]
    ensures RegisterAll([d]).params == [BoolParam("Freeze", true)]
    ensures RegisterAllCorrected([d]).params == [BoolParam("Freeze", false)]
  {
    var parts := ["B", "Freeze", "0", "0;1", "Off;On"];
    assert ReadParam(d) == Added(BoolParam("Freeze", true)) by {
      BoolDefaultAsWrittenIsOn();
    }
    assert RegisterAll([d]) == RegisterOne(Registration([], [], false), d, ReadParam(d)) by {
      assert [d][..0] == [];
    }
    assert ReadParamCorrected(d) == Added(BoolParam("Freeze", false)) by {
      BoolDefaultMatchesInvocation(parts);
    }
    var outs := ReadParamsCorrected([d]);
    assert outs == [ReadParamCorrected(d)];
    assert RegisterAllCorrected([d]) == RegisterOne(Registration([], [], false), d, ReadParamCorrected(d)) by {
      assert [d][..0] == [] && outs[..0] == [];
      assert RegisterWith([d][..0], outs[..0]) == Registration([], [], false);
      assert RegisterAllCorrected([d]) == RegisterOne(RegisterWith([d][..0], outs[..0]), d, outs[0]);
    }
  }

  /** How each definition reads under the corrected rule, in order. */
  function ReadParamsCorrected(defs: seq<string>): seq<ParamOutcome> {
    seq(|defs|, i requires 0 <= i < |defs| => ReadParamCorrected(defs[i]))
  }

  /** Registration under the corrected `B` rule. */
  function RegisterAllCorrected(defs: seq<string>): Registration {
    RegisterWith(defs, ReadParamsCorrected(defs))
  }

  /** Two outcomes that add a parameter, or are the same outcome otherwise. */
  predicate SameShape(a: ParamOutcome, b: ParamOutcome) {
    a.Added? == b.Added? && (!a.Added? ==> a == b)
  }

  /** Outcomes of the same shape log the same failures, abort alike, and add as many parameters. */
  lemma {:induction false} RegisterWithSameShape(defs: seq<string>, outs1: seq<ParamOutcome>, outs2: seq<ParamOutcome>)
    requires |outs1| == |defs| && |outs2| == |defs|
    requires forall i :: 0 <= i < |defs| ==> SameShape(outs1[i], outs2[i])
    ensures RegisterWith(defs, outs1).errors == RegisterWith(defs, outs2).errors
    ensures RegisterWith(defs, outs1).aborted == RegisterWith(defs, outs2).aborted
    ensures |RegisterWith(defs, outs1).params| == |RegisterWith(defs, outs2).params|
  {
    if |defs| > 0 {
      var n := |defs| - 1;
      assert forall i :: 0 <= i < n ==> outs1[..n][i] == outs1[i] && outs2[..n][i] == outs2[i];
      RegisterWithSameShape(defs[..n], outs1[..n], outs2[..n]);
      assert SameShape(outs1[n], outs2[n]);
    }
  }

  /**
   * The correction changes only `B` defaults: the same definitions are logged
   * as failed, registration aborts alike, and as many parameters are added.
   */
  lemma CorrectedRegistersAlike(defs: seq<string>)
    ensures RegisterAllCorrected(defs).errors == RegisterAll(defs).errors
    ensures RegisterAllCorrected(defs).aborted == RegisterAll(defs).aborted
    ensures |RegisterAllCorrected(defs).params| == |RegisterAll(defs).params|
  {
    RegisterAllWith(defs);
    forall i | 0 <= i < |defs| ensures SameShape(ReadParamsCorrected(defs)[i], ReadParams(defs)[i]) {
      ReadParamsAt(defs, i);
    }
    RegisterWithSameShape(defs, ReadParamsCorrected(defs), ReadParams(defs));
  }

  // ---------------------------------------------------------------------
  // Script events
  // ---------------------------------------------------------------------

  /** A script event: its name, the script event it raises, and its tokens. */
  datatype EventReg = EventReg(name: string, scriptEvent: string, tokens: seq<string>)

  /** An `E` definition registers an event; one with fewer than three fields raises out of the registration. */
  datatype EventOutcome = Event(reg: EventReg) | NotEvent | EventAborted

  /** `[t.strip() for t in parts[3:]]`, or none when there are at most three fields. */
  function Tokens(parts: seq<string>): (tokens: seq<string>)
    ensures |parts| <= 3 ==> tokens == []
    ensures |parts| > 3 ==> |tokens| == |parts| - 3
  {
    if |parts| > 3 then seq(|parts| - 3, i requires 0 <= i < |parts| - 3 => Strip(parts[3 + i])) else []
  }

  function ReadEventFields(parts: seq<string>): EventOutcome
    requires |parts| >= 1
  {
    if parts[0] != "E" then NotEvent
    else if |parts| < 3 then EventAborted
    else Event(EventReg(parts[1], parts[2], Tokens(parts)))
  }

  function ReadEvent(ddef: string): EventOutcome {
    ReadEventFields(Fields(ddef))
  }

  /** The events registered and whether registration stopped early. */
  datatype EventRegistration = EventRegistration(events: seq<EventReg>, aborted: bool)

  /** One more definition read, unless registration already stopped. */
  function RegisterEventOne(r: EventRegistration, outcome: EventOutcome): (next: EventRegistration)
    ensures |next.events| <= |r.events| + 1
  {
    if r.aborted then r
    else
      match outcome
      case Event(e) => r.(events := r.events + [e])
      case NotEvent => r
      case EventAborted => r.(aborted := true)
  }

  function RegisterEventsSpec(defs: seq<string>): (r: EventRegistration)
    ensures |r.events| <= |defs|
  {
    if |defs| == 0 then EventRegistration([], false)
    else RegisterEventOne(RegisterEventsSpec(defs[..|defs| - 1]), ReadEvent(defs[|defs| - 1]))
  }

  /** `register_dynamic_event`: the loop over the placeholders of an event path. */
  method RegisterEvents(defs: seq<string>) returns (r: EventRegistration)
    ensures r == RegisterEventsSpec(defs)
  {
    r := EventRegistration([], false);
    var i := 0;
    while i < |defs|
      invariant 0 <= i <= |defs|
      invariant r == RegisterEventsSpec(defs[..i])
    {
      assert defs[..i + 1][..i] == defs[..i];
      r := RegisterEventOne(r, ReadEvent(defs[i]));
      i := i + 1;
    }
    assert defs[..i] == defs;
  }

  lemma {:induction false} EventsStayAborted(defs: seq<string>, k: nat)
    requires k <= |defs| && RegisterEventsSpec(defs[..k]).aborted
    ensures RegisterEventsSpec(defs) == RegisterEventsSpec(defs[..k])
    decreases |defs| - k
  {
    if k < |defs| {
      assert defs[..k + 1][..k] == defs[..k];
      EventsStayAborted(defs, k + 1);
    } else {
      assert defs[..k] == defs;
    }
  }

  /** The tokens are the fields after the third, unchanged: the fields are already stripped. */
  lemma TokensAreTrailingFields(ddef: string)
    ensures |Fields(ddef)| > 3 ==> Tokens(Fields(ddef)) == Fields(ddef)[3..]
    ensures |Fields(ddef)| <= 3 ==> Tokens(Fields(ddef)) == []
  {
    var parts := Fields(ddef);
    if |parts| > 3 {
      assert forall i :: 0 <= i < |parts| - 3 ==> Tokens(parts)[i] == parts[3..][i];
    }
  }

  /**
   * One step keeps the earlier events, adds at most the definition's own, and
   * adds it whenever registration has not stopped.
   */
  lemma RegisterEventOneAdds(r: EventRegistration, o: EventOutcome)
    ensures forall e :: e in RegisterEventOne(r, o).events ==> e in r.events || o == Event(e)
    ensures forall e :: e in r.events ==> e in RegisterEventOne(r, o).events
    ensures !r.aborted && o.Event? ==> o.reg in RegisterEventOne(r, o).events
    ensures RegisterEventOne(r, o).aborted <==> r.aborted || o == EventAborted
  {
  }

  /** Event registration when definition i reads as `outs[i]`. */
  function RegisterEventsWith(outs: seq<EventOutcome>): (r: EventRegistration)
    ensures |r.events| <= |outs|
  {
    if |outs| == 0 then EventRegistration([], false)
    else RegisterEventOne(RegisterEventsWith(outs[..|outs| - 1]), outs[|outs| - 1])
  }

  /** How each definition reads as an event, in order. */
  function ReadEvents(defs: seq<string>): (outs: seq<EventOutcome>)
    ensures |outs| == |defs|
  {
    if |defs| == 0 then [] else ReadEvents(defs[..|defs| - 1]) + [ReadEvent(defs[|defs| - 1])]
  }

  lemma {:induction false} ReadEventsAt(defs: seq<string>, i: nat)
    requires i < |defs|
    ensures ReadEvents(defs)[i] == ReadEvent(defs[i])
  {
    if i < |defs| - 1 {
      ReadEventsAt(defs[..|defs| - 1], i);
    }
  }

  lemma {:induction false} RegisterEventsSpecWith(defs: seq<string>)
    ensures RegisterEventsSpec(defs) == RegisterEventsWith(ReadEvents(defs))
  {
    if |defs| > 0 {
      RegisterEventsSpecWith(defs[..|defs| - 1]);
    }
  }

  /**
   * Every registered event is some definition's event, and registration stops
   * early exactly when some definition stops it.
   */
  lemma {:induction false} EventsWith(outs: seq<EventOutcome>)
    ensures forall e :: e in RegisterEventsWith(outs).events ==> exists i :: 0 <= i < |outs| && outs[i] == Event(e)
    ensures !RegisterEventsWith(outs).aborted ==>
      forall i :: 0 <= i < |outs| && outs[i].Event? ==> outs[i].reg in RegisterEventsWith(outs).events
    ensures RegisterEventsWith(outs).aborted <==> exists i :: 0 <= i < |outs| && outs[i] == EventAborted
  {
    if |outs| > 0 {
      var n := |outs| - 1;
      EventsWith(outs[..n]);
      RegisterEventOneAdds(RegisterEventsWith(outs[..n]), outs[n]);
      assert forall i :: 0 <= i < n ==> outs[..n][i] == outs[i];
    }
  }

  /** Without an abort, an event is registered exactly when some outcome is that event. */
  lemma EventWith(outs: seq<EventOutcome>, e: EventReg)
    requires !RegisterEventsWith(outs).aborted
    ensures e in RegisterEventsWith(outs).events <==> exists i :: 0 <= i < |outs| && outs[i] == Event(e)
  {
    EventsWith(outs);
  }

  /**
   * Every registered event comes from an `E` definition with at least three
   * fields, and registration stops early exactly at an `E` definition with
   * fewer (`ReadEvents(defs)[i]` is `ReadEvent(defs[i])`, by `ReadEventsAt`).
   */
  lemma EventsFromDefinitions(defs: seq<string>)
    ensures forall e :: e in RegisterEventsSpec(defs).events ==>
      exists i :: 0 <= i < |defs| && ReadEvents(defs)[i] == Event(e)
    ensures RegisterEventsSpec(defs).aborted <==> exists i :: 0 <= i < |defs| && ReadEvents(defs)[i] == EventAborted
    ensures !RegisterEventsSpec(defs).aborted ==>
      forall i :: 0 <= i < |defs| && ReadEvents(defs)[i].Event? ==> ReadEvents(defs)[i].reg in RegisterEventsSpec(defs).events
  {
    RegisterEventsSpecWith(defs);
    EventsWith(ReadEvents(defs));
  }



  /** Only an `E` definition with fewer than three fields stops event registration. */
  lemma ReadEventAborts(d: string)
    ensures ReadEvent(d) == EventAborted <==> Fields(d)[0] == "E" && |Fields(d)| < 3
  {
  }

  /** An `E` definition with a name, a script event and two tokens. */
  lemma EventExample()
    ensures ReadEventFields(["E", "CueGo", "onCue", "a", "b"]) == Event(EventReg("CueGo", "onCue", ["a", "b"]))
    ensures ReadEventFields(["E", "CueGo"]) == EventAborted
    ensures ReadEventFields(["I", "Level", "0"]) == NotEvent
  {
    StripKeeps("a");
    StripKeeps("b");
    assert Tokens(["E", "CueGo", "onCue", "a", "b"]) == ["a", "b"];
  }
}
