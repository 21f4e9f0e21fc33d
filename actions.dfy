/**
 * Templated actions. An action has an address template and value templates;
 * their placeholders decide how many arguments an invocation takes. At
 * invocation the path placeholders consume the first arguments and are
 * replaced by the coerced text; the value placeholders consume the next ones
 * and become the list of values handed to the sender.
 */
module Actions {
  import opened Wrappers
  import opened Text
  import opened PyValues
  import opened Templates
  import opened Coercion
  import opened Wire

  /** An action as registered: its type, its templates and their placeholders. */
  datatype Action = Action(
    typeArg: TypeArg,
    path: string,
    values: seq<string>,
    pathDefs: seq<string>,
    valueDefs: seq<string>)

  /** The placeholders of all value templates, template by template. */
  function AllPlaceholders(templates: seq<string>): (defs: seq<string>)
    ensures forall i :: 0 <= i < |defs| ==> |defs[i]| > 0 && BraceFree(defs[i])
    ensures templates == [] ==> defs == []
  {
    if |templates| == 0 then []
    else AllPlaceholders(templates[..|templates| - 1]) + Placeholders(templates[|templates| - 1])
  }

  /** The action `oscAction` prepares from its type, path and value templates. */
  function Compile(typeArg: TypeArg, path: string, values: seq<string>): Action {
    Action(typeArg, path, values, Placeholders(path), AllPlaceholders(values))
  }

  /** The scan of `oscAction`: placeholders of the path, then of each value template in turn. */
  method Prepare(typeArg: TypeArg, path: string, values: seq<string>) returns (act: Action)
    ensures act == Compile(typeArg, path, values)
  {
    var valueDefs: seq<string> := [];
    var i := 0;
    while i < |values|
      invariant 0 <= i <= |values|
      invariant valueDefs == AllPlaceholders(values[..i])
    {
      assert values[..i + 1][..i] == values[..i];
      valueDefs := valueDefs + Placeholders(values[i]);
      i := i + 1;
    }
    assert values[..i] == values;
    act := Action(typeArg, path, values, Placeholders(path), valueDefs);
  }

  /** The number of arguments an invocation needs: the callback and one per placeholder. */
  function Arity(act: Action): nat {
    1 + |act.pathDefs| + |act.valueDefs|
  }

  /** The address after the first `k` path placeholders were replaced, each at every occurrence. */
  function PathAfter(path: string, defs: seq<string>, dyn: seq<Value>, k: nat): string
    requires k <= |defs| <= |dyn|
  {
    if k == 0 then path
    else
      var d := defs[k - 1];
      Replace(PathAfter(path, defs, dyn, k - 1), "{" + d + "}", PathText(Resolve(d, dyn[k - 1])))
  }

  /** The value list for definitions `defs`, the i-th coerced from `xs[i]`. */
  function ValuesOf(defs: seq<string>, xs: seq<Value>): (vs: seq<Value>)
    requires |defs| <= |xs|
    ensures |vs| == |defs|
  {
    if |defs| == 0 then []
    else ValuesOf(defs[..|defs| - 1], xs) + [SendValue(Resolve(defs[|defs| - 1], xs[|defs| - 1]))]
  }

  /** Value i is coerced from argument i against definition i. */
  lemma {:induction false} ValuesOfAt(defs: seq<string>, xs: seq<Value>, i: nat)
    requires |defs| <= |xs| && i < |defs|
    ensures ValuesOf(defs, xs)[i] == SendValue(Resolve(defs[i], xs[i]))
  {
    if i < |defs| - 1 {
      ValuesOfAt(defs[..|defs| - 1], xs, i);
    }
  }

  /** The definitions among `defs` whose coercion fell back (each one is logged). */
  function FallbacksOf(defs: seq<string>, xs: seq<Value>): (errs: seq<string>)
    requires |defs| <= |xs|
    ensures forall e :: e in errs ==> e in defs
  {
    if |defs| == 0 then []
    else
      var last := defs[|defs| - 1];
      FallbacksOf(defs[..|defs| - 1], xs) + (if Resolve(last, xs[|defs| - 1]).Fallback? then [last] else [])
  }

  /** A placeholder whose coercion fell back is logged. */
  lemma {:induction false} FallbackLogged(defs: seq<string>, xs: seq<Value>, k: nat)
    requires |defs| <= |xs| && k < |defs| && Resolve(defs[k], xs[k]).Fallback?
    ensures defs[k] in FallbacksOf(defs, xs)
  {
    var n := |defs| - 1;
    var front := FallbacksOf(defs[..n], xs);
    var tail := if Resolve(defs[n], xs[n]).Fallback? then [defs[n]] else [];
    assert FallbacksOf(defs, xs) == front + tail;
    if k < n {
      assert defs[..n][k] == defs[k];
      FallbackLogged(defs[..n], xs, k);
      assert defs[k] in front;
    } else {
      assert k == n;
      assert tail == [defs[n]];
    }
  }

  /** Every logged placeholder is one whose coercion fell back. */
  lemma {:induction false} LoggedFellBack(defs: seq<string>, xs: seq<Value>, e: string)
    requires |defs| <= |xs| && e in FallbacksOf(defs, xs)
    ensures exists k :: 0 <= k < |defs| && defs[k] == e && Resolve(defs[k], xs[k]).Fallback?
  {
    var n := |defs| - 1;
    if e in FallbacksOf(defs[..n], xs) {
      LoggedFellBack(defs[..n], xs, e);
      var k :| 0 <= k < n && defs[..n][k] == e && Resolve(defs[..n][k], xs[k]).Fallback?;
      assert defs[k] == e;
    }
  }

  /** A placeholder is logged exactly when its own coercion fell back. */
  lemma FallbacksLogged(defs: seq<string>, xs: seq<Value>, e: string)
    requires |defs| <= |xs|
    ensures e in FallbacksOf(defs, xs) <==> exists k :: 0 <= k < |defs| && defs[k] == e && Resolve(defs[k], xs[k]).Fallback?
  {
    if e in FallbacksOf(defs, xs) {
      LoggedFellBack(defs, xs, e);
    }
    if exists k :: 0 <= k < |defs| && defs[k] == e && Resolve(defs[k], xs[k]).Fallback? {
      var k :| 0 <= k < |defs| && defs[k] == e && Resolve(defs[k], xs[k]).Fallback?;
      FallbackLogged(defs, xs, k);
    }
  }

  /** Whether value placeholders are substituted: not for `Bare`, and only when there are some. */
  predicate HasValues(act: Action) {
    act.typeArg != Enum(Bare) && |act.valueDefs| > 0
  }

  /**
   * What one invocation does: too few arguments logs an error and returns
   * without calling back or sending; otherwise the address and the value list
   * are built, the errors of the coercions that fell back are logged, the
   * message is handed to the sender, and the callback gets `reported`.
   */
  datatype Invocation =
    | NotEnoughArgs(got: nat, expected: nat)
    | Completed(path: string, sendValues: seq<Value>, errors: seq<string>, reported: bool)

  /**
   * An invocation with the callback and then `args`. What is reported does not
   * depend on the send: the sender catches its own exceptions.
   */
  function InvocationSpec(act: Action, args: seq<Value>): Invocation {
    if 1 + |args| < Arity(act) then NotEnoughArgs(1 + |args|, Arity(act))
    else Complete(act, args[..Arity(act) - 1])
  }

  /** An invocation with exactly the arguments its placeholders consume. */
  function Complete(act: Action, dyn: seq<Value>): Invocation
    requires |dyn| == |act.pathDefs| + |act.valueDefs|
  {
    var np := |act.pathDefs|;
    var path := PathAfter(act.path, act.pathDefs, dyn, np);
    var rest := dyn[np..];
    var sendValues := if HasValues(act) then ValuesOf(act.valueDefs, rest) else [];
    var errors := FallbacksOf(act.pathDefs, dyn) + (if HasValues(act) then FallbacksOf(act.valueDefs, rest) else []);
    Completed(path, sendValues, errors, true)
  }

  /** What the sender does with a completed invocation: `send(path, type, values)`. */
  function Delivery(cfg: Endpoint, act: Action, inv: Invocation): SendOutcome
    requires inv.Completed?
  {
    SendSpec(cfg, inv.path, act.typeArg, VList(inv.sendValues))
  }

  // ---------------------------------------------------------------------
  // Properties
  // ---------------------------------------------------------------------

  /** Placeholders are found left to right in the path and then in each value template. */
  lemma {:induction false} AllPlaceholdersAppend(templates: seq<string>, t: string)
    ensures AllPlaceholders(templates + [t]) == AllPlaceholders(templates) + Placeholders(t)
  {
    assert (templates + [t])[..|templates|] == templates;
  }

  /** An invocation stops before calling back exactly when it has fewer arguments than the arity. */
  lemma ArityGuard(act: Action, args: seq<Value>)
    ensures InvocationSpec(act, args).NotEnoughArgs? <==> 1 + |args| < Arity(act)
    ensures InvocationSpec(act, args).NotEnoughArgs? ==>
      InvocationSpec(act, args) == NotEnoughArgs(1 + |args|, 1 + |act.pathDefs| + |act.valueDefs|)
    ensures InvocationSpec(act, args).Completed? ==> InvocationSpec(act, args).reported
  {
  }

  /** Arguments beyond the arity are ignored. */
  lemma ExtraArgsIgnored(act: Action, args: seq<Value>, extra: seq<Value>)
    requires 1 + |args| >= Arity(act)
    ensures InvocationSpec(act, args + extra) == InvocationSpec(act, args)
  {
    var n := Arity(act) - 1;
    assert (args + extra)[..n] == args[..n];
    calc {
      InvocationSpec(act, args + extra);
      Complete(act, (args + extra)[..n]);
      Complete(act, args[..n]);
      InvocationSpec(act, args);
    }
  }

  /**
   * Path placeholders consume the first arguments; value placeholder i
   * consumes the argument after all path placeholders' and the i before it.
   * There is one value per value placeholder, in order.
   */
  lemma PathFirstOrdering(act: Action, args: seq<Value>)
    requires 1 + |args| >= Arity(act) && HasValues(act)
    ensures var inv := InvocationSpec(act, args);
      |inv.sendValues| == |act.valueDefs| &&
      forall i :: 0 <= i < |act.valueDefs| ==>
        inv.sendValues[i] == SendValue(Resolve(act.valueDefs[i], args[|act.pathDefs| + i]))
  {
    var dyn := args[..Arity(act) - 1];
    var rest := dyn[|act.pathDefs|..];
    forall i | 0 <= i < |act.valueDefs|
      ensures InvocationSpec(act, args).sendValues[i] == SendValue(Resolve(act.valueDefs[i], args[|act.pathDefs| + i]))
    {
      ValuesOfAt(act.valueDefs, rest, i);
      assert rest[i] == args[|act.pathDefs| + i];
    }
  }

  /** A `Bare` action, or one without value placeholders, sends no values. */
  lemma NoValuesWithoutValuePlaceholders(act: Action, args: seq<Value>)
    requires 1 + |args| >= Arity(act) && !HasValues(act)
    ensures InvocationSpec(act, args).sendValues == []
  {
  }

  /** A `Bare` action sends its address with no arguments. */
  lemma BareSendsAddressOnly(cfg: Endpoint, act: Action, args: seq<Value>)
    requires 1 + |args| >= Arity(act) && act.typeArg == Enum(Bare)
    ensures var inv := InvocationSpec(act, args);
      Delivery(cfg, act, inv) == Sent(Datagram(cfg.host, cfg.port, cfg.prefix + inv.path, []))
  {
    NoValuesWithoutValuePlaceholders(act, args);
    assert Inputs(VList([])) == [];
    assert ConvertAll("", []) == Some([]);
  }

  /** A path without placeholders is sent as it is. */
  lemma PlainPathUnchanged(act: Action, args: seq<Value>)
    requires 1 + |args| >= Arity(act) && act.pathDefs == []
    ensures InvocationSpec(act, args).path == act.path
  {
  }

  /**
   * A pattern starting with a brace that follows brace-free text `a` and does
   * not occur in `b` is replaced at that one place.
   */
  lemma ReplaceAfterBraceFree(a: string, p: string, b: string, t: string)
    requires |p| > 0 && p[0] == '{' && BraceFree(a) && !Occurs(p, b)
    ensures Replace(a + p + b, p, t) == a + t + b
  {
    var s := a + p + b;
    assert s[|a|..|a| + |p|] == p;
    assert OccursAt(s, p, |a|);
    forall j | 0 <= j < |a| ensures !OccursAt(s, p, j) {
      assert s[j] == a[j];
      if j + |p| <= |s| {
        assert s[j..j + |p|][0] == s[j];
      }
    }
    assert IndexOf(s, p) == Some(|a|);
    assert s[..|a|] == a;
    assert s[|a| + |p|..] == b;
    assert IndexOf(b, p) == None;
    assert SplitOn(s, p) == [a] + SplitOn(b, p);
    assert SplitOn(b, p) == [b];
    assert Join([a, b], t) == a + t + Join([b], t);
  }

  /** Without a brace in `g0` and `g1`, a pattern starting with a brace occurs only between them. */
  lemma ReplaceBetween(g0: string, p: string, g1: string, t: string)
    requires |p| > 0 && p[0] == '{' && BraceFree(g0) && BraceFree(g1)
    ensures Replace(g0 + p + g1, p, t) == g0 + t + g1
  {
    forall j | 0 <= j ensures !OccursAt(g1, p, j) {
      if j + |p| <= |g1| {
        assert g1[j..j + |p|][0] == g1[j];
      }
    }
    ReplaceAfterBraceFree(g0, p, g1, t);
  }

  /** The only placeholder of an address with one placeholder between brace-free text. */
  lemma OnePlaceholderFound(g0: string, d: string, g1: string)
    requires BraceFree(g0) && BraceFree(g1) && |d| > 0 && BraceFree(d)
    ensures Placeholders(g0 + "{" + d + "}" + g1) == [d]
  {
    assert g0 + "{" + d + "}" + g1 == Render([g0, g1], [d]) by {
      assert Render([g1], []) == g1;
      assert [g0, g1][1..] == [g1];
      assert [d][1..] == [];
    }
    PlaceholdersOfRender([g0, g1], [d]);
  }

  /** With one path placeholder, every occurrence of it is replaced by the coerced first argument. */
  lemma OnePathDefinition(act: Action, d: string, args: seq<Value>)
    requires act.pathDefs == [d] && 1 + |args| >= Arity(act)
    ensures InvocationSpec(act, args).path == Replace(act.path, "{" + d + "}", PathText(Resolve(d, args[0])))
  {
    var dyn := args[..Arity(act) - 1];
    assert InvocationSpec(act, args).path == PathAfter(act.path, [d], dyn, 1);
    assert dyn[0] == args[0];
  }

  /**
   * An address with one placeholder between brace-free text gets that
   * placeholder replaced by the coerced first argument.
   */
  lemma OnePathPlaceholder(act: Action, g0: string, d: string, g1: string, args: seq<Value>)
    requires BraceFree(g0) && BraceFree(g1)
    requires act.path == g0 + ("{" + d + "}") + g1 && act.pathDefs == [d]
    requires 1 + |args| >= Arity(act)
    ensures InvocationSpec(act, args).path == g0 + PathText(Resolve(d, args[0])) + g1
  {
    var text := PathText(Resolve(d, args[0]));
    OnePathDefinition(act, d, args);
    ReplaceBetween(g0, "{" + d + "}", g1, text);
  }

  /** Gap 0, text 0, gap 1, text 1, …: each gap followed by the text put in place of the placeholder after it. */
  function Substituted(gaps: seq<string>, texts: seq<string>): string
    requires |gaps| == |texts|
  {
    if |gaps| == 0 then ""
    else Substituted(gaps[..|gaps| - 1], texts[..|texts| - 1]) + gaps[|gaps| - 1] + texts[|texts| - 1]
  }

  /** The texts the first `k` path placeholders are replaced by: each one's coerced argument. */
  function PathTexts(defs: seq<string>, dyn: seq<Value>, k: nat): seq<string>
    requires k <= |defs| && k <= |dyn|
  {
    seq(k, i requires 0 <= i < k => PathText(Resolve(defs[i], dyn[i])))
  }

  /** Brace-free gaps filled with brace-free texts hold no brace. */
  lemma {:induction false} SubstitutedBraceFree(gaps: seq<string>, texts: seq<string>)
    requires |gaps| == |texts|
    requires forall i :: 0 <= i < |gaps| ==> BraceFree(gaps[i]) && BraceFree(texts[i])
    ensures BraceFree(Substituted(gaps, texts))
    decreases |gaps|
  {
    if |gaps| > 0 {
      var n := |gaps| - 1;
      SubstitutedBraceFree(gaps[..n], texts[..n]);
      assert BraceFree(gaps[n]) && BraceFree(texts[n]);
    }
  }

  /** `path` with each `{defs[i]}`, in order, replaced at every occurrence by `texts[i]`. */
  function ReplaceEach(path: string, defs: seq<string>, texts: seq<string>): string
    requires |defs| == |texts|
  {
    if |defs| == 0 then path
    else
      var n := |defs| - 1;
      Replace(ReplaceEach(path, defs[..n], texts[..n]), "{" + defs[n] + "}", texts[n])
  }

  /** The address after `k` path placeholders is the chain of replacements by their coerced texts. */
  lemma {:induction false} PathAfterEach(path: string, defs: seq<string>, dyn: seq<Value>, k: nat)
    requires k <= |defs| <= |dyn|
    ensures PathAfter(path, defs, dyn, k) == ReplaceEach(path, defs[..k], PathTexts(defs, dyn, k))
    decreases k
  {
    if k > 0 {
      PathAfterEach(path, defs, dyn, k - 1);
      assert defs[..k][..k - 1] == defs[..k - 1];
      assert PathTexts(defs, dyn, k)[..k - 1] == PathTexts(defs, dyn, k - 1);
    }
  }

  /** A rendered template from its `k`-th gap on: that gap, the braced definition, the rest. */
  lemma RenderFrom(gaps: seq<string>, defs: seq<string>, k: nat)
    requires |gaps| == |defs| + 1 && 0 < k <= |defs|
    ensures Render(gaps[k - 1..], defs[k - 1..]) == gaps[k - 1] + ("{" + defs[k - 1] + "}") + Render(gaps[k..], defs[k..])
  {
    assert gaps[k - 1..][1..] == gaps[k..] && defs[k - 1..][1..] == defs[k..];
  }

  /** Substituting `k` placeholders is substituting `k - 1` and then the next. */
  lemma SubstitutedPrefix(gaps: seq<string>, texts: seq<string>, k: nat)
    requires 0 < k <= |gaps| && k <= |texts|
    ensures Substituted(gaps[..k], texts[..k]) == Substituted(gaps[..k - 1], texts[..k - 1]) + gaps[k - 1] + texts[k - 1]
  {
    assert gaps[..k][..k - 1] == gaps[..k - 1] && texts[..k][..k - 1] == texts[..k - 1];
  }

  /** Replacing `k` placeholders is replacing `k - 1` and then the next. */
  lemma ReplaceEachPrefix(path: string, defs: seq<string>, texts: seq<string>, k: nat)
    requires |defs| == |texts| && 0 < k <= |defs|
    ensures ReplaceEach(path, defs[..k], texts[..k]) ==
      Replace(ReplaceEach(path, defs[..k - 1], texts[..k - 1]), "{" + defs[k - 1] + "}", texts[k - 1])
  {
    assert defs[..k][..k - 1] == defs[..k - 1] && texts[..k][..k - 1] == texts[..k - 1];
  }

  /** Among distinct definitions, the `k`-th is none of those after it. */
  lemma DistinctFromLater(defs: seq<string>, k: nat)
    requires 0 < k <= |defs|
    requires forall i, j :: 0 <= i < j < |defs| ==> defs[i] != defs[j]
    ensures defs[k - 1] !in defs[k..]
  {
    forall m | 0 <= m < |defs| - k ensures defs[k..][m] != defs[k - 1] {
      assert defs[k..][m] == defs[k + m];
    }
  }

  /** Replacing the next placeholder, after brace-free text, in the rest of a rendered template. */
  lemma ReplaceNext(gaps: seq<string>, defs: seq<string>, k: nat, before: string, t: string)
    requires |gaps| == |defs| + 1 && 0 < k <= |defs|
    requires forall i :: 0 <= i < |gaps| ==> BraceFree(gaps[i])
    requires forall i :: 0 <= i < |defs| ==> BraceFree(defs[i])
    requires forall i, j :: 0 <= i < j < |defs| ==> defs[i] != defs[j]
    requires BraceFree(before)
    ensures Replace(before + Render(gaps[k - 1..], defs[k - 1..]), "{" + defs[k - 1] + "}", t) ==
      before + gaps[k - 1] + t + Render(gaps[k..], defs[k..])
  {
    var p := "{" + defs[k - 1] + "}";
    var b := Render(gaps[k..], defs[k..]);
    RenderFrom(gaps, defs, k);
    assert BraceFree(before + gaps[k - 1]) by {
      assert BraceFree(gaps[k - 1]);
    }
    DistinctFromLater(defs, k);
    BracedAbsent(gaps[k..], defs[k..], defs[k - 1]);
    ReplaceAfterBraceFree(before + gaps[k - 1], p, b, t);
    assert before + Render(gaps[k - 1..], defs[k - 1..]) == before + gaps[k - 1] + p + b;
  }

  /**
   * Replacing the first `k` placeholders of an address rendered from
   * brace-free gaps and distinct brace-free definitions, by brace-free texts,
   * substitutes exactly those `k` and leaves the rest of the template as it was.
   */
  lemma {:induction false} ReplaceEachRender(gaps: seq<string>, defs: seq<string>, texts: seq<string>, k: nat)
    requires |gaps| == |defs| + 1 && |texts| == |defs| && k <= |defs|
    requires forall i :: 0 <= i < |gaps| ==> BraceFree(gaps[i])
    requires forall i :: 0 <= i < |defs| ==> BraceFree(defs[i]) && BraceFree(texts[i])
    requires forall i, j :: 0 <= i < j < |defs| ==> defs[i] != defs[j]
    ensures ReplaceEach(Render(gaps, defs), defs[..k], texts[..k]) ==
      Substituted(gaps[..k], texts[..k]) + Render(gaps[k..], defs[k..])
    decreases k
  {
    if k == 0 {
      assert gaps[0..] == gaps && defs[0..] == defs;
    } else {
      ReplaceEachRender(gaps, defs, texts, k - 1);
      var before := Substituted(gaps[..k - 1], texts[..k - 1]);
      SubstitutedBraceFree(gaps[..k - 1], texts[..k - 1]);
      ReplaceNext(gaps, defs, k, before, texts[k - 1]);
      ReplaceEachPrefix(Render(gaps, defs), defs, texts, k);
      SubstitutedPrefix(gaps, texts, k);
    }
  }

  /** The coerced texts depend only on the arguments the placeholders consume. */
  lemma PathTextsOfPrefix(defs: seq<string>, args: seq<Value>, m: nat, k: nat)
    requires k <= |defs| && k <= m <= |args|
    ensures PathTexts(defs, args[..m], k) == PathTexts(defs, args, k)
  {
    forall i | 0 <= i < k ensures PathTexts(defs, args[..m], k)[i] == PathTexts(defs, args, k)[i] {
      assert args[..m][i] == args[i];
    }
  }

  /** The address after `k` placeholders depends only on the arguments they consume. */
  lemma PathAfterOfPrefix(path: string, defs: seq<string>, args: seq<Value>, m: nat, k: nat)
    requires k <= |defs| <= m <= |args|
    ensures PathAfter(path, defs, args[..m], k) == PathAfter(path, defs, args, k)
  {
    calc {
      PathAfter(path, defs, args[..m], k);
      { PathAfterEach(path, defs, args[..m], k); }
      ReplaceEach(path, defs[..k], PathTexts(defs, args[..m], k));
      { PathTextsOfPrefix(defs, args, m, k); }
      ReplaceEach(path, defs[..k], PathTexts(defs, args, k));
      { PathAfterEach(path, defs, args, k); }
      PathAfter(path, defs, args, k);
    }
  }


  /** The path of a completed invocation is the address after all its path placeholders. */
  lemma InvocationPath(act: Action, args: seq<Value>)
    requires 1 + |args| >= Arity(act)
    ensures InvocationSpec(act, args).path == PathAfter(act.path, act.pathDefs, args, |act.pathDefs|)
  {
    var m, k := Arity(act) - 1, |act.pathDefs|;
    assert InvocationSpec(act, args) == Complete(act, args[..m]);
    CompletePath(act, args[..m]);
    PathAfterOfPrefix(act.path, act.pathDefs, args, m, k);
    assert PathAfter(act.path, act.pathDefs, args[..m], k) == PathAfter(act.path, act.pathDefs, args, k);
  }

  lemma CompletePath(act: Action, dyn: seq<Value>)
    requires |dyn| == |act.pathDefs| + |act.valueDefs|
    ensures Complete(act, dyn).path == PathAfter(act.path, act.pathDefs, dyn, |act.pathDefs|)
  {
  }




  /** All path placeholders of a rendered address, replaced by brace-free coerced texts. */
  lemma RenderedPath(gaps: seq<string>, defs: seq<string>, dyn: seq<Value>)
    requires |gaps| == |defs| + 1 && |defs| <= |dyn|
    requires forall i :: 0 <= i < |gaps| ==> BraceFree(gaps[i])
    requires forall i :: 0 <= i < |defs| ==> BraceFree(defs[i])
    requires forall i, j :: 0 <= i < j < |defs| ==> defs[i] != defs[j]
    requires forall i :: 0 <= i < |defs| ==> BraceFree(PathTexts(defs, dyn, |defs|)[i])
    ensures PathAfter(Render(gaps, defs), defs, dyn, |defs|) == Substituted(gaps[..|defs|], PathTexts(defs, dyn, |defs|)) + gaps[|defs|]
  {
    var n := |defs|;
    var texts := PathTexts(defs, dyn, n);
    PathAfterEach(Render(gaps, defs), defs, dyn, n);
    assert defs[..n] == defs && texts[..n] == texts;
    ReplaceEachRender(gaps, defs, texts, n);
    assert Render(gaps[n..], defs[n..]) == gaps[n] by {
      assert gaps[n..] == [gaps[n]] && defs[n..] == [];
    }
  }

  /**
   * An address rendered from brace-free gaps and distinct brace-free
   * definitions is sent as its gaps with each placeholder replaced by its
   * coerced argument, in order, when no coerced text holds a brace.
   */
  lemma PathPlaceholders(act: Action, gaps: seq<string>, args: seq<Value>)
    requires |gaps| == |act.pathDefs| + 1 && act.path == Render(gaps, act.pathDefs)
    requires forall i :: 0 <= i < |gaps| ==> BraceFree(gaps[i])
    requires forall i :: 0 <= i < |act.pathDefs| ==> BraceFree(act.pathDefs[i])
    requires forall i, j :: 0 <= i < j < |act.pathDefs| ==> act.pathDefs[i] != act.pathDefs[j]
    requires 1 + |args| >= Arity(act)
    requires forall i :: 0 <= i < |act.pathDefs| ==> BraceFree(PathText(Resolve(act.pathDefs[i], args[i])))
    ensures InvocationSpec(act, args).path ==
      Substituted(gaps[..|act.pathDefs|], PathTexts(act.pathDefs, args, |act.pathDefs|)) + gaps[|act.pathDefs|]
  {
    InvocationPath(act, args);
    RenderedPath(gaps, act.pathDefs, args);
  }

  /**
   * The same for an action as `oscAction` prepares it: the placeholders it
   * finds in such an address are exactly the definitions it was rendered from.
   */
  lemma CompiledPath(ta: TypeArg, gaps: seq<string>, defs: seq<string>, values: seq<string>, args: seq<Value>)
    requires |gaps| == |defs| + 1
    requires forall i :: 0 <= i < |gaps| ==> BraceFree(gaps[i])
    requires forall i :: 0 <= i < |defs| ==> |defs[i]| > 0 && BraceFree(defs[i])
    requires forall i, j :: 0 <= i < j < |defs| ==> defs[i] != defs[j]
    requires |defs| <= |args| && 1 + |args| >= Arity(Compile(ta, Render(gaps, defs), values))
    requires forall i :: 0 <= i < |defs| ==> BraceFree(PathText(Resolve(defs[i], args[i])))
    ensures InvocationSpec(Compile(ta, Render(gaps, defs), values), args).path ==
      Substituted(gaps[..|defs|], PathTexts(defs, args, |defs|)) + gaps[|defs|]
  {
    PlaceholdersOfRender(gaps, defs);
    PathPlaceholders(Compile(ta, Render(gaps, defs), values), gaps, args);
  }

  // ---------------------------------------------------------------------
  // Worked invocations
  // ---------------------------------------------------------------------

  /** Kind I with at most six fields reads the decimal text of a number as that number. */
  lemma IntFields(parts: seq<string>, n: nat)
    requires 1 <= |parts| <= 6 && parts[0] == "I"
    ensures ResolveFields(parts, VStr(IntToString(n))) == AsInt(n)
  {
    var raw := VStr(IntToString(n));
    assert PyFloat(raw) == Some(n as real) by {
      ParseDecimalOfNat(n);
    }
    NoSeventhFieldNoModifier(parts, raw);
    NumericKinds(parts, raw, n as real);
  }

  /** An address with no placeholder. */
  lemma NoPlaceholders(path: string)
    requires BraceFree(path)
    ensures Placeholders(path) == []
  {
    assert Render([path], []) == path;
    PlaceholdersOfRender([path], []);
  }

  /** "I, State, 0, 0, 2" is the comma-joined definition I, State, 0, 0, 2. */
  lemma StateDefinitionText()
    ensures CommaJoined(["I", " State", " 0", " 0", " 2"]) == "I, State, 0, 0, 2"
  {
  }

  /** Its fields, stripped. */
  lemma StateDefinitionFields()
    ensures Fields(CommaJoined(["I", " State", " 0", " 0", " 2"])) == ["I", "State", "0", "0", "2"]
  {
    FieldsOfFiveParts("I", " State", " 0", " 0", " 2");
    StripKeeps("I");
    StripLeadingBlank("State");
    StripLeadingBlank("0");
    StripLeadingBlank("2");
  }

  /**
   * A `Bare` action whose address has one placeholder and no value templates,
   * invoked with one argument, sends the substituted address with no arguments.
   */
  lemma OnePlaceholderBare(cfg: Endpoint, act: Action, g0: string, d: string, g1: string, arg: Value)
    requires BraceFree(g0) && BraceFree(g1)
    requires act.typeArg == Enum(Bare) && act.path == g0 + ("{" + d + "}") + g1
    requires act.pathDefs == [d] && act.valueDefs == []
    ensures var path := g0 + PathText(Resolve(d, arg)) + g1;
      var inv := InvocationSpec(act, [arg]);
      inv == Completed(path, [], FallbacksOf([d], [arg]), true) &&
      Delivery(cfg, act, inv) == Sent(Datagram(cfg.host, cfg.port, cfg.prefix + path, []))
  {
    var inv := InvocationSpec(act, [arg]);
    assert inv.Completed? && inv.reported by {
      ArityGuard(act, [arg]);
    }
    assert inv.path == g0 + PathText(Resolve(d, arg)) + g1 by {
      OnePathPlaceholder(act, g0, d, g1, [arg]);
    }
    assert inv.sendValues == [] by {
      NoValuesWithoutValuePlaceholders(act, [arg]);
    }
    assert inv.errors == FallbacksOf([d], [arg]) by {
      assert [arg][..1] == [arg];
    }
    BareSendsAddressOnly(cfg, act, [arg]);
  }

  /**
   * A `Bare` action on "/CueList/PlaybackState/{I, State, 0, 0, 2}", the one
   * `Compile` prepares from that address, invoked with "2" sends
   * "/CueList/PlaybackState/2" with no arguments. `d` is any definition with
   * the fields I, State, 0, 0, 2, such as "I, State, 0, 0, 2" itself
   * (`StateDefinitionText`, `StateDefinitionFields`).
   */
  lemma BareActionExample(cfg: Endpoint, d: string)
    requires BraceFree(d) && Fields(d) == ["I", "State", "0", "0", "2"]
    ensures var act := Action(Enum(Bare), "/CueList/PlaybackState/{" + d + "}", [], [d], []);
      var inv := InvocationSpec(act, [VStr("2")]);
      Compile(Enum(Bare), "/CueList/PlaybackState/{" + d + "}", []) == act &&
      inv == Completed("/CueList/PlaybackState/2", [], [], true) &&
      Delivery(cfg, act, inv) == Sent(Datagram(cfg.host, cfg.port, cfg.prefix + "/CueList/PlaybackState/2", []))
  {
    var g0 := "/CueList/PlaybackState/";
    var act := Action(Enum(Bare), "/CueList/PlaybackState/{" + d + "}", [], [d], []);
    var text := PathText(Resolve(d, VStr("2")));
    assert text == "2" && FallbacksOf([d], [VStr("2")]) == [] by {
      assert Resolve(d, VStr("2")) == AsInt(2) by {
        assert IntToString(2) == "2";
        IntFields(Fields(d), 2);
      }
    }
    StateAddress(d);
    OnePlaceholderBare(cfg, act, g0, d, "", VStr("2"));
    ManyFieldsNonEmpty(d);
    StateActionCompiled(d);
  }

  /** The action `oscAction` prepares for the playback-state address finds its one placeholder. */
  lemma StateActionCompiled(d: string)
    requires |d| > 0 && BraceFree(d)
    ensures Compile(Enum(Bare), "/CueList/PlaybackState/{" + d + "}", []) ==
      Action(Enum(Bare), "/CueList/PlaybackState/{" + d + "}", [], [d], [])
  {
    var g0 := "/CueList/PlaybackState/";
    StateAddress(d);
    OnePlaceholderFound(g0, d, "");
    assert g0 + "{" + d + "}" + "" == "/CueList/PlaybackState/{" + d + "}";
  }



  /** The address around the placeholder of `BareActionExample`. */
  lemma StateAddress(d: string)
    ensures BraceFree("/CueList/PlaybackState/")
    ensures "/CueList/PlaybackState/{" + d + "}" == "/CueList/PlaybackState/" + ("{" + d + "}") + ""
    ensures "/CueList/PlaybackState/" + "2" + "" == "/CueList/PlaybackState/2"
  {
  }

  /** "I, Index, 0, 0, 999" is the comma-joined definition I, Index, 0, 0, 999. */
  lemma IndexDefinitionText()
    ensures CommaJoined(["I", " Index", " 0", " 0", " 999"]) == "I, Index, 0, 0, 999"
  {
  }

  /** Its fields, stripped. */
  lemma IndexDefinitionFields()
    ensures Fields(CommaJoined(["I", " Index", " 0", " 0", " 999"])) == ["I", "Index", "0", "0", "999"]
  {
    FieldsOfFiveParts("I", " Index", " 0", " 0", " 999");
    StripKeeps("I");
    StripLeadingBlank("Index");
    StripLeadingBlank("0");
    StripLeadingBlank("999");
  }

  /** The placeholders of a plain address and one single-placeholder value template. */
  lemma OneValueCompiled(ta: TypeArg, path: string, d: string)
    requires BraceFree(path) && |d| > 0 && BraceFree(d)
    ensures Compile(ta, path, ["{" + d + "}"]) == Action(ta, path, ["{" + d + "}"], [], [d])
  {
    var t := "{" + d + "}";
    assert t == "" + "{" + d + "}" + "";
    OnePlaceholderFound("", d, "");
    NoPlaceholders(path);
    assert [t][..0] == [];
  }

  /** The cue-index action: one value placeholder and a plain address. */
  lemma IndexActionCompiled(d: string)
    requires |d| > 0 && BraceFree(d)
    ensures Compile(Enum(Int), "/Cues/Index", ["{" + d + "}"]) == Action(Enum(Int), "/Cues/Index", ["{" + d + "}"], [], [d])
  {
    OneValueCompiled(Enum(Int), "/Cues/Index", d);
  }

  /** The colour action: one value placeholder and a plain address. */
  lemma ColourActionCompiled(d: string)
    requires |d| > 0 && BraceFree(d)
    ensures Compile(Enum(Color), "/Color", ["{" + d + "}"]) == Action(Enum(Color), "/Color", ["{" + d + "}"], [], [d])
  {
    OneValueCompiled(Enum(Color), "/Color", d);
  }


  /**
   * An action without path placeholders and with one value placeholder,
   * invoked with one argument, sends that argument's coerced value.
   */
  lemma OneValuePlaceholder(act: Action, d: string, arg: Value)
    requires act.pathDefs == [] && act.valueDefs == [d] && act.typeArg != Enum(Bare)
    ensures InvocationSpec(act, [arg]) ==
      Completed(act.path, [SendValue(Resolve(d, arg))], FallbacksOf([d], [arg]), true)
  {
    assert [arg][..1] == [arg] && [arg][0..] == [arg];
    PathFirstOrdering(act, [arg]);
  }

  /** A one-int list under the `Int` type is sent as one int argument. */
  lemma IntListSends(cfg: Endpoint, address: string, n: int)
    ensures SendSpec(cfg, address, Enum(Int), VList([VInt(n)])) ==
      Sent(Datagram(cfg.host, cfg.port, cfg.prefix + address, [OInt(n)]))
  {
    EnumSendsAsLetter(cfg, address, Int, VList([VInt(n)]));
    assert ConvertAll("i", [VInt(n)]) == Some([OInt(n)]);
    assert Added(Some("i"), [OInt(n)]) == [OInt(n)];
  }

  /** Tag `r` on a list holding text raises: text is not a colour tuple. */
  lemma ColourTextFails(cfg: Endpoint, address: string, s: string)
    ensures SendSpec(cfg, address, Enum(Color), VList([VStr(s)])) == Failed
  {
    assert ConvertAll("r", [VStr(s)]) == None by {
      assert Convert("r", VStr(s)) == None;
    }
  }

  /**
   * An `Int` action on "/Cues/Index" with the value template
   * "{I, Index, 0, 0, 999}", the one `Compile` prepares from those templates,
   * invoked with "7", sends one int argument 7.
   */
  lemma IntValueExample(cfg: Endpoint, d: string)
    requires BraceFree(d) && Fields(d) == ["I", "Index", "0", "0", "999"]
    ensures var act := Action(Enum(Int), "/Cues/Index", ["{" + d + "}"], [], [d]);
      var inv := InvocationSpec(act, [VStr("7")]);
      Compile(Enum(Int), "/Cues/Index", ["{" + d + "}"]) == act &&
      inv == Completed("/Cues/Index", [VInt(7)], [], true) &&
      Delivery(cfg, act, inv) == Sent(Datagram(cfg.host, cfg.port, cfg.prefix + "/Cues/Index", [OInt(7)]))
  {
    assert Resolve(d, VStr("7")) == AsInt(7) by {
      assert IntToString(7) == "7";
      IntFields(Fields(d), 7);
    }
    assert FallbacksOf([d], [VStr("7")]) == [];
    OneValuePlaceholder(Action(Enum(Int), "/Cues/Index", ["{" + d + "}"], [], [d]), d, VStr("7"));
    IntListSends(cfg, "/Cues/Index", 7);
    ManyFieldsNonEmpty(d);
    IndexActionCompiled(d);
  }

  /**
   * The callback reports success even when nothing is sent: a `Color` action
   * prepared by `Compile` whose value is text ("{S, Name}") cannot pack a colour, the send fails
   * and is logged, and the callback still gets `True`.
   */
  lemma ReportedDespiteFailedSend(cfg: Endpoint, d: string, s: string)
    requires BraceFree(d) && Fields(d) == ["S", "Name"]
    ensures var act := Action(Enum(Color), "/Color", ["{" + d + "}"], [], [d]);
      var inv := InvocationSpec(act, [VStr(s)]);
      Compile(Enum(Color), "/Color", ["{" + d + "}"]) == act &&
      inv.Completed? && inv.sendValues == [VStr(s)] && inv.reported && Delivery(cfg, act, inv) == Failed
  {
    var act := Action(Enum(Color), "/Color", ["{" + d + "}"], [], [d]);
    var inv := InvocationSpec(act, [VStr(s)]);
    assert inv.Completed? && inv.path == "/Color" && inv.sendValues == [VStr(s)] && inv.reported by {
      assert Resolve(d, VStr(s)) == AsText(s) by {
        TextKinds(Fields(d), VStr(s));
      }
      OneValuePlaceholder(act, d, VStr(s));
    }
    assert Delivery(cfg, act, inv) == Failed by {
      ColourTextFails(cfg, "/Color", s);
    }
    ManyFieldsNonEmpty(d);
    ColourActionCompiled(d);
  }


}
