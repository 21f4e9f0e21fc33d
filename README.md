# SPOSC: a verified model of the OSC plugin library

`lib/osc_lib.py` holds `SPOSC`, the UDP OSC layer of a lighting-control plugin.
It does three jobs:

- **Templated actions.** An action has an address template and value templates
  such as `/CueList/PlaybackState/{I, State, 0, 0, 2}`.
  - Each `{...}` placeholder is a comma-separated definition (kind, name,
    default, bounds, suffix, modifier).
  - At registration, every placeholder becomes a UI parameter.
  - At invocation, the arguments are consumed positionally: path placeholders
    first, then value placeholders.
  - Each argument is coerced by the kind of its placeholder. The coerced text
    replaces the placeholder in the address; the coerced values become the
    list handed to the sender.
- **The sender.** `send` converts a raw value into OSC arguments, choosing the
  conversion by a type tag (`i`, `f`, `s`, `B`, `r`, `M`, ...). It then emits a
  message to `host:port` at `prefix + address`.
- **The listener lifecycle.** `enable`, `disable`, `_main_loop` and
  `_start_listener` move the run guard, the listener flag, the server and the
  transport through a small state machine.

The Dafny modules follow the same split:

| module | what it holds |
|---|---|
| `Wrappers` | `Option` |
| `Text` | `strip`, `lower`, `find`, `split`, `join`, `replace`, `int(str)`, `str(int)`, `float(str)`, `str(float)` on `seq<char>` |
| `PyValues` | the Python values the host hands over, with `bool()`, `str()`, `int()`, `float()` and list indexing |
| `Templates` | the placeholder scan `\{([^{}]+)\}` and the field split of a definition |
| `Coercion` | the per-kind coercion of one argument (I, F with modifier, B, A, S, fallback) |
| `Colour` | `rgb_floats_to_rgba_int` |
| `Wire` | the type tags, the per-tag conversion and the message `send` builds |
| `Registration` | the parameters and script events registered from placeholders |
| `Actions` | action preparation and what one invocation does |
| `Client` | the `SPOSC` object: lifecycle flags, `send`, the invocation loops, the custom action, the entity receiver |

The imperative parts of the source are methods with loops. Each method is proved
against a specification function, and the properties are proved about those
functions:

- `Actions.Prepare`, `Registration.RegisterParams` and
  `Registration.RegisterEvents` are the scans and registration loops.
- `Client.OscClient.Send` is `send`'s loops.
- `Client.OscClient.InvokeAction` is the path-rewriting and value-building
  loops of the action callback.
- `Client.OscClient` with `Enable`, `Disable`, `StartListener`, `MainLoop`,
  `UpdateConfig` and `Restart` is the object whose fields those methods update.

Where the code and the library's prose description disagree, the model follows
the code:

- With too few arguments, the action callback returns without calling back. The
  description says the callback receives `false`.
- A coercion that fails substitutes the argument's own text and the invocation
  goes on. It does not report a failure.
- `send` catches its own exceptions. So `_send_osc_action` calls back with
  `True` even when nothing was sent (`Actions.ReportedDespiteFailedSend`). Its
  `except` branch runs only when the host's log call or the callback itself
  raises.
- A `B` parameter is registered with `bool(default)` on the default's text, as
  the code does: every non-empty default starts on. The rule the invocation
  applies to the same text is the corrected reading (`ReadFieldsCorrected`,
  `RegisterAllCorrected`), kept apart and compared with it under "## Findings".

## Model

| member | source | states |
|---|---|---|
| Templates.Placeholders | lib/osc_lib.py:301-307 | every definition found by the placeholder regex is non-empty and holds no brace |
| Templates.PlaceholdersOfRender | lib/osc_lib.py:515-516 | scanning a template built from brace-free text and brace-free definitions gives back exactly those definitions, left to right |
| Templates.PlaceholderFirst | lib/osc_lib.py:301 | a placeholder at the front of a template is matched whole and scanning resumes after it |
| Templates.BraceFreePrefix | lib/osc_lib.py:301 | text without braces before a template adds no placeholder |
| Templates.PlaceholdersOccur | lib/osc_lib.py:301-307 | each definition found is the text of a `{...}` that occurs in the template |
| Templates.PlaceholderCount | lib/osc_lib.py:301-309 | a template of length n has at most n/3 placeholders, so the arity is bounded by the template sizes |
| Templates.Fields | lib/osc_lib.py:323 | a definition always has a first field (the kind), and no field starts or ends with whitespace |
| Templates.FieldsHaveNoComma | lib/osc_lib.py:323 | no field of a definition contains a comma |
| Templates.SplitCommaJoined | lib/osc_lib.py:323 | splitting comma-joined comma-free parts on commas gives back the parts |
| Templates.FieldsOfCommaJoined | lib/osc_lib.py:323 | the fields of a comma-joined definition are its parts, stripped |
| Text.ReplaceEveryOccurrence | lib/osc_lib.py:363 | the replacement cuts the address into pieces free of `{def}` that are separated by `{def}`, and joins the same pieces with the coerced text, so every occurrence is replaced |
| Text.ReplaceAbsent | lib/osc_lib.py:363 | an address without the placeholder text is unchanged |
| Text.JoinSplit | lib/osc_lib.py:323 | joining the pieces of a split with the same separator gives back the string |
| Text.ParseIntToString | lib/osc_lib.py:341 | `int(str(n)) == n` for every int |
| Text.Trunc | lib/osc_lib.py:341 | `int()` of a float truncates toward zero: the result lies within one of the float, on the side of zero |
| PyValues.PyIndex | lib/osc_lib.py:350 | a Python list index is in range exactly for -len..len-1, and a negative index counts from the end |
| Coercion.FallbackIsRawText | lib/osc_lib.py:357-359 | a coercion that fails substitutes `str(raw_val)`, and only kinds I, F and A can fail |
| Coercion.ModifierAfterParse | lib/osc_lib.py:329-339 | the argument is parsed first; then the seventh field's first character picks `*`, `/`, `+` or `-`; dividing by zero fails; any other first character leaves the number alone |
| Coercion.NoSeventhFieldNoModifier | lib/osc_lib.py:330 | with six fields or fewer there is no modifier |
| Coercion.NumericKinds | lib/osc_lib.py:340 | kind F keeps the number; kind I truncates it toward zero |
| Coercion.ScaledArgumentExample | lib/osc_lib.py:329-340 | "10" with the modifier `*2` gives 20.0 under F and 20 under I |
| Coercion.ScaledNumberExample | lib/osc_lib.py:329-339 | "10" with the modifier `*2` is the number 20 |
| Coercion.PathTextExample | lib/osc_lib.py:340 | the path text of 20.0 is "20.0" under F and "20" under I |
| Coercion.TruncationExample | lib/osc_lib.py:340 | -2.5 becomes -2 under I (truncation, not flooring) |
| Coercion.BoolCoercion | lib/osc_lib.py:343-344 | kind B yields "True" or "False"; a text is "False" exactly when it is empty or lower-cases to "false", "0" or "no" |
| Coercion.BoolCoercionExamples | lib/osc_lib.py:343-344 | "0" and "FALSE" and the int 0 are "False"; "1" and `True` are "True" |
| Coercion.ArrayCoercion | lib/osc_lib.py:347-349 | kind A falls back exactly when there is no options field, the argument is not an int, or the index is out of range; otherwise it is the stripped option at that index |
| Coercion.TextKinds | lib/osc_lib.py:351-356 | kind S and unknown kinds pass `str(raw_val)` through |
| Colour.Clamp | lib/osc_lib.py:505-508 | `max(0, min(255, x))` lies in [0, 255] and is x inside that range |
| Colour.Channel | lib/osc_lib.py:505-508 | a channel byte is in 0..255, 0 for c <= 0, 255 for c >= 1, and the truncation of c*255 in between |
| Colour.Pack | lib/osc_lib.py:504-512 | the packed colour is below 2^32 |
| Colour.PackIsSum | lib/osc_lib.py:510 | the shifted bytes do not overlap, so the or is a sum |
| Colour.PackDecodes | lib/osc_lib.py:510 | each byte of the packed word decodes back to its channel |
| Colour.PackExamples | lib/osc_lib.py:504-512 | (1, 0, 0, 1) packs to 0xFF0000FF, and out-of-range channels saturate |
| Wire.Letter | lib/osc_lib.py:12-29 | each type has a tag of at most one letter, and only `Bare` has the empty one |
| Wire.TagOf | lib/osc_lib.py:157 | an enum gives its letter; a non-empty string is used as given; an empty string or no type gives no tag |
| Wire.ConvertAll | lib/osc_lib.py:177-213 | list items are converted one by one, in order, and the conversion fails exactly when one item's conversion raises |
| Wire.Added | lib/osc_lib.py:253-257 | without a tag no argument is added; with one, an argument is added exactly when it is a converted value other than `None`, and no more arguments than values |
| Wire.MixedItems | lib/osc_lib.py:160-161 | tag `M` iterates a list's or tuple's items as they are, or a string's characters, item i being the one-character string of character i; it fails on any other value |
| Wire.SendAddress | lib/osc_lib.py:245-263 | the message goes to the configured host and port, at `prefix + address` |
| Wire.SendShape | lib/osc_lib.py:176-243 | under a tag other than M and N, a list gives one argument per item and a scalar gives one; the send fails exactly when a conversion raises |
| Wire.EnumSendsAsLetter | lib/osc_lib.py:157 | an enum member and its tag letter send the same message |
| Wire.NoArguments | lib/osc_lib.py:206-258 | tag N, or no tag at all, sends the address with no argument |
| Wire.ConvertRules | lib/osc_lib.py:183-241 | B is true only for the exact string "True"; m and t map falsy values to 0; c takes the first character or `\0`; I and N give infinity and `None`; i truncates a float |
| Wire.UnknownTagStringifies | lib/osc_lib.py:210-243 | a tag without a rule of its own sends `str(v)` |
| Wire.LongTagStringifies | lib/osc_lib.py:242-243 | a type text longer than one character sends `str(v)` |
| Wire.MixedRules | lib/osc_lib.py:160-173 | tag M converts each item by its own type; booleans are checked as ints and become 0 or 1 |
| Wire.MixedScalarFails | lib/osc_lib.py:160-173 | tag M on a number raises, and nothing is sent |
| Wire.ColourArgument | lib/osc_lib.py:230-231 | tag r on a 4-tuple sends the packed colour as one int |
| Wire.ColourOfExample | lib/osc_lib.py:230-231 | opaque red given as mixed ints, floats and a bool packs to 0xFF0000FF |
| Wire.ColourFlatListFails | lib/osc_lib.py:198-199 | tag r on a flat list of floats raises, and nothing is sent |
| Actions.AllPlaceholders | lib/osc_lib.py:304-307 | every value-template placeholder is non-empty and brace-free; with no value templates there are none |
| Actions.Prepare | lib/osc_lib.py:299-309 | the scan loop yields the path placeholders and the concatenated value-template placeholders |
| Actions.AllPlaceholdersAppend | lib/osc_lib.py:306-307 | the placeholders of each further value template are appended after the earlier ones |
| Actions.ArityGuard | lib/osc_lib.py:309-314 | an invocation stops, without calling back, exactly when it gets fewer than 1 + #path + #value arguments; otherwise it reports |
| Actions.ExtraArgsIgnored | lib/osc_lib.py:317 | arguments beyond the arity change nothing |
| Actions.PathFirstOrdering | lib/osc_lib.py:320-412 | value placeholder i consumes the argument after all path arguments plus i; there is one value per value placeholder, in order |
| Actions.ValuesOf | lib/osc_lib.py:369-412 | one value per value placeholder |
| Actions.ValuesOfAt | lib/osc_lib.py:373-412 | value i is the coercion of argument i against definition i |
| Actions.FallbacksOf | lib/osc_lib.py:357-408 | every logged failure is one of the placeholders |
| Actions.FallbackLogged | lib/osc_lib.py:357-408 | a placeholder whose coercion fell back is logged |
| Actions.LoggedFellBack | lib/osc_lib.py:357-408 | every logged placeholder is one whose own coercion fell back |
| Actions.FallbacksLogged | lib/osc_lib.py:357-408 | a placeholder is logged exactly when its own coercion fell back |
| Actions.NoValuesWithoutValuePlaceholders | lib/osc_lib.py:368-369 | a `Bare` action, or one with no value placeholders, sends an empty value list |
| Actions.BareSendsAddressOnly | lib/osc_lib.py:368-417 | a `Bare` action sends its substituted address with no arguments |
| Actions.PlainPathUnchanged | lib/osc_lib.py:319-363 | an address without placeholders is sent as it is |
| Actions.ReplaceBetween | lib/osc_lib.py:363 | a placeholder between brace-free text is replaced exactly there |
| Actions.OnePlaceholderFound | lib/osc_lib.py:301 | an address with one placeholder between brace-free text has that one definition |
| Actions.OnePathDefinition | lib/osc_lib.py:320-363 | with one path placeholder, every occurrence of it is replaced by the coerced first argument |
| Actions.OnePathPlaceholder | lib/osc_lib.py:320-363 | the placeholder between brace-free text is replaced by the coerced first argument |
| Actions.ReplaceAfterBraceFree | lib/osc_lib.py:363 | a braced pattern after brace-free text, and absent from the rest, is replaced at that one place |
| Templates.BracedAbsent | lib/osc_lib.py:363 | a braced definition that is none of a template's definitions occurs nowhere in it |
| Templates.BracedNotAt | lib/osc_lib.py:363 | a braced definition does not start at any position of a gap, another braced definition and a rest without it |
| Actions.PathAfterEach | lib/osc_lib.py:320-363 | the path loop is the chain of replacements of each placeholder by its coerced argument's text, in order |
| Actions.ReplaceNext | lib/osc_lib.py:363 | replacing the next placeholder after brace-free text puts the text exactly in its place |
| Actions.ReplaceEachRender | lib/osc_lib.py:320-363 | after k replacements in a template with distinct brace-free definitions and brace-free texts, the first k placeholders hold their texts and the rest of the template is unchanged |
| Actions.PathTextsOfPrefix | lib/osc_lib.py:317-327 | the coerced texts depend only on the arguments the path placeholders consume |
| Actions.PathAfterOfPrefix | lib/osc_lib.py:317-363 | the address after the path loop depends only on the arguments the path placeholders consume |
| Actions.InvocationPath | lib/osc_lib.py:309-363 | a completed invocation's path is the address after all its path placeholders |
| Actions.RenderedPath | lib/osc_lib.py:320-363 | a template with distinct brace-free definitions and brace-free coerced texts becomes its gaps joined by those texts, in order |
| Actions.PathPlaceholders | lib/osc_lib.py:309-363 | such an action, invoked with enough arguments, is sent to its gaps joined by the coerced texts of the first arguments, in order |
| Actions.CompiledPath | lib/osc_lib.py:299-363 | the same for the action `oscAction` prepares from such an address: the placeholders it finds are the definitions the address was built from |
| Actions.IntFields | lib/osc_lib.py:329-340 | kind I reads the decimal text of n as n |
| Actions.NoPlaceholders | lib/osc_lib.py:301 | an address without braces has no placeholder |
| Actions.StateDefinitionText | lib/osc_lib.py:301 | the definition text of `/CueList/PlaybackState/{I, State, 0, 0, 2}` is a comma join of its parts |
| Actions.StateDefinitionFields | lib/osc_lib.py:323 | the fields of that definition are I, State, 0, 0, 2 |
| Actions.OnePlaceholderBare | lib/osc_lib.py:309-417 | a `Bare` action with one path placeholder, invoked with one argument, sends the substituted address with no arguments and reports |
| Actions.BareActionExample | lib/osc_lib.py:299-417 | the action `oscAction` prepares for the playback-state address, invoked with "2", sends `/CueList/PlaybackState/2` with no arguments |
| Actions.StateActionCompiled | lib/osc_lib.py:299-309 | the playback-state address has exactly its one placeholder and no value placeholder |
| Actions.IndexDefinitionText | lib/osc_lib.py:307 | the definition text of `{I, Index, 0, 0, 999}` is a comma join of its parts |
| Actions.IndexDefinitionFields | lib/osc_lib.py:372 | the fields of that definition are I, Index, 0, 0, 999 |
| Actions.OneValueCompiled | lib/osc_lib.py:299-307 | a plain address with one single-placeholder value template has no path placeholder and one value placeholder |
| Actions.IndexActionCompiled | lib/osc_lib.py:299-307 | the cue-index action has no path placeholder and its one value placeholder |
| Actions.ColourActionCompiled | lib/osc_lib.py:299-307 | the colour action has no path placeholder and its one value placeholder |
| Actions.OneValuePlaceholder | lib/osc_lib.py:369-412 | such an action invoked with one argument sends that argument's coerced value as the only entry |
| Actions.IntListSends | lib/osc_lib.py:177-181 | a one-int list under `Int` is sent as one int argument |
| Actions.ColourTextFails | lib/osc_lib.py:198-199 | tag r on a list holding text raises, and nothing is sent |
| Actions.IntValueExample | lib/osc_lib.py:299-417 | the cue-index action `oscAction` prepares, invoked with "7", sends one int argument 7 |
| Actions.ReportedDespiteFailedSend | lib/osc_lib.py:299-525 | a `Color` action as `oscAction` prepares it, with a text value, cannot pack a colour; the send fails and the callback still gets `True` |
| Registration.TextTruth | lib/osc_lib.py:297 | `bool(text)` is true exactly for non-empty text |
| Registration.BoolDefault | lib/osc_lib.py:343-344 | the corrected `B` default reads its text with the same rule the invocation applies |
| Registration.RegisterOne | lib/osc_lib.py:424-466 | one definition adds at most one parameter or one logged failure |
| Registration.RegisterAll | lib/osc_lib.py:423-466 | registration, with the `B` default read by `bool()` as written, adds at most one parameter or failure per definition |
| Registration.RegisterParams | lib/osc_lib.py:423-466 | the registration loop over the path then value definitions computes `RegisterAll` |
| Registration.RegisterNext | lib/osc_lib.py:424 | each further definition is one registration step after the earlier ones |
| Registration.StaysAborted | lib/osc_lib.py:427 | once a definition without a name has raised, later definitions change nothing |
| Registration.ReadFieldsOutcome | lib/osc_lib.py:424-466 | only a definition without a name aborts; an added parameter carries the name field; exactly the kinds without a parameter are skipped; a known kind other than `C` with only a name is logged as failed |
| Registration.ReadParamAborts | lib/osc_lib.py:427 | a definition aborts registration exactly when it has fewer than two fields |
| Registration.RegisterWith | lib/osc_lib.py:423-466 | registration over given per-definition outcomes adds at most one entry per definition |
| Registration.ReadParams | lib/osc_lib.py:424-466 | one outcome per definition |
| Registration.ReadParamsAt | lib/osc_lib.py:424-466 | outcome i is the reading of definition i |
| Registration.RegisterAllWith | lib/osc_lib.py:423-466 | registration is the registration over the definitions' own outcomes |
| Registration.AbortedWith | lib/osc_lib.py:427 | registration stops early exactly when some outcome is an abort |
| Registration.AbortedAtSomeDefinition | lib/osc_lib.py:427 | registration stops early exactly when some definition aborts it |
| Registration.AbortedIff | lib/osc_lib.py:427 | registration stops early exactly when some definition has fewer than two fields |
| Registration.RegisterOneAdds | lib/osc_lib.py:430-466 | a step that does not abort adds exactly the definition's parameter, or logs exactly that definition as failed, and nothing else |
| Registration.ParamWith | lib/osc_lib.py:430-463 | without an abort, a parameter is registered exactly when some definition's outcome adds it |
| Registration.ErrorWith | lib/osc_lib.py:465-466 | without an abort, a definition is logged as failed exactly when its outcome is a rejection |
| Registration.RegisteredError | lib/osc_lib.py:465-466 | without an abort, a failure is logged for exactly the definitions whose fields are rejected |
| Registration.ParseIntExamples | lib/osc_lib.py:437 | `int("127")`, `int("255")`, `int("0")` and `int("1")` parse; `int("x")` raises |
| Registration.IntParamExample | lib/osc_lib.py:431-437 | `{I, Level, 127, 0, 255}` adds an int parameter; a bad default or a missing bound is a logged failure |
| Registration.OtherKindsExample | lib/osc_lib.py:427-445 | an option list adds an enum parameter, an `E` placeholder adds nothing, and a definition without a name aborts |
| Registration.BoolDefaultAsWrittenIsOn | lib/osc_lib.py:452-455 | the registration reader, as written, turns `B, Freeze, 0, 0;1, Off;On` into a parameter that starts on, though the invocation reads "0" as false |
| Registration.BoolDefaultMatchesInvocation | lib/osc_lib.py:452-455 | corrected: the `B` default follows the invocation's rule, so the same definition starts off |
| Registration.FreezeRegistration | lib/osc_lib.py:452-455 | registering the Freeze definition alone gives a parameter that starts on as written and off when corrected |
| Registration.CorrectionOnlyTurnsOff | lib/osc_lib.py:452-455 | the two readings differ exactly for a `B` definition whose default is non-empty text read as false; then as written it starts on and corrected it starts off |
| Registration.RegisterWithSameShape | lib/osc_lib.py:423-466 | outcomes that agree except in which parameter they add log the same failures, abort alike and add as many parameters |
| Registration.CorrectedRegistersAlike | lib/osc_lib.py:423-466 | the correction changes only `B` defaults: the same failures, the same abort, as many parameters |
| Registration.Tokens | lib/osc_lib.py:533 | there are no tokens with at most three fields, and one per field after the third otherwise |
| Registration.RegisterEventOne | lib/osc_lib.py:528-535 | one definition adds at most one event |
| Registration.RegisterEventsSpec | lib/osc_lib.py:527-535 | event registration adds at most one event per definition |
| Registration.RegisterEvents | lib/osc_lib.py:527-535 | the loop of `register_dynamic_event` computes `RegisterEventsSpec` |
| Registration.EventsStayAborted | lib/osc_lib.py:531-532 | once an `E` definition with too few fields has raised, later definitions change nothing |
| Registration.TokensAreTrailingFields | lib/osc_lib.py:529-533 | the tokens are the fields after the third, unchanged |
| Registration.RegisterEventOneAdds | lib/osc_lib.py:530-534 | every event after a step is an earlier event or the step's own; earlier events are kept; a step that is not aborted registers its own `E` event; the step leaves registration aborted exactly when it already was or its outcome is an abort |
| Registration.RegisterEventsWith | lib/osc_lib.py:528-535 | registration over given outcomes adds at most one event per outcome |
| Registration.ReadEvents | lib/osc_lib.py:528-535 | one outcome per definition |
| Registration.ReadEventsAt | lib/osc_lib.py:528-535 | outcome i is the reading of definition i |
| Registration.RegisterEventsSpecWith | lib/osc_lib.py:527-535 | event registration is the registration over the definitions' own outcomes |
| Registration.EventsWith | lib/osc_lib.py:528-535 | every event comes from some `E` outcome; without an abort every `E` outcome's event is registered; registration stops early exactly at an abort outcome |
| Registration.EventWith | lib/osc_lib.py:528-535 | without an abort, an event is registered exactly when some outcome is that `E` event |
| Registration.EventsFromDefinitions | lib/osc_lib.py:528-535 | every registered event comes from a definition; without an abort every definition read as an `E` event is registered; registration stops early exactly when some definition aborts it |
| Registration.ReadEventAborts | lib/osc_lib.py:530-532 | event registration aborts on a definition exactly when its kind is `E` and it has fewer than three fields |
| Registration.EventExample | lib/osc_lib.py:530-534 | `E, CueGo, onCue, a, b` registers event CueGo for onCue with tokens a and b; `E, CueGo` raises; an `I` placeholder is not an event |
| Client.InitialConsistent | lib/osc_lib.py:34-48 | a new object is stopped, has no listener, and its flags are consistent |
| Client.EnableRuns | lib/osc_lib.py:50-56 | `enable` leaves the object running and changes nothing else; a second `enable` is a no-op; consistency is kept |
| Client.DisableStops | lib/osc_lib.py:66-103 | `disable` on a stopped object is a no-op; on a running one it lowers the guard, and when the loop runs the shutdown it clears the transport, the server and the listener flag |
| Client.StartListens | lib/osc_lib.py:116-133 | `_start_listener` skips when listening; otherwise the listener ends enabled exactly when the bind succeeds, and the server is set either way |
| Client.AttemptsListen | lib/osc_lib.py:105-114 | after the main loop the listener is enabled exactly when it already was, or the loop ran and some bind succeeded; the run guard and consistency are kept |
| Client.RestartRebinds | lib/osc_lib.py:570-576 | restart leaves the object running; when it ran with its loop, every other flag is cleared so the next iteration binds again; a stopped object is just enabled |
| Client.OscClient.constructor | lib/osc_lib.py:34-48 | configuration as given; stopped, no server, no transport, no listener |
| Client.OscClient.Enable | lib/osc_lib.py:50-64 | the new flags are `EnableStep` of the old ones; the configuration is unchanged |
| Client.OscClient.Disable | lib/osc_lib.py:66-103 | the new flags are `DisableStep` of the old ones; the configuration is unchanged |
| Client.OscClient.StartListener | lib/osc_lib.py:116-133 | the new flags are `StartStep` of the old ones and the bind outcome |
| Client.OscClient.MainLoop | lib/osc_lib.py:105-114 | the new flags are `Attempts` of the old ones over the bind outcomes |
| Client.OscClient.UpdateConfig | lib/osc_lib.py:272-276 | only host, port and prefix change; the flags stay consistent |
| Client.OscClient.Restart | lib/osc_lib.py:570-576 | disable, then enable |
| Client.OscClient.Send | lib/osc_lib.py:156-270 | the message sent, or the failure, is `SendSpec` of the configuration and the inputs |
| Client.MixedValues | lib/osc_lib.py:160-173 | the tag `M` loop gives each item's own-type conversion, in order |
| Client.ConvertInputs | lib/osc_lib.py:175-243 | the per-tag loop gives `ConvertAll`, failing at the first conversion that raises |
| Client.AddArgs | lib/osc_lib.py:253-258 | the builder loop adds exactly `Added(tag, values)` |
| Client.OscClient.SendOscAction | lib/osc_lib.py:518-525 | sends, then always reports `True` |
| Client.OscClient.InvokeAction | lib/osc_lib.py:311-417 | the invocation is `InvocationSpec`; nothing is sent exactly when there are too few arguments; otherwise the message is the action's delivery |
| Client.SubstitutePath | lib/osc_lib.py:319-363 | the path loop gives `PathAfter` over all path placeholders and logs exactly the ones that fell back |
| Client.BuildValues | lib/osc_lib.py:367-412 | the value loop gives `ValuesOf` and logs exactly the ones that fell back |
| Client.CustomSendsText | lib/osc_lib.py:473-492 | a forwarded custom value is sent as one string argument, its `str()`, because the type names are not tag letters |
| Client.NameSendsText | lib/osc_lib.py:242-243 | a non-list value sent under a type text longer than one character becomes its `str()` |
| Client.CustomIndexRule | lib/osc_lib.py:469-473 | type indices 0..3 and -4..-1 name a type, Python style; any other index fails the action |
| Client.CustomBoolAndString | lib/osc_lib.py:479-482 | Bool compares the lower-cased text with the true words; String forwards `str(value)`; neither fails |
| Client.CustomIntRejectsFraction | lib/osc_lib.py:475-498 | Int on "0.5" fails the action (the callback gets `False`); Int on "12" forwards 12 |
| Client.CustomBoolExamples | lib/osc_lib.py:479-480 | "YES" and "On" are true, "0" is false |
| Client.OscClient.CustomAction | lib/osc_lib.py:471-498 | on failure nothing is sent and the callback gets `False`; otherwise the coerced value is sent under its type name and the callback gets `True` |
| Client.Receive | lib/osc_lib.py:556-560 | the entity at the path (created if missing) holds the first argument, or `None` when there is none; every other entity keeps its value |

## Left out

- Threads, the asyncio loop, `run_coroutine_threadsafe`, the timed waits, `join`
  and the retry sleep are left out. They are concurrency and timing. Whether the
  loop runs the shutdown coroutine (`Disable`'s `loopRunning`) and whether a bind
  succeeds (`StartListener`'s `bindOk`) are inputs. `_loop` and `_thread` are not
  fields.
- Client.OscClient.MainLoop: the loop ends when its bind outcomes run out. In
  the source it ends when another thread lowers the run guard.
- Client.OscClient.Restart: the one-second pause and the background thread are
  not modelled. The disable and the enable run one after the other.
- Sockets, `sendto` and the OSC datagram encoding are left out. The model
  stops at the host, port, address and argument list (`Wire.Datagram`). A send
  that fails after the message is built (a socket error) is not modelled.
- The python-osc `Dispatcher` and server are foreign library code. So is
  `registerOscListener`, and with it the listener half of `oscEvent` and
  `oscEntityReceiver`. Only what the entity handler stores is modelled
  (`Client.Receive`).
- The `threading.Timer` status pushes and every log line are side effects. The
  logged coercion failures are kept as the `errors` of an invocation.
- Host calls are left out: `plugin.addAction`, `registerEvent`, the
  `add_action_param_*` helpers and `entities.getSubPath`. Registration records
  what they would be given (`Registration.Param`, `Registration.EventReg`).
  The entities are a map from path to value.
- Floats are exact reals. `float(str)` accepts a sign, digits and one point.
  Exponents, `inf` and `nan` are not accepted. `str(float)` is approximated:
  integral values print as `n.0`, others with their fractional digits. Tag `I`
  sends an infinity marker (`OInf`), not an IEEE value.
- `str.lower()` is modelled on ASCII letters only. `repr()` of a string does
  not escape quotes.
- Tag `b` sends the text that would be UTF-8 encoded, not the bytes. A raw
  `bytes` value is not among the modelled Python values.
- The `except` branch of `_send_osc_action` (lib/osc_lib.py:523-525) is not
  modelled. `send` catches its own exceptions, so the branch runs only when the
  host's `plugin.log` or the host's callback raises. Those host collaborators
  are not part of this model.
- Client.OscClient.InvokeAction: the per-invocation `callback` argument is not a
  value. `reported` is what it would receive.
- Registration.ParamWith: the parameters registered are stated against
  `ReadParams(defs)`, the per-definition outcomes (`ReadParamsAt` ties outcome i
  to definition i). There is no single lemma over `ReadParam` directly.
- Registration.EventsFromDefinitions: the events registered are stated against
  `ReadEvents(defs)` in the same way (`ReadEventsAt`).
- Actions.PathPlaceholders: the closed form of the address is stated for
  distinct, brace-free definitions and coerced texts without braces. With a
  repeated definition the first replacement already rewrites every copy, and a
  text holding a brace could be matched by a later placeholder. Those cases
  follow `PathAfter` and are not given a closed form.
- `extract_dynamic_def` is the same scan as `Templates.Placeholders`.
- `safe_push_output`, `safe_push_input` and `restart`'s thread are left out,
  as timer or thread side effects.

## Findings

| source | as written | input that shows it | evidently intended | confidence | as-written member | corrected member |
|---|---|---|---|---|---|---|
| lib/osc_lib.py:452-455 | the `B` parameter's default is `bool(default)` on the field text, so any non-empty text, "0" included, starts the parameter on | `{B, Freeze, 0, 0;1, Off;On}` (madryxTesting.py:69-70) registers a parameter that starts on, while invoking the action with "0" sends "False" | the default is read with the rule the invocation applies (lib/osc_lib.py:343-344), so "0", "no" and "false" start off | not executed | Registration.FreezeRegistration | Registration.BoolDefaultMatchesInvocation |
