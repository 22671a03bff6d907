/** The automation action executor: template interpolation of `{{path}}`
    tokens against a context object, the five action handlers (`gpio`, `delay`,
    `log`, `emit`, `http`), and the executor object that runs a list of actions
    and counts successes and failures.

    What a handler does to the outside world (an event emitted on the GPIO
    event bus, a timer that emits later, a wait) is recorded as an `Effect`;
    console output is not modelled. */
module ActionExecutor {
  import opened Wrappers
  import opened JsValue

  // ---------------------------------------------------------------------------
  // Interpolation
  // ---------------------------------------------------------------------------

  /** `s` starts with a match of `/\{\{([^}]+)\}\}/` whose captured group is
      `path`. */
  predicate MatchesAt(s: string, path: string) {
    path != [] && '}' !in path && |path| + 4 <= |s| && s[..|path| + 4] == "{{" + path + "}}"
  }

  /** The captured path of the token the pattern matches at the start of `s`:
      `{{`, then the run of characters up to the first `}`, which must be
      followed by a second `}`. */
  function TokenAt(s: string): (t: Option<string>)
    ensures t.Some? ==> t.value != [] && |t.value| + 4 <= |s|
  {
    if |s| >= 2 && s[0] == '{' && s[1] == '{' && '}' in s[2..] then
      var k := 2 + IndexOf(s[2..], '}');
      if k > 2 && k + 1 < |s| && s[k + 1] == '}' then Some(s[2..k]) else None
    else None
  }

  /** What a token is replaced by: the value at the trimmed path, converted to
      a string, or the token itself when that value is `undefined`. */
  function Replacement(path: string, context: Value): string {
    var v := GetNested(context, Trim(path));
    if v.Undefined? then "{{" + path + "}}" else JsString(v)
  }

  /** `interpolate(str, context)`: a global, left-to-right replacement of the
      tokens of `s`.  After a token the scan resumes behind it; where no token
      starts, one character is kept and the scan moves on. */
  function Interpolate(s: string, context: Value): (r: string)
    ensures '{' !in s ==> r == s
    decreases |s|
  {
    if s == [] then []
    else match TokenAt(s)
      case Some(path) => Replacement(path, context) + Interpolate(s[|path| + 4..], context)
      case None => [s[0]] + Interpolate(s[1..], context)
  }

  /** The pattern matches at the start of `s` with exactly the path `TokenAt`
      reports, and with no other. */
  lemma TokenAtMatches(s: string, path: string)
    ensures MatchesAt(s, path) <==> TokenAt(s) == Some(path)
  {
    if TokenAt(s) == Some(path) {
      var tail := s[2..];
      var i := IndexOf(tail, '}');
      assert path == tail[..i];
      assert s[..|path| + 4] == "{{" + path + "}}";
    }
    if MatchesAt(s, path) {
      var n := |path|;
      var tail := s[2..];
      assert s[..n + 4][0] == s[0] && s[..n + 4][1] == s[1];
      assert tail[..n] == path by {
        forall j | 0 <= j < n ensures tail[j] == path[j] {
          assert tail[j] == s[..n + 4][j + 2];
        }
      }
      assert tail[n] == s[..n + 4][n + 2];
      IndexOfFirst(tail, '}', n);
      assert s[n + 3] == s[..n + 4][n + 3];
      assert s[2..2 + n] == path;
    }
  }

  /** A token is replaced once, by its value's string or by itself, and the
      scan goes on behind it: the replacement text is never scanned again. */
  lemma TokenReplaced(path: string, rest: string, context: Value)
    requires path != [] && '}' !in path
    ensures var v := GetNested(context, Trim(path));
            var s := "{{" + path + "}}" + rest;
            && (v != Undefined ==> Interpolate(s, context) == JsString(v) + Interpolate(rest, context))
            && (v == Undefined ==> Interpolate(s, context) == "{{" + path + "}}" + Interpolate(rest, context))
  {
    var s := "{{" + path + "}}" + rest;
    assert s[..|path| + 4] == "{{" + path + "}}";
    TokenAtMatches(s, path);
    assert s[|path| + 4..] == rest;
  }

  /** No `{{` in the string: nothing is replaced. */
  lemma {:induction false} NoTokenUnchanged(s: string, context: Value)
    requires forall i | 0 <= i < |s| - 1 :: !(s[i] == '{' && s[i + 1] == '{')
    ensures Interpolate(s, context) == s
    decreases |s|
  {
    if s != [] {
      assert TokenAt(s).None? by {
        if |s| >= 2 {
          assert !(s[0] == '{' && s[1] == '{');
        }
      }
      NoTokenUnchanged(s[1..], context);
      assert [s[0]] + s[1..] == s;
    }
  }

  /** The empty context `{}` resolves no path, so every token stays as it was. */
  lemma EmptyContextPath(path: string)
    ensures GetNested(Obj([]), path) == Undefined
  {
    var keys := Split(path, '.');
    assert Get(Obj([]), keys[0]) == Undefined;
    assert Walk(Obj([]), keys) == Walk(Undefined, keys[1..]);
    WalkFromUndefined(keys[1..]);
  }

  /** With the empty context `{}` interpolation gives back its input. */
  lemma {:induction false} EmptyContextUnchanged(s: string)
    ensures Interpolate(s, Obj([])) == s
    decreases |s|
  {
    if s != [] {
      match TokenAt(s)
      case Some(path) =>
        EmptyContextPath(Trim(path));
        TokenAtMatches(s, path);
        EmptyContextUnchanged(s[|path| + 4..]);
        assert s[..|path| + 4] + s[|path| + 4..] == s;
      case None =>
        EmptyContextUnchanged(s[1..]);
        assert [s[0]] + s[1..] == s;
    }
  }

  /** `interpolateObject(obj, context)`: strings are interpolated, arrays and
      plain objects rebuilt element by element and key by key, anything else
      returned unchanged.  An object's entries keep their keys and order.  With
      the default empty context `{}` the value comes back as it was. */
  function InterpolateObject(v: Value, context: Value): (r: Value)
    ensures context == Obj([]) ==> r == v
    decreases v
  {
    match v
    case Str(s) =>
      EmptyContextUnchanged(s);
      Str(Interpolate(s, context))
    case Arr(items) =>
      var out := seq(|items|, i requires 0 <= i < |items| => InterpolateObject(items[i], context));
      assert context == Obj([]) ==> out == items;
      Arr(out)
    case Obj(fields) =>
      var out := seq(|fields|, i requires 0 <= i < |fields| => (fields[i].0, InterpolateObject(fields[i].1, context)));
      assert context == Obj([]) ==> out == fields;
      Obj(out)
    case _ => v
  }

  /** Two values of the same shape: the same kind; arrays of the same length
      with elements of the same shape; objects with the same keys in the same
      order and values of the same shape; any string for a string; and every
      other value equal. */
  predicate SameShape(v: Value, w: Value)
    decreases v
  {
    match v
    case Str(_) => w.Str?
    case Arr(items) =>
      && w.Arr? && |w.items| == |items|
      && forall i | 0 <= i < |items| :: SameShape(items[i], w.items[i])
    case Obj(fields) =>
      && w.Obj? && |w.fields| == |fields|
      && forall i | 0 <= i < |fields| :: w.fields[i].0 == fields[i].0 && SameShape(fields[i].1, w.fields[i].1)
    case _ => w == v
  }

  /** Interpolation keeps the shape of a value, all the way down: only the text
      of strings changes. */
  lemma {:induction false} ShapePreserved(v: Value, context: Value)
    ensures SameShape(v, InterpolateObject(v, context))
    ensures var r := InterpolateObject(v, context);
            && (v.Str? ==> r.s == Interpolate(v.s, context))
            && (v.Arr? ==> forall i | 0 <= i < |v.items| :: r.items[i] == InterpolateObject(v.items[i], context))
            && (v.Obj? ==> forall i | 0 <= i < |v.fields| ::
                  r.fields[i] == (v.fields[i].0, InterpolateObject(v.fields[i].1, context)))
    decreases v
  {
    match v
    case Str(_) =>
    case Arr(items) =>
      forall i | 0 <= i < |items| ensures SameShape(items[i], InterpolateObject(items[i], context)) {
        ShapePreserved(items[i], context);
      }
    case Obj(fields) =>
      forall i | 0 <= i < |fields| ensures SameShape(fields[i].1, InterpolateObject(fields[i].1, context)) {
        ShapePreserved(fields[i].1, context);
      }
    case _ =>
  }

  // ---------------------------------------------------------------------------
  // Action handlers
  // ---------------------------------------------------------------------------

  /** What an action does besides returning a result. */
  datatype Effect =
    | Emitted(event: Value, data: Value)                 // gpioEvents.emit(event, data)
    | Scheduled(delay: Value, event: Value, data: Value) // setTimeout(() => emit(event, data), delay)
    | Waited(ms: Value)                                  // await a timer of `ms`

  /** The result of one handler: its return value or the error it throws, and
      its effects in order. */
  datatype Step = Step(outcome: Result<Value, JsError>, effects: seq<Effect>)

  function Fails(e: JsError): Step {
    Step(Err(e), [])
  }

  /** Destructuring `const { ... } = params` throws on `null` and `undefined`. */
  predicate Nullish(v: Value) {
    v.Undefined? || v.Null?
  }

  /** `value === 1 ? 0 : 1`: the level a timed GPIO write reverts to. */
  function Inverse(value: Value): Value {
    if StrictEq(value, Num(1)) then Num(0) else Num(1)
  }

  /** `duration > 0` by the relational comparison's number conversion. */
  predicate Positive(v: Value) {
    match ToNumber(v)
    case Some(n) => n > 0
    case None => false
  }

  /** `x < 0` likewise. */
  predicate Negative(v: Value) {
    match ToNumber(v)
    case Some(n) => n < 0
    case None => false
  }

  /** `executeGpioAction(params)`: emits `gpio_action` with the pin, value and
      duration, and when the duration is positive schedules the inverse level
      after it. */
  function GpioAction(params: Value): (st: Step)
    ensures st.outcome.Err? ==> st.effects == []
    ensures |st.effects| <= 2
  {
    if Nullish(params) then Fails(TypeError("cannot destructure params"))
    else
      var pin := Get(params, "pin");
      var value := Get(params, "value");
      var duration := Get(params, "duration");
      if pin.Undefined? || value.Undefined? then Fails(Thrown("GPIO action requires pin and value"))
      else
        var write := Emitted(Str("gpio_action"), Obj([("pin", pin), ("value", value), ("duration", duration)]));
        var revert := Scheduled(duration, Str("gpio_action"), Obj([("pin", pin), ("value", Inverse(value))]));
        Step(Ok(Obj([("pin", pin), ("value", value), ("duration", duration)])),
             if Truthy(duration) && Positive(duration) then [write, revert] else [write])
  }

  /** `executeDelayAction(params)`: waits `ms`, refusing a missing, zero or
      negative value. */
  function DelayAction(params: Value): (st: Step)
    ensures st.outcome.Err? ==> st.effects == []
    ensures |st.effects| <= 2
  {
    if Nullish(params) then Fails(TypeError("cannot destructure params"))
    else
      var ms := Get(params, "ms");
      if !Truthy(ms) || Negative(ms) then Fails(Thrown("Delay action requires positive ms value"))
      else Step(Ok(Obj([("delayed", ms)])), [Waited(ms)])
  }

  /** `executeLogAction(params, context)`: the level (default `info`) and the
      interpolated message.  A message that is not a string has no `replace`
      and a level that is not a string no `toUpperCase`: both throw. */
  function LogAction(params: Value, context: Value): (st: Step)
    ensures st.outcome.Err? ==> st.effects == []
    ensures |st.effects| <= 2
  {
    if Nullish(params) then Fails(TypeError("cannot destructure params"))
    else
      var level := if Get(params, "level").Undefined? then Str("info") else Get(params, "level");
      var message := Get(params, "message");
      if !Truthy(message) then Fails(Thrown("Log action requires message"))
      else if !message.Str? then Fails(TypeError("message.replace is not a function"))
      else if !level.Str? then Fails(TypeError("level.toUpperCase is not a function"))
      else Step(Ok(Obj([("level", level), ("message", Str(Interpolate(message.s, context)))])), [])
  }

  /** `executeEmitAction(params, context)`: emits the named event with its data
      (default `{}`) interpolated. */
  function EmitAction(params: Value, context: Value): (st: Step)
    ensures st.outcome.Err? ==> st.effects == []
    ensures |st.effects| <= 2
  {
    if Nullish(params) then Fails(TypeError("cannot destructure params"))
    else
      var event := Get(params, "event");
      var data := if Get(params, "data").Undefined? then Obj([]) else Get(params, "data");
      if !Truthy(event) then Fails(Thrown("Emit action requires event name"))
      else
        var interpolated := InterpolateObject(data, context);
        Step(Ok(Obj([("event", event), ("data", interpolated)])), [Emitted(event, interpolated)])
  }

  /** `executeHttpAction(params, context)`: describes the request (method
      default `GET`) with its url interpolated; no request is sent. */
  function HttpAction(params: Value, context: Value): (st: Step)
    ensures st.outcome.Err? ==> st.effects == []
    ensures |st.effects| <= 2
  {
    if Nullish(params) then Fails(TypeError("cannot destructure params"))
    else
      var url := Get(params, "url");
      var verb := if Get(params, "method").Undefined? then Str("GET") else Get(params, "method");
      if !Truthy(url) then Fails(Thrown("HTTP action requires url"))
      else if !url.Str? then Fails(TypeError("url.replace is not a function"))
      else Step(Ok(Obj([("url", Str(Interpolate(url.s, context))), ("method", verb), ("body", Get(params, "body"))])), [])
  }

  /** `executeAction(action, context)`: dispatch on `action.type`. */
  function Execute(action: Value, context: Value): (st: Step)
    ensures st.outcome.Err? ==> st.effects == []
    ensures |st.effects| <= 2
  {
    if Nullish(action) then Fails(TypeError("cannot destructure action"))
    else
      var kind := Get(action, "type");
      var params := Get(action, "params");
      if kind == Str("gpio") then GpioAction(params)
      else if kind == Str("delay") then DelayAction(params)
      else if kind == Str("log") then LogAction(params, context)
      else if kind == Str("emit") then EmitAction(params, context)
      else if kind == Str("http") then HttpAction(params, context)
      else Fails(Thrown("Unknown action type: " + JsString(kind)))
  }

  /** The five action types the executor knows. */
  predicate KnownType(kind: Value) {
    kind in {Str("gpio"), Str("delay"), Str("log"), Str("emit"), Str("http")}
  }

  /** An unknown type throws `Unknown action type: <type>`; a known type with
      missing params throws while destructuring them. */
  lemma DispatchErrors(action: Value, context: Value)
    requires !Nullish(action)
    ensures var kind := Get(action, "type");
            && (!KnownType(kind) ==> Execute(action, context) == Step(Err(Thrown("Unknown action type: " + JsString(kind))), []))
            && (KnownType(kind) && Nullish(Get(action, "params")) ==>
                  Execute(action, context).outcome.Err? && Execute(action, context).outcome.error.TypeError?)
  {
  }

  /** A GPIO action succeeds exactly when it names a pin and a value; it then
      sets the value at once and, for a positive duration, schedules the other
      level after that duration. */
  lemma GpioSpec(params: Value)
    requires !Nullish(params)
    ensures var st := GpioAction(params);
            var pin := Get(params, "pin");
            var value := Get(params, "value");
            var duration := Get(params, "duration");
            && (st.outcome.Err? <==> pin == Undefined || value == Undefined)
            && (st.outcome.Err? ==> st.outcome.error == Thrown("GPIO action requires pin and value"))
            && (st.outcome.Ok? ==>
                  && st.effects[0] == Emitted(Str("gpio_action"), Obj([("pin", pin), ("value", value), ("duration", duration)]))
                  && (|st.effects| == 2 <==> Truthy(duration) && Positive(duration))
                  && (|st.effects| == 2 ==>
                        st.effects[1] == Scheduled(duration, Str("gpio_action"), Obj([("pin", pin), ("value", Inverse(value))]))))
  {
  }

  /** For the levels 0 and 1 the scheduled reset writes the other level, and
      resetting twice restores the first. */
  lemma InverseFlips(b: int)
    requires b == 0 || b == 1
    ensures Inverse(Num(b)) == Num(1 - b)
    ensures Inverse(Inverse(Num(b))) == Num(b)
  {
  }

  /** A numeric delay succeeds exactly when it is positive, and then waits that
      long. */
  lemma DelaySpec(params: Value, n: int)
    requires !Nullish(params) && Get(params, "ms") == Num(n)
    ensures DelayAction(params).outcome.Ok? <==> n > 0
    ensures n > 0 ==> DelayAction(params).effects == [Waited(Num(n))]
    ensures n <= 0 ==> DelayAction(params).outcome == Err(Thrown("Delay action requires positive ms value"))
  {
  }

  /** A string message is logged interpolated at the given level, `info` when
      none is given; an empty or missing message is refused. */
  lemma LogSpec(params: Value, context: Value)
    requires !Nullish(params)
    ensures var st := LogAction(params, context);
            var message := Get(params, "message");
            var level := Get(params, "level");
            && (!Truthy(message) ==> st.outcome == Err(Thrown("Log action requires message")))
            && (message.Str? && message.s != [] && (level.Undefined? || level.Str?) ==>
                  st.outcome == Ok(Obj([("level", if level.Undefined? then Str("info") else level),
                                        ("message", Str(Interpolate(message.s, context)))])))
            && st.effects == []
  {
  }

  /** An emit action with an event name emits that event once, with its data
      interpolated (an empty object when none is given). */
  lemma EmitSpec(params: Value, context: Value)
    requires !Nullish(params)
    ensures var st := EmitAction(params, context);
            var event := Get(params, "event");
            var data := Get(params, "data");
            && (st.outcome.Ok? <==> Truthy(event))
            && (!Truthy(event) ==> st.outcome.error == Thrown("Emit action requires event name"))
            && (Truthy(event) ==>
                  st.effects == [Emitted(event, if data.Undefined? then Obj([]) else InterpolateObject(data, context))])
  {
    if Get(params, "data").Undefined? {
      assert InterpolateObject(Obj([]), context) == Obj([]);
    }
  }

  /** An http action with a string url describes the request with that url
      interpolated and the method, `GET` by default. */
  lemma HttpSpec(params: Value, context: Value)
    requires !Nullish(params)
    ensures var st := HttpAction(params, context);
            var url := Get(params, "url");
            var verb := Get(params, "method");
            && (!Truthy(url) ==> st.outcome == Err(Thrown("HTTP action requires url")))
            && (url.Str? && url.s != [] ==>
                  st.outcome == Ok(Obj([("url", Str(Interpolate(url.s, context))),
                                        ("method", if verb.Undefined? then Str("GET") else verb),
                                        ("body", Get(params, "body"))])))
            && st.effects == []
  {
  }

  // ---------------------------------------------------------------------------
  // The executor
  // ---------------------------------------------------------------------------

  /** One entry of the list `executeActions` resolves to:
      `{ success: true, action: type, result }` or
      `{ success: false, action: type, error: err.message }`. */
  datatype ActionResult =
    | Succeeded(action: Value, result: Value)
    | Failed(action: Value, error: JsError)

  /** The entry for an action whose handler gave `st`. */
  function Record(action: Value, st: Step): (e: ActionResult)
    ensures e.Succeeded? <==> st.outcome.Ok?
    ensures e.action == Get(action, "type")
  {
    if st.outcome.Ok? then Succeeded(Get(action, "type"), st.outcome.value)
    else Failed(Get(action, "type"), st.outcome.error)
  }

  /** The executor's own handler dispatch in a given context. */
  function Runner(context: Value): Value -> Step {
    a => Execute(a, context)
  }

  /** How many actions `executeActions` gets through: all of them, or up to the
      first `null`/`undefined` one, whose `action.type` in the error handler
      throws again and rejects the whole call. */
  function Reached(actions: seq<Value>): (n: nat)
    ensures n <= |actions|
    ensures forall i | 0 <= i < n :: !Nullish(actions[i])
    ensures n < |actions| ==> Nullish(actions[n])
  {
    if actions == [] then 0
    else if Nullish(actions[0]) then 0
    else 1 + Reached(actions[1..])
  }

  /** The number of successful entries in a result list. */
  function Successes(rs: seq<ActionResult>): (n: nat)
    ensures n <= |rs|
  {
    if rs == [] then 0
    else Successes(rs[..|rs| - 1]) + (if rs[|rs| - 1].Succeeded? then 1 else 0)
  }

  lemma SuccessesStep(rs: seq<ActionResult>, r: ActionResult)
    ensures Successes(rs + [r]) == Successes(rs) + if r.Succeeded? then 1 else 0
  {
    assert (rs + [r])[..|rs|] == rs;
  }

  lemma {:induction false} ReachedAt(actions: seq<Value>, i: nat)
    requires i <= |actions| && forall k | 0 <= k < i :: !Nullish(actions[k])
    requires i == |actions| || Nullish(actions[i])
    ensures Reached(actions) == i
    decreases i
  {
    if i > 0 {
      ReachedAt(actions[1..], i - 1);
    }
  }

  /** The result list of running `actions` one after the other with `run`. */
  function Records(actions: seq<Value>, run: Value -> Step): seq<ActionResult> {
    if actions == [] then []
    else Records(actions[..|actions| - 1], run) + [Record(actions[|actions| - 1], run(actions[|actions| - 1]))]
  }

  /** The effects of running `actions` one after the other with `run`. */
  function EffectsOf(actions: seq<Value>, run: Value -> Step): seq<Effect> {
    if actions == [] then []
    else EffectsOf(actions[..|actions| - 1], run) + run(actions[|actions| - 1]).effects
  }

  /** One entry per action, in order. */
  lemma {:induction false} RecordsSpec(actions: seq<Value>, run: Value -> Step)
    ensures |Records(actions, run)| == |actions|
    ensures forall i | 0 <= i < |actions| :: Records(actions, run)[i] == Record(actions[i], run(actions[i]))
    decreases |actions|
  {
    if actions != [] {
      var init := actions[..|actions| - 1];
      RecordsSpec(init, run);
      var rs := Records(actions, run);
      forall i | 0 <= i < |actions| ensures rs[i] == Record(actions[i], run(actions[i])) {
        if i < |init| {
          assert rs[i] == Records(init, run)[i];
          assert init[i] == actions[i];
        }
      }
    }
  }

  /** One more action: its entry and its effects are added on. */
  lemma PrefixStep(actions: seq<Value>, i: nat, run: Value -> Step)
    requires i < |actions|
    ensures Records(actions[..i + 1], run) == Records(actions[..i], run) + [Record(actions[i], run(actions[i]))]
    ensures EffectsOf(actions[..i + 1], run) == EffectsOf(actions[..i], run) + run(actions[i]).effects
  {
    assert actions[..i + 1][..i] == actions[..i];
  }

  /** The executor: its counters and the effects it has had so far. */
  class Executor {
    var actionsExecuted: nat
    var errors: nat
    var effects: seq<Effect>

    constructor ()
      ensures actionsExecuted == 0 && errors == 0 && effects == []
    {
      actionsExecuted, errors, effects := 0, 0, [];
    }

    /** `executeAction(action, context)`: the handler's result, its effects
        applied. */
    method ExecuteAction(action: Value, context: Value) returns (r: Result<Value, JsError>)
      modifies this
      ensures r == Execute(action, context).outcome
      ensures effects == old(effects) + Execute(action, context).effects
      ensures actionsExecuted == old(actionsExecuted) && errors == old(errors)
    {
      var st := Execute(action, context);
      effects := effects + st.effects;
      r := st.outcome;
    }

    /** `executeActions(actions, context)`: runs the actions in order, one
        result per action, each counted as executed or as an error.  A
        `null`/`undefined` action rejects the call after the actions before it
        have run. */
    method ExecuteActions(actions: seq<Value>, context: Value) returns (r: Result<seq<ActionResult>, JsError>)
      modifies this
      ensures var n := Reached(actions);
              var done := Records(actions[..n], Runner(context));
              && (r.Err? <==> n < |actions|)
              && (r.Err? ==> r.error.TypeError?)
              && (r.Ok? ==> r.value == done && |done| == |actions|)
              && actionsExecuted == old(actionsExecuted) + Successes(done)
              && errors == old(errors) + |done| - Successes(done)
              && effects == old(effects) + EffectsOf(actions[..n], Runner(context))
    {
      var results, n := RunUntilNullish(actions, Runner(context));
      RecordsSpec(actions[..n], Runner(context));
      if n < |actions| {
        return Err(TypeError("cannot read property type of " + JsString(actions[n])));
      }
      assert actions[..n] == actions;
      r := Ok(results);
    }

    /** One turn of the loop of `executeActions`: runs `actions[i]`, counts
        its outcome, keeps its effects and appends its entry. */
    method RunOne(actions: seq<Value>, i: nat, run: Value -> Step, results: seq<ActionResult>) returns (more: seq<ActionResult>)
      requires i < |actions| && results == Records(actions[..i], run)
      modifies this
      ensures more == Records(actions[..i + 1], run) && |more| == |results| + 1
      ensures var ok := run(actions[i]).outcome.Ok?;
              && Successes(more) == Successes(results) + (if ok then 1 else 0)
              && actionsExecuted == old(actionsExecuted) + (if ok then 1 else 0)
              && errors == old(errors) + (if ok then 0 else 1)
      ensures effects == old(effects) + run(actions[i]).effects
      ensures EffectsOf(actions[..i + 1], run) == EffectsOf(actions[..i], run) + run(actions[i]).effects
    {
      var st := run(actions[i]);
      var rec := Record(actions[i], st);
      effects := effects + st.effects;
      if st.outcome.Ok? {
        actionsExecuted := actionsExecuted + 1;
      } else {
        errors := errors + 1;
      }
      PrefixStep(actions, i, run);
      SuccessesStep(results, rec);
      more := results + [rec];
    }

    /** The loop of `executeActions`, with `run` for `executeAction`, up to its
        end or to the first `null`/`undefined` action. */
    method RunUntilNullish(actions: seq<Value>, run: Value -> Step) returns (results: seq<ActionResult>, i: nat)
      modifies this
      ensures i == Reached(actions)
      ensures results == Records(actions[..i], run)
      ensures actionsExecuted == old(actionsExecuted) + Successes(results)
      ensures errors == old(errors) + |results| - Successes(results)
      ensures effects == old(effects) + EffectsOf(actions[..i], run)
    {
      results, i := [], 0;
      while i < |actions| && !Nullish(actions[i])
        invariant 0 <= i <= |actions|
        invariant forall k | 0 <= k < i :: !Nullish(actions[k])
        invariant results == Records(actions[..i], run)
        invariant |results| == i
        invariant actionsExecuted == old(actionsExecuted) + Successes(results)
        invariant errors == old(errors) + |results| - Successes(results)
        invariant effects == old(effects) + EffectsOf(actions[..i], run)
      {
        results := RunOne(actions, i, run, results);
        i := i + 1;
      }
      ReachedAt(actions, i);
    }

    /** `getStats()`: a copy of the counters. */
    method GetStats() returns (executed: nat, failed: nat)
      ensures executed == actionsExecuted && failed == errors
    {
      executed, failed := actionsExecuted, errors;
    }
  }

  /** Every entry of a completed run is the outcome of that action's handler. */
  lemma RunEntries(actions: seq<Value>, context: Value)
    ensures var rs := Records(actions, Runner(context));
            |rs| == |actions|
            && forall i | 0 <= i < |actions| ::
                 (rs[i].Succeeded? <==> Execute(actions[i], context).outcome.Ok?)
                 && (rs[i].Succeeded? ==> rs[i].result == Execute(actions[i], context).outcome.value)
                 && (rs[i].Failed? ==> rs[i].error == Execute(actions[i], context).outcome.error)
  {
    RecordsSpec(actions, Runner(context));
  }
}
