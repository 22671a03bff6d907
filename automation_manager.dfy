/** The automation manager wired to the GPIO event bus: a table of rules kept
    in insertion order, each with an execution counter; a pin-change condition
    matcher; an `HH:MM` and weekday schedule predicate; and the execution of a
    rule's actions, recorded as a trace of GPIO write and wait intents.

    Storage (`loadRules`, `saveRules`), console output and real time are not
    modelled: ids, the clock and the weekday are parameters, and every timer
    or wait is an entry in the trace carrying its delay. */
module AutomationManager {
  import opened Wrappers
  import opened JsValue
  import JsMap
  import LogService
  import ActionExecutor

  // ---------------------------------------------------------------------------
  // Conditions
  // ---------------------------------------------------------------------------

  /** One item of `all` or `any`: a `gpio_change` leaf matches a `gpio_change`
      event on the same pin whose value is the leaf's, or any value when the
      leaf names none; a leaf for any other event holds whatever the event. */
  predicate LeafHolds(cond: Value, eventData: Value) {
    StrictEq(Get(cond, "event"), Str("gpio_change")) ==>
      && StrictEq(Get(eventData, "event"), Str("gpio_change"))
      && StrictEq(Get(eventData, "pin"), Get(cond, "pin"))
      && (Get(cond, "value") == Undefined || StrictEq(Get(eventData, "value"), Get(cond, "value")))
  }

  /** A leaf's verdict; reading `cond.event` of `null` or `undefined` throws. */
  function Leaf(cond: Value, eventData: Value): Result<bool, JsError> {
    if ActionExecutor.Nullish(cond) then Err(TypeError("cannot read property event"))
    else Ok(LeafHolds(cond, eventData))
  }

  /** `items.every(leaf)`: stops at the first item that is false or throws. */
  function Every(items: seq<Value>, eventData: Value): Result<bool, JsError>
    decreases |items|
  {
    if items == [] then Ok(true)
    else match Leaf(items[0], eventData)
      case Err(e) => Err(e)
      case Ok(b) => if b then Every(items[1..], eventData) else Ok(false)
  }

  /** `items.some(leaf)`: stops at the first item that is true or throws. */
  function Some_(items: seq<Value>, eventData: Value): Result<bool, JsError>
    decreases |items|
  {
    if items == [] then Ok(false)
    else match Leaf(items[0], eventData)
      case Err(e) => Err(e)
      case Ok(b) => if b then Ok(true) else Some_(items[1..], eventData)
  }

  /** `checkConditions(conditions, eventData)`: missing conditions hold; a
      truthy `all` decides alone, else a truthy `any`; with neither the
      conditions hold.  An `all` or `any` that is not an array has no
      `every`/`some` and throws. */
  function CheckConditions(conditions: Value, eventData: Value): (r: Result<bool, JsError>)
    ensures r == Ok(false) ==> Truthy(Get(conditions, "all")) || Truthy(Get(conditions, "any"))
    ensures r.Err? ==> Truthy(conditions)
  {
    if !Truthy(conditions) then Ok(true)
    else if Truthy(Get(conditions, "all")) then
      (match Get(conditions, "all")
       case Arr(items) => Every(items, eventData)
       case _ => Err(TypeError("conditions.all.every is not a function")))
    else if Truthy(Get(conditions, "any")) then
      (match Get(conditions, "any")
       case Arr(items) => Some_(items, eventData)
       case _ => Err(TypeError("conditions.any.some is not a function")))
    else Ok(true)
  }

  /** The event `handleGPIOChange` checks the conditions against. */
  function PinChange(pin: Value, value: Value): Value {
    Obj([("event", Str("gpio_change")), ("pin", pin), ("value", value)])
  }

  /** When no item is `null` or `undefined`, `every` is true exactly when every
      leaf holds. */
  lemma {:induction false} EverySpec(items: seq<Value>, eventData: Value)
    requires forall i | 0 <= i < |items| :: !ActionExecutor.Nullish(items[i])
    ensures Every(items, eventData) == Ok(forall i | 0 <= i < |items| :: LeafHolds(items[i], eventData))
    decreases |items|
  {
    if items != [] {
      EverySpec(items[1..], eventData);
      assert forall i | 1 <= i < |items| :: items[i] == items[1..][i - 1];
    }
  }

  /** When no item is `null` or `undefined`, `some` is true exactly when some
      leaf holds. */
  lemma {:induction false} SomeSpec(items: seq<Value>, eventData: Value)
    requires forall i | 0 <= i < |items| :: !ActionExecutor.Nullish(items[i])
    ensures Some_(items, eventData) == Ok(exists i | 0 <= i < |items| :: LeafHolds(items[i], eventData))
    decreases |items|
  {
    if items != [] {
      SomeSpec(items[1..], eventData);
      assert forall i | 1 <= i < |items| :: items[i] == items[1..][i - 1];
    }
  }

  /** Missing conditions, and conditions with neither `all` nor `any` (a
      schedule-only rule, say), match every event. */
  lemma UnconditionalMatches(conditions: Value, eventData: Value)
    requires !Truthy(conditions) || (!Truthy(Get(conditions, "all")) && !Truthy(Get(conditions, "any")))
    ensures CheckConditions(conditions, eventData) == Ok(true)
  {
  }

  /** `{all: []}` matches every event, `{any: []}` none, and a truthy `all`
      decides alone whatever `any` holds. */
  lemma EmptyListsAndPrecedence(eventData: Value, all: seq<Value>, any: Value)
    ensures CheckConditions(Obj([("all", Arr([]))]), eventData) == Ok(true)
    ensures CheckConditions(Obj([("any", Arr([]))]), eventData) == Ok(false)
    ensures CheckConditions(Obj([("all", Arr(all)), ("any", any)]), eventData) == Every(all, eventData)
  {
  }

  /** A leaf for another event holds for every event. */
  lemma OtherEventLeaf(cond: Value, eventData: Value)
    requires !ActionExecutor.Nullish(cond) && Get(cond, "event") != Str("gpio_change")
    ensures Leaf(cond, eventData) == Ok(true)
  {
  }

  /** A `gpio_change` leaf matches a pin change exactly when the pins are the
      same and the leaf's value is absent or the same as the event's. */
  lemma PinChangeLeaf(cond: Value, pin: Value, value: Value)
    requires !ActionExecutor.Nullish(cond) && Get(cond, "event") == Str("gpio_change")
    ensures Leaf(cond, PinChange(pin, value))
            == Ok(StrictEq(pin, Get(cond, "pin"))
                  && (Get(cond, "value") == Undefined || StrictEq(value, Get(cond, "value"))))
  {
    var event := PinChange(pin, value);
    LookupAt(event.fields, "event", 0);
    LookupAt(event.fields, "pin", 1);
    LookupAt(event.fields, "value", 2);
  }

  // ---------------------------------------------------------------------------
  // Schedules
  // ---------------------------------------------------------------------------

  /** `days.includes(day)`: an array compares by `===`, a string searches for
      the day written in decimal; anything else has no `includes` and throws. */
  function DaysInclude(days: Value, day: int): Result<bool, JsError> {
    match days
    case Arr(items) => Ok(Includes(items, Num(day)))
    case Str(s) => Ok(Contains(s, IntToString(day)))
    case _ => Err(TypeError("days.includes is not a function"))
  }

  /** `days && days.length > 0`: whether the schedule names weekdays. */
  predicate NamesDays(days: Value) {
    Truthy(days) && ActionExecutor.Positive(Get(days, "length"))
  }

  /** `const [hours, minutes] = time.split(':').map(Number)` compared with the
      hour and the minute; a missing minute is `undefined`, which equals
      nothing. */
  predicate AtTime(time: string, hour: int, minute: int) {
    var parts := Split(time, ':');
    StringToNumber(parts[0]) == Some(hour) && |parts| > 1 && StringToNumber(parts[1]) == Some(minute)
  }

  /** `shouldTriggerSchedule(schedule, now)` with `now`'s weekday (0 for Sunday),
      hour and minute as parameters.  A non-empty `days` must contain the
      weekday; then `time`, split at `:` and converted with `Number`, must give
      exactly the hour and the minute.  No `time` never fires. */
  function ShouldTrigger(schedule: Value, day: int, hour: int, minute: int): (r: Result<bool, JsError>)
    ensures r == Ok(true) ==> var time := Get(schedule, "time"); time.Str? && AtTime(time.s, hour, minute)
    ensures r == Ok(true) ==> !NamesDays(Get(schedule, "days")) || DaysInclude(Get(schedule, "days"), day) == Ok(true)
  {
    if ActionExecutor.Nullish(schedule) then Err(TypeError("cannot destructure schedule"))
    else
      var days := Get(schedule, "days");
      var time := Get(schedule, "time");
      var dayCheck := if NamesDays(days) then DaysInclude(days, day) else Ok(true);
      if dayCheck.Err? then Err(dayCheck.error)
      else if !dayCheck.value then Ok(false)
      else if !Truthy(time) then Ok(false)
      else if !time.Str? then Err(TypeError("time.split is not a function"))
      else Ok(AtTime(time.s, hour, minute))
  }

  /** Two decimal digits, with a leading zero below 10. */
  function TwoDigits(n: nat): (s: string)
    requires n < 100
    ensures |s| == 2 && AllDigits(s)
  {
    [DigitChar(n / 10), DigitChar(n % 10)]
  }

  /** The `HH:MM` form of an hour and a minute. */
  function Clock(h: nat, m: nat): string
    requires h < 100 && m < 100
  {
    TwoDigits(h) + ":" + TwoDigits(m)
  }

  lemma TwoDigitsNumber(n: nat)
    requires n < 100
    ensures StringToNumber(TwoDigits(n)) == Some(n)
  {
    var s := TwoDigits(n);
    assert !IsJsSpace(s[0]) && !IsJsSpace(s[1]);
    TrimUnspaced(s);
    assert s[..1][..0] == [];
    assert s[..|s| - 1] == s[..1];
    assert DigitsValue(s[..1]) == n / 10;
    assert DigitsValue(s) == (n / 10) * 10 + n % 10;
  }

  lemma ClockParts(h: nat, m: nat)
    requires h < 100 && m < 100
    ensures Split(Clock(h, m), ':') == [TwoDigits(h), TwoDigits(m)]
  {
    var s := Clock(h, m);
    assert s[2] == ':' && ':' !in s[..2] && s[..2] == TwoDigits(h);
    IndexOfFirst(s, ':', 2);
    assert s[3..] == TwoDigits(m);
    assert ':' !in TwoDigits(m);
  }

  /** With no weekday restriction, or one the weekday satisfies, a schedule at
      `HH:MM` fires exactly at that hour and minute. */
  lemma ClockFires(schedule: Value, h: nat, m: nat, day: int, hour: int, minute: int)
    requires h < 100 && m < 100
    requires !ActionExecutor.Nullish(schedule) && Get(schedule, "time") == Str(Clock(h, m))
    requires var days := Get(schedule, "days");
             !Truthy(days) || (days.Arr? && Includes(days.items, Num(day)))
    ensures ShouldTrigger(schedule, day, hour, minute) == Ok(hour == h && minute == m)
  {
    ClockAt(h, m, hour, minute);
    var days := Get(schedule, "days");
    if NamesDays(days) {
      assert DaysInclude(days, day) == Ok(true);
    }
    assert Truthy(Get(schedule, "time"));
    assert ShouldTrigger(schedule, day, hour, minute) == Ok(AtTime(Clock(h, m), hour, minute));
  }

  /** `HH:MM` names exactly hour `h` and minute `m`. */
  lemma ClockAt(h: nat, m: nat, hour: int, minute: int)
    requires h < 100 && m < 100
    ensures AtTime(Clock(h, m), hour, minute) <==> hour == h && minute == m
  {
    ClockParts(h, m);
    TwoDigitsNumber(h);
    TwoDigitsNumber(m);
  }

  /** A non-empty list of weekdays without today's never fires. */
  lemma OtherDayNeverFires(schedule: Value, day: int, hour: int, minute: int)
    requires !ActionExecutor.Nullish(schedule)
    requires var days := Get(schedule, "days");
             days.Arr? && days.items != [] && !Includes(days.items, Num(day))
    ensures ShouldTrigger(schedule, day, hour, minute) == Ok(false)
  {
    var days := Get(schedule, "days");
    assert Get(days, "length") == Num(|days.items|);
    assert NamesDays(days);
  }

  /** A schedule without a time never fires. */
  lemma NoTimeNeverFires(schedule: Value, day: int, hour: int, minute: int)
    requires !ActionExecutor.Nullish(schedule) && !Truthy(Get(schedule, "time"))
    ensures ShouldTrigger(schedule, day, hour, minute) != Ok(true)
  {
    var days := Get(schedule, "days");
    var dayCheck := if NamesDays(days) then DaysInclude(days, day) else Ok(true);
    assert ShouldTrigger(schedule, day, hour, minute) == if dayCheck.Err? then Err(dayCheck.error) else Ok(false);
  }

  // ---------------------------------------------------------------------------
  // Actions of a rule
  // ---------------------------------------------------------------------------

  /** What an action of a rule asks of the GPIO side. */
  datatype Intent =
    | Write(pin: Value, level: Value)  // gpioEvents.emit('gpio_action', {pin, value})
    | Wait(ms: Value)                  // await a timer of `ms`

  /** `executeAction(action)` of the manager: the intents it records, in order,
      or the error it throws (a `null` action, `params` missing where they are
      read without `?.`, or a log level without `toUpperCase`).  Unknown types
      do nothing. */
  function ActionIntents(action: Value): (r: Result<seq<Intent>, JsError>)
    ensures r.Ok? ==> |r.value| <= 3
    ensures r.Ok? && r.value != [] ==> KnownKind(Get(action, "type"))
    ensures r.Err? ==> ActionExecutor.Nullish(action) || KnownKind(Get(action, "type"))
  {
    if ActionExecutor.Nullish(action) then Err(TypeError("cannot read property type"))
    else
      var kind := Get(action, "type");
      var params := Get(action, "params");
      if kind == Str("log") then
        var level := if Truthy(Get(params, "level")) then Get(params, "level") else Str("info");
        if level.Str? then Ok([]) else Err(TypeError("level.toUpperCase is not a function"))
      else if kind in {Str("gpio"), Str("gpio_set"), Str("gpio_pulse"), Str("delay")} && ActionExecutor.Nullish(params) then
        Err(TypeError("cannot read property of action.params"))
      else if kind == Str("gpio") then
        var pin := Get(params, "pin");
        var value := Get(params, "value");
        var duration := Get(params, "duration");
        Ok([Write(pin, value)] + if Truthy(duration) then [Wait(duration), Write(pin, ActionExecutor.Inverse(value))] else [])
      else if kind == Str("gpio_set") then
        Ok([Write(Get(params, "pin"), Get(params, "value"))])
      else if kind == Str("gpio_pulse") then
        var duration := Get(params, "duration");
        Ok([Write(Get(params, "pin"), Num(1)), Wait(if Truthy(duration) then duration else Num(300)), Write(Get(params, "pin"), Num(0))])
      else if kind == Str("delay") then
        var duration := Get(params, "duration");
        Ok([Wait(if Truthy(duration) then duration else Num(1000))])
      else Ok([])
  }

  /** The action kinds the manager acts on. */
  predicate KnownKind(kind: Value) {
    kind in {Str("log"), Str("gpio"), Str("gpio_set"), Str("gpio_pulse"), Str("delay")}
  }

  /** A `gpio` action writes its value; with a truthy duration it waits that
      long and writes the other level, so a 0/1 value ends where it did not
      start. */
  lemma GpioIntents(action: Value, b: int)
    requires !ActionExecutor.Nullish(action) && Get(action, "type") == Str("gpio")
    requires var params := Get(action, "params");
             !ActionExecutor.Nullish(params) && Get(params, "value") == Num(b) && (b == 0 || b == 1)
    ensures var params := Get(action, "params");
            var pin := Get(params, "pin");
            var trace := ActionIntents(action);
            && trace.Ok? && trace.value[0] == Write(pin, Num(b))
            && (|trace.value| == 3 <==> Truthy(Get(params, "duration")))
            && (|trace.value| != 3 ==> |trace.value| == 1)
            && (|trace.value| == 3 ==> trace.value[1] == Wait(Get(params, "duration")) && trace.value[2] == Write(pin, Num(1 - b)))
  {
    ActionExecutor.InverseFlips(b);
  }

  /** A `gpio_pulse` action writes 1, waits (300 by default) and writes 0; a
      `gpio_set` action writes once. */
  lemma PulseAndSetIntents(action: Value)
    requires !ActionExecutor.Nullish(action) && !ActionExecutor.Nullish(Get(action, "params"))
    ensures var params := Get(action, "params");
            var pin := Get(params, "pin");
            && (Get(action, "type") == Str("gpio_pulse") ==>
                  ActionIntents(action) == Ok([Write(pin, Num(1)),
                                               Wait(if Truthy(Get(params, "duration")) then Get(params, "duration") else Num(300)),
                                               Write(pin, Num(0))]))
            && (Get(action, "type") == Str("gpio_set") ==>
                  ActionIntents(action) == Ok([Write(pin, Get(params, "value"))]))
  {
  }

  /** An action of an unknown kind does nothing and does not throw. */
  lemma UnknownKindIsIgnored(action: Value)
    requires !ActionExecutor.Nullish(action) && !KnownKind(Get(action, "type"))
    ensures ActionIntents(action) == Ok([])
  {
  }

  /** Running a rule's actions one after the other, `run` giving each one's
      intents: the intents of the actions that completed and the error of the
      first that threw, if any. */
  function Performed(actions: seq<Value>, run: Value -> Result<seq<Intent>, JsError>): (seq<Intent>, Option<JsError>) {
    if actions == [] then ([], None)
    else
      var (trace, err) := Performed(actions[..|actions| - 1], run);
      if err.Some? then (trace, err)
      else match run(actions[|actions| - 1])
        case Ok(more) => (trace + more, None)
        case Err(e) => (trace, Some(e))
  }

  /** After an action throws, the later ones are not run. */
  lemma {:induction false} PerformedStops(actions: seq<Value>, k: nat, run: Value -> Result<seq<Intent>, JsError>)
    requires k <= |actions| && Performed(actions[..k], run).1.Some?
    ensures Performed(actions, run) == Performed(actions[..k], run)
    decreases |actions| - k
  {
    if k < |actions| {
      assert actions[..k + 1][..k] == actions[..k];
      PerformedStops(actions, k + 1, run);
    } else {
      assert actions[..k] == actions;
    }
  }

  /** When every action completes, the intents are those of each action in
      turn. */
  lemma {:induction false} PerformedAll(actions: seq<Value>, traces: seq<seq<Intent>>)
    requires |traces| == |actions| && forall i | 0 <= i < |actions| :: ActionIntents(actions[i]) == Ok(traces[i])
    ensures Performed(actions, ActionIntents) == (Flatten(traces), None)
    decreases |actions|
  {
    if actions != [] {
      var n := |actions| - 1;
      PerformedAll(actions[..n], traces[..n]);
      assert actions[..n] == actions[..|actions| - 1];
      assert traces[..n] == traces[..|traces| - 1];
    }
  }

  /** Runs `actions` in order until one throws, as `executeRule` does. */
  method RunActions(actions: seq<Value>, run: Value -> Result<seq<Intent>, JsError>) returns (trace: seq<Intent>, err: Option<JsError>)
    ensures (trace, err) == Performed(actions, run)
  {
    trace, err := [], None;
    var i := 0;
    while i < |actions|
      invariant 0 <= i <= |actions|
      invariant (trace, None) == Performed(actions[..i], run)
    {
      assert actions[..i + 1][..i] == actions[..i];
      var step := run(actions[i]);
      if step.Err? {
        PerformedStops(actions, i + 1, run);
        return trace, Some(step.error);
      }
      trace := trace + step.value;
      i := i + 1;
    }
    assert actions[..i] == actions;
  }

  function Flatten(traces: seq<seq<Intent>>): seq<Intent> {
    if traces == [] then [] else Flatten(traces[..|traces| - 1]) + traces[|traces| - 1]
  }

  /** The key a rule's counter is kept under: `rule.id`. */
  function IdKey(rule: Value): string {
    JsString(Get(rule, "id"))
  }

  /** The counters and the trace, as one value. */
  datatype Tally = Tally(totalTriggers: nat, executions: seq<(string, int)>, intents: seq<Intent>)

  /** `executeRule(rule)`, `run` giving each action's intents: the intents of
      its actions are recorded; only when every action completed does
      `totalTriggers` and the rule's own count go up by one.  Actions that are
      not iterable throw before anything runs. */
  function RuleStep(t: Tally, rule: Value, run: Value -> Result<seq<Intent>, JsError>): Tally {
    match Elements(Get(rule, "actions"))
    case Err(_) => t
    case Ok(actions) =>
      var (trace, err) := Performed(actions, run);
      if err.Some? then t.(intents := t.intents + trace)
      else Tally(t.totalTriggers + 1,
                 JsMap.Set(t.executions, IdKey(rule), JsMap.Get(t.executions, IdKey(rule)).GetOr(0) + 1),
                 t.intents + trace)
  }

  /** `executeRule(rule)` with the manager's own actions. */
  function AfterRule(t: Tally, rule: Value): Tally {
    RuleStep(t, rule, ActionIntents)
  }

  /** Rules executed one after the other. */
  function AfterRules(t: Tally, rules: seq<Value>): Tally {
    if rules == [] then t else AfterRule(AfterRules(t, rules[..|rules| - 1]), rules[|rules| - 1])
  }

  /** A rule whose actions all complete is counted once more, in the total and
      under its id, and leaves every other counter as it was; one whose actions
      throw is not counted. */
  lemma RuleCounted(t: Tally, rule: Value)
    requires JsMap.UniqueKeys(t.executions)
    ensures var after := AfterRule(t, rule);
            var ok := match Elements(Get(rule, "actions")) case Ok(actions) => Performed(actions, ActionIntents).1.None? case Err(_) => false;
            && JsMap.UniqueKeys(after.executions)
            && (ok ==> (after.totalTriggers == t.totalTriggers + 1
                        && JsMap.Get(after.executions, IdKey(rule)) == Some(JsMap.Get(t.executions, IdKey(rule)).GetOr(0) + 1)))
            && (!ok ==> after.totalTriggers == t.totalTriggers && after.executions == t.executions)
            && forall k | k != IdKey(rule) :: JsMap.Get(after.executions, k) == JsMap.Get(t.executions, k)
  {
    JsMap.SetSpec(t.executions, IdKey(rule), JsMap.Get(t.executions, IdKey(rule)).GetOr(0) + 1);
  }

  /** Whether `handleGPIOChange` starts a rule for an event: a disabled rule is
      skipped without looking at its conditions. */
  function Verdict(eventData: Value): Value -> Result<bool, JsError> {
    rule => if Truthy(Get(rule, "enabled")) then CheckConditions(Get(rule, "conditions"), eventData) else Ok(false)
  }

  /** The rules started, in table order, `verdict` deciding each: those it
      accepts, up to the first rule whose verdict throws, whose error is the
      second component. */
  function Matching(rules: seq<Value>, verdict: Value -> Result<bool, JsError>): (seq<Value>, Option<JsError>) {
    if rules == [] then ([], None)
    else
      var (found, err) := Matching(rules[..|rules| - 1], verdict);
      var rule := rules[|rules| - 1];
      if err.Some? then (found, err)
      else match verdict(rule)
        case Err(e) => (found, Some(e))
        case Ok(b) => (if b then found + [rule] else found, None)
  }

  /** A rule fires on an event when it is enabled and its conditions hold. */
  predicate Fires(rule: Value, eventData: Value) {
    Truthy(Get(rule, "enabled")) && CheckConditions(Get(rule, "conditions"), eventData) == Ok(true)
  }

  /** The rules of a table that fire, read from the front: each as often as
      it occurs, in table order. */
  function Firing(rules: seq<Value>, eventData: Value): seq<Value> {
    if rules == [] then []
    else (if Fires(rules[0], eventData) then [rules[0]] else []) + Firing(rules[1..], eventData)
  }

  /** Reading one more rule at the back adds it exactly when it fires. */
  lemma {:induction false} FiringAppend(rules: seq<Value>, rule: Value, eventData: Value)
    ensures Firing(rules + [rule], eventData)
            == Firing(rules, eventData) + (if Fires(rule, eventData) then [rule] else [])
    decreases |rules|
  {
    if rules == [] {
      assert [rule][1..] == [];
    } else {
      assert (rules + [rule])[1..] == rules[1..] + [rule];
      FiringAppend(rules[1..], rule, eventData);
    }
  }

  /** A rule is among the firing ones exactly when it is in the table and
      fires, and there are never more of them than rules. */
  lemma {:induction false} FiringMembers(rules: seq<Value>, eventData: Value)
    ensures forall r :: r in Firing(rules, eventData) <==> r in rules && Fires(r, eventData)
    ensures |Firing(rules, eventData)| <= |rules|
    decreases |rules|
  {
    if rules != [] {
      FiringMembers(rules[1..], eventData);
      assert rules == [rules[0]] + rules[1..];
    }
  }

  /** Without errors, `Matching` under the verdict of an event starts the
      firing rules. */
  lemma {:induction false} MatchingIsFiring(rules: seq<Value>, eventData: Value)
    requires Matching(rules, Verdict(eventData)).1.None?
    ensures Matching(rules, Verdict(eventData)).0 == Firing(rules, eventData)
    decreases |rules|
  {
    if rules != [] {
      var init := rules[..|rules| - 1];
      var last := rules[|rules| - 1];
      var verdict := Verdict(eventData);
      assert Matching(init, verdict).1.None?;
      MatchingIsFiring(init, eventData);
      assert rules == init + [last];
      FiringAppend(init, last, eventData);
      assert verdict(last).Ok?;
      if Fires(last, eventData) {
        assert verdict(last).value;
        assert Matching(rules, verdict).0 == Matching(init, verdict).0 + [last];
        assert Firing(rules, eventData) == Firing(init, eventData) + [last];
      } else {
        assert !verdict(last).value;
        assert Matching(rules, verdict).0 == Matching(init, verdict).0;
        assert Firing(rules, eventData) == Firing(init, eventData) + [];
      }
    }
  }

  /** Without errors, the rules started are exactly the enabled matching ones,
      each as often as it occurs in the table, in table order. */
  lemma MatchingSpec(rules: seq<Value>, eventData: Value)
    requires Matching(rules, Verdict(eventData)).1.None?
    ensures var found := Matching(rules, Verdict(eventData)).0;
            && found == Firing(rules, eventData)
            && (forall r :: r in found <==> r in rules && Fires(r, eventData))
            && |found| <= |rules|
  {
    MatchingIsFiring(rules, eventData);
    FiringMembers(rules, eventData);
  }

  /** When no enabled rule's conditions throw, no error ends the walk. */
  lemma {:induction false} MatchingCompletes(rules: seq<Value>, eventData: Value)
    requires forall i | 0 <= i < |rules| :: Truthy(Get(rules[i], "enabled")) ==> CheckConditions(Get(rules[i], "conditions"), eventData).Ok?
    ensures Matching(rules, Verdict(eventData)).1.None?
    decreases |rules|
  {
    if rules != [] {
      MatchingCompletes(rules[..|rules| - 1], eventData);
    }
  }

  /** After a rule's verdict throws, later rules are not looked at. */
  lemma {:induction false} MatchingStops(rules: seq<Value>, verdict: Value -> Result<bool, JsError>, k: nat)
    requires k <= |rules| && Matching(rules[..k], verdict).1.Some?
    ensures Matching(rules, verdict) == Matching(rules[..k], verdict)
    decreases |rules| - k
  {
    if k < |rules| {
      assert rules[..k + 1][..k] == rules[..k];
      MatchingStops(rules, verdict, k + 1);
    } else {
      assert rules[..k] == rules;
    }
  }

  // ---------------------------------------------------------------------------
  // Rules
  // ---------------------------------------------------------------------------

  /** `rule.x || fallback` */
  function Or(v: Value, fallback: Value): Value {
    if Truthy(v) then v else fallback
  }

  /** A rule object with the properties `addRule` gives it, in its order. */
  function RuleObject(id: Value, name: Value, description: Value, enabled: Value, priority: Value,
                      conditions: Value, actions: Value, createdAt: Value): Value
  {
    Obj([("id", id), ("name", name), ("description", description), ("enabled", enabled),
         ("priority", priority), ("conditions", conditions), ("actions", actions), ("createdAt", createdAt)])
  }

  lemma RuleObjectFields(id: Value, name: Value, description: Value, enabled: Value, priority: Value,
                         conditions: Value, actions: Value, createdAt: Value)
    ensures var r := RuleObject(id, name, description, enabled, priority, conditions, actions, createdAt);
            && Get(r, "id") == id && Get(r, "name") == name && Get(r, "description") == description
            && Get(r, "enabled") == enabled && Get(r, "priority") == priority
            && Get(r, "conditions") == conditions && Get(r, "actions") == actions
            && Get(r, "createdAt") == createdAt
  {
    var r := RuleObject(id, name, description, enabled, priority, conditions, actions, createdAt);
    LookupAt(r.fields, "name", 1);
    LookupAt(r.fields, "description", 2);
    LookupAt(r.fields, "enabled", 3);
    RuleObjectLater(r.fields);
  }

  lemma RuleObjectLater(fields: seq<(string, Value)>)
    requires |fields| == 8 && fields[0].0 == "id" && fields[1].0 == "name" && fields[2].0 == "description"
    requires fields[3].0 == "enabled" && fields[4].0 == "priority" && fields[5].0 == "conditions"
    requires fields[6].0 == "actions" && fields[7].0 == "createdAt"
    ensures Lookup(fields, "priority") == fields[4].1 && Lookup(fields, "conditions") == fields[5].1
    ensures Lookup(fields, "actions") == fields[6].1 && Lookup(fields, "createdAt") == fields[7].1
  {
    LookupAt(fields, "priority", 4);
    LookupAt(fields, "conditions", 5);
    LookupAt(fields, "actions", 6);
    LookupAt(fields, "createdAt", 7);
  }

  /** The rule `addRule` stores for `input`, under the id `id`; `now` stands for
      `Date.now()`. */
  function NewRule(input: Value, id: Value, now: int): Value {
    RuleObject(id,
               Or(Get(input, "name"), Str("Unnamed Rule")),
               Or(Get(input, "description"), Str("")),
               Bool(!StrictEq(Get(input, "enabled"), Bool(false))),
               Or(Get(input, "priority"), Num(100)),
               Or(Get(input, "conditions"), Obj([("all", Arr([]))])),
               Or(Get(input, "actions"), Arr([])),
               Or(Get(input, "createdAt"), Num(now)))
  }

  /** The id `addRule` uses: the input's own when truthy, else `freshId`, which
      stands for `rule_<time>_<random>`. */
  function RuleId(input: Value, freshId: string): Value {
    Or(Get(input, "id"), Str(freshId))
  }

  /** A stored rule is enabled, disabled or counted by what it says. */
  lemma NewRuleDefaults(input: Value, id: Value, now: int)
    ensures var r := NewRule(input, id, now);
            && Get(r, "id") == id
            && (Get(input, "name") == Undefined ==> Get(r, "name") == Str("Unnamed Rule"))
            && (Get(input, "description") == Undefined ==> Get(r, "description") == Str(""))
            && (Get(r, "enabled") == Bool(false) <==> Get(input, "enabled") == Bool(false))
            && (Get(input, "priority") == Num(0) ==> Get(r, "priority") == Num(100))
            && (Get(input, "priority") == Undefined ==> Get(r, "priority") == Num(100))
            && (Get(input, "conditions") == Undefined ==> Get(r, "conditions") == Obj([("all", Arr([]))]))
            && (Get(input, "actions") == Undefined ==> Get(r, "actions") == Arr([]))
  {
    var enabled := Get(input, "enabled");
    assert StrictEq(enabled, Bool(false)) <==> enabled == Bool(false);
    RuleObjectFields(id, Or(Get(input, "name"), Str("Unnamed Rule")), Or(Get(input, "description"), Str("")),
                     Bool(!StrictEq(enabled, Bool(false))), Or(Get(input, "priority"), Num(100)),
                     Or(Get(input, "conditions"), Obj([("all", Arr([]))])), Or(Get(input, "actions"), Arr([])),
                     Or(Get(input, "createdAt"), Num(now)));
  }

  /** The statistics `getStats` reports. */
  datatype Stats = Stats(totalTriggers: nat, totalRules: nat, activeRules: nat, executions: seq<(string, int)>)

  /** The number of enabled rules. */
  function Active(rules: seq<(string, Value)>): (n: nat)
    ensures n <= |rules|
    ensures n == |rules| <==> forall i | 0 <= i < |rules| :: Truthy(Get(rules[i].1, "enabled"))
  {
    if rules == [] then 0
    else Active(rules[..|rules| - 1]) + if Truthy(Get(rules[|rules| - 1].1, "enabled")) then 1 else 0
  }

  /** The manager: the rule table (`rules`, a `Map` from id to rule object),
      the execution counters, the pending timers, the trace of intents and the
      handles of timers cancelled. */
  class Manager {
    var rules: seq<(string, Value)>
    var totalTriggers: nat
    var executions: seq<(string, int)>
    var timers: seq<(string, int)>
    var intents: seq<Intent>
    var cancelled: seq<int>

    ghost predicate Valid()
      reads this
    {
      && JsMap.UniqueKeys(rules) && JsMap.UniqueKeys(executions) && JsMap.UniqueKeys(timers)
      && forall i | 0 <= i < |rules| :: rules[i].1.Obj?
    }

    /** The counters and the trace. */
    function Tallied(): Tally
      reads this
    {
      Tally(totalTriggers, executions, intents)
    }

    constructor ()
      ensures Valid()
      ensures rules == [] && totalTriggers == 0 && executions == [] && timers == [] && intents == [] && cancelled == []
    {
      rules, totalTriggers, executions, timers, intents, cancelled := [], 0, [], [], [], [];
    }

    /** `addRule(rule)`: stores the rule with its defaults filled in under its id
        (replacing a rule with that id in place), sets its count to 0 and
        returns the id; reading `rule.id` of `null` or `undefined` throws. */
    method AddRule(input: Value, freshId: string, now: int) returns (r: Result<Value, JsError>)
      requires Valid()
      modifies this
      ensures Valid()
      ensures ActionExecutor.Nullish(input) ==> r.Err? && rules == old(rules) && executions == old(executions)
      ensures !ActionExecutor.Nullish(input) ==>
                var id := RuleId(input, freshId);
                && r == Ok(id)
                && rules == JsMap.Set(old(rules), JsString(id), NewRule(input, id, now))
                && executions == JsMap.Set(old(executions), JsString(id), 0)
      ensures totalTriggers == old(totalTriggers) && timers == old(timers)
      ensures intents == old(intents) && cancelled == old(cancelled)
    {
      if ActionExecutor.Nullish(input) {
        return Err(TypeError("cannot read property id"));
      }
      var id := RuleId(input, freshId);
      var key := JsString(id);
      var rule := NewRule(input, id, now);
      JsMap.SetSpec(rules, key, rule);
      JsMap.SetSpec(executions, key, 0);
      SetKeepsObjects(rules, key, rule);
      rules := JsMap.Set(rules, key, rule);
      executions := JsMap.Set(executions, key, 0);
      r := Ok(id);
    }

    /** `removeRule(id)`: deletes the rule, its counter and its timer. */
    method RemoveRule(id: string) returns (r: Outcome<string>)
      requires Valid()
      modifies this
      ensures Valid()
      ensures !JsMap.Has(old(rules), id) ==>
                r == Fail("Rule " + id + " not found")
                && rules == old(rules) && executions == old(executions) && timers == old(timers)
                && cancelled == old(cancelled)
      ensures JsMap.Has(old(rules), id) ==>
                r == Pass
                && rules == JsMap.Delete(old(rules), id)
                && executions == JsMap.Delete(old(executions), id)
                && timers == JsMap.Delete(old(timers), id)
                && cancelled == old(cancelled) + Cancelled(old(timers), id)
      ensures totalTriggers == old(totalTriggers) && intents == old(intents)
    {
      if !JsMap.Has(rules, id) {
        return Fail("Rule " + id + " not found");
      }
      JsMap.DeleteSpec(rules, id);
      JsMap.DeleteSpec(executions, id);
      DeleteKeepsObjects(rules, id);
      rules := JsMap.Delete(rules, id);
      executions := JsMap.Delete(executions, id);
      ClearTimer(id);
      r := Pass;
    }

    /** `updateRule(id, updates)`: copies the properties of `updates` onto the
        stored rule, in place. */
    method UpdateRule(id: string, updates: Value) returns (r: Outcome<string>)
      requires Valid()
      modifies this
      ensures Valid()
      ensures JsMap.Get(old(rules), id).None? ==> r == Fail("Rule " + id + " not found") && rules == old(rules)
      ensures JsMap.Get(old(rules), id).Some? ==>
                r == Pass
                && rules == JsMap.Set(old(rules), id,
                                      Obj(LogService.Assign(JsMap.Get(old(rules), id).value.fields, OwnEntries(updates))))
      ensures totalTriggers == old(totalTriggers) && executions == old(executions) && timers == old(timers)
      ensures intents == old(intents) && cancelled == old(cancelled)
    {
      var found := JsMap.Find(rules, id);
      if found.None? {
        return Fail("Rule " + id + " not found");
      }
      var updated := Obj(LogService.Assign(rules[found.value].1.fields, OwnEntries(updates)));
      JsMap.FindUnique(rules, id, found.value);
      JsMap.ReplaceKeepsUnique(rules, found.value, updated);
      rules := rules[found.value := (id, updated)];
      r := Pass;
    }

    /** `enableRule(id)` and `disableRule(id)`: sets `enabled`; disabling also
        clears the rule's timer. */
    method SetEnabled(id: string, enabled: bool) returns (r: Outcome<string>)
      requires Valid()
      modifies this
      ensures Valid()
      ensures JsMap.Get(old(rules), id).None? ==>
                r == Fail("Rule " + id + " not found") && rules == old(rules)
                && timers == old(timers) && cancelled == old(cancelled)
      ensures JsMap.Get(old(rules), id).Some? ==>
                var fields := JsMap.Get(old(rules), id).value.fields;
                && r == Pass
                && rules == JsMap.Set(old(rules), id, Obj(JsMap.Set(fields, "enabled", Bool(enabled))))
                && (enabled ==> timers == old(timers) && cancelled == old(cancelled))
                && (!enabled ==> timers == JsMap.Delete(old(timers), id) && cancelled == old(cancelled) + Cancelled(old(timers), id))
      ensures totalTriggers == old(totalTriggers) && executions == old(executions) && intents == old(intents)
    {
      var found := JsMap.Find(rules, id);
      if found.None? {
        return Fail("Rule " + id + " not found");
      }
      var updated := Obj(JsMap.Set(rules[found.value].1.fields, "enabled", Bool(enabled)));
      JsMap.FindUnique(rules, id, found.value);
      JsMap.ReplaceKeepsUnique(rules, found.value, updated);
      rules := rules[found.value := (id, updated)];
      if !enabled {
        ClearTimer(id);
      }
      r := Pass;
    }

    /** `clearTimer(id)`: cancels and forgets the rule's timer, if it has one. */
    method ClearTimer(id: string)
      requires JsMap.UniqueKeys(timers)
      modifies this
      ensures JsMap.UniqueKeys(timers)
      ensures timers == JsMap.Delete(old(timers), id) && !JsMap.Has(timers, id)
      ensures cancelled == old(cancelled) + Cancelled(old(timers), id)
      ensures rules == old(rules) && executions == old(executions) && totalTriggers == old(totalTriggers)
      ensures intents == old(intents)
    {
      JsMap.DeleteSpec(timers, id);
      match JsMap.Get(timers, id)
      case Some(handle) =>
        cancelled := cancelled + [handle];
        timers := JsMap.Delete(timers, id);
      case None =>
    }

    /** `getStats()` */
    function GetStats(): (s: Stats)
      reads this
      ensures s.totalRules == |rules| && s.activeRules <= s.totalRules
      ensures s.activeRules == s.totalRules <==> forall i | 0 <= i < |rules| :: Truthy(Get(rules[i].1, "enabled"))
      ensures s.totalTriggers == totalTriggers && s.executions == executions
    {
      Stats(totalTriggers, |rules|, Active(rules), executions)
    }

    /** `executeRule(rule)`: runs the rule's actions in order, recording their
        intents; when all complete, counts the rule. */
    method ExecuteRule(rule: Value) returns (r: Outcome<JsError>)
      requires JsMap.UniqueKeys(executions)
      modifies this
      ensures JsMap.UniqueKeys(executions)
      ensures Tallied() == AfterRule(old(Tallied()), rule)
      ensures rules == old(rules) && timers == old(timers) && cancelled == old(cancelled)
    {
      r := RunRule(rule, ActionIntents);
    }

    /** The body of `executeRule`, `run` giving each action's intents. */
    method RunRule(rule: Value, run: Value -> Result<seq<Intent>, JsError>) returns (r: Outcome<JsError>)
      requires JsMap.UniqueKeys(executions)
      modifies this
      ensures JsMap.UniqueKeys(executions)
      ensures Tallied() == RuleStep(old(Tallied()), rule, run)
      ensures rules == old(rules) && timers == old(timers) && cancelled == old(cancelled)
    {
      var elements := Elements(Get(rule, "actions"));
      if elements.Err? {
        return Fail(elements.error);
      }
      var trace, err := RunActions(elements.value, run);
      intents := intents + trace;
      if err.Some? {
        return Fail(err.value);
      }
      CountExecution(IdKey(rule));
      r := Pass;
    }

    /** A completed rule: one more trigger, and one more execution under `key`
        (`(get(key) || 0) + 1`). */
    method CountExecution(key: string)
      requires JsMap.UniqueKeys(executions)
      modifies this
      ensures JsMap.UniqueKeys(executions)
      ensures totalTriggers == old(totalTriggers) + 1
      ensures executions == JsMap.Set(old(executions), key, JsMap.Get(old(executions), key).GetOr(0) + 1)
      ensures rules == old(rules) && timers == old(timers) && cancelled == old(cancelled) && intents == old(intents)
    {
      var count := JsMap.Get(executions, key).GetOr(0) + 1;
      JsMap.SetSpec(executions, key, count);
      totalTriggers := totalTriggers + 1;
      executions := JsMap.Set(executions, key, count);
    }

    /** `handleGPIOChange(data)`: starts every enabled rule whose conditions
        match the pin change, in table order; conditions that throw end the
        walk, after the rules before them have run. */
    method HandleGpioChange(data: Value) returns (r: Outcome<JsError>)
      requires JsMap.UniqueKeys(executions)
      modifies this
      ensures JsMap.UniqueKeys(executions)
      ensures ActionExecutor.Nullish(data) ==> r.Fail? && Tallied() == old(Tallied())
      ensures !ActionExecutor.Nullish(data) ==>
                var event := PinChange(Get(data, "pin"), Get(data, "value"));
                var (started, err) := Matching(JsMap.Values(old(rules)), Verdict(event));
                && Tallied() == AfterRules(old(Tallied()), started)
                && (r.Fail? <==> err.Some?)
      ensures rules == old(rules) && timers == old(timers) && cancelled == old(cancelled)
    {
      if ActionExecutor.Nullish(data) {
        return Fail(TypeError("cannot destructure data"));
      }
      var event := PinChange(Get(data, "pin"), Get(data, "value"));
      r := RunMatching(JsMap.Values(rules), Verdict(event));
    }

    /** The walk of `handleGPIOChange` over the rule table, `verdict` deciding
        which rules start. */
    method RunMatching(table: seq<Value>, verdict: Value -> Result<bool, JsError>) returns (r: Outcome<JsError>)
      requires JsMap.UniqueKeys(executions)
      modifies this
      ensures JsMap.UniqueKeys(executions)
      ensures var (started, err) := Matching(table, verdict);
              Tallied() == AfterRules(old(Tallied()), started) && (r.Fail? <==> err.Some?)
      ensures rules == old(rules) && timers == old(timers) && cancelled == old(cancelled)
    {
      var i := 0;
      while i < |table|
        invariant 0 <= i <= |table|
        invariant Matching(table[..i], verdict).1.None?
        invariant JsMap.UniqueKeys(executions)
        invariant Tallied() == AfterRules(old(Tallied()), Matching(table[..i], verdict).0)
        invariant rules == old(rules) && timers == old(timers) && cancelled == old(cancelled)
      {
        var rule := table[i];
        assert table[..i + 1][..i] == table[..i];
        var check := verdict(rule);
        if check.Err? {
          MatchingStops(table, verdict, i + 1);
          return Fail(check.error);
        }
        if check.value {
          ghost var before := Matching(table[..i], verdict).0;
          assert (before + [rule])[..|before|] == before;
          var _ := ExecuteRule(rule);
        }
        i := i + 1;
      }
      assert table[..i] == table;
      r := Pass;
    }

    /** `triggerEvent(event, data)`: a `gpio_change` is handled as a pin
        change; any other event does nothing. */
    method TriggerEvent(event: Value, data: Value) returns (r: Outcome<JsError>)
      requires JsMap.UniqueKeys(executions)
      modifies this
      ensures JsMap.UniqueKeys(executions)
      ensures !StrictEq(event, Str("gpio_change")) ==> r == Pass && Tallied() == old(Tallied())
      ensures StrictEq(event, Str("gpio_change")) && ActionExecutor.Nullish(data) ==>
                r.Fail? && Tallied() == old(Tallied())
      ensures StrictEq(event, Str("gpio_change")) && !ActionExecutor.Nullish(data) ==>
                var (started, err) := Matching(JsMap.Values(old(rules)), Verdict(PinChange(Get(data, "pin"), Get(data, "value"))));
                Tallied() == AfterRules(old(Tallied()), started) && (r.Fail? <==> err.Some?)
      ensures rules == old(rules) && timers == old(timers) && cancelled == old(cancelled)
    {
      r := Pass;
      if StrictEq(event, Str("gpio_change")) {
        r := HandleGpioChange(data);
      }
    }
  }

  /** The handle `clearTimer(id)` cancels, if the rule has a timer. */
  function Cancelled(timers: seq<(string, int)>, id: string): seq<int> {
    match JsMap.Get(timers, id)
    case Some(handle) => [handle]
    case None => []
  }

  /** The property found at the first position holding its key. */
  lemma {:induction false} LookupAt(fields: seq<(string, Value)>, key: string, i: nat)
    requires i < |fields| && fields[i].0 == key
    requires forall j | 0 <= j < i :: fields[j].0 != key
    ensures Lookup(fields, key) == fields[i].1
    decreases i
  {
    if i > 0 {
      LookupAt(fields[1..], key, i - 1);
    }
  }

  lemma SetKeepsObjects(m: seq<(string, Value)>, k: string, v: Value)
    requires v.Obj? && forall i | 0 <= i < |m| :: m[i].1.Obj?
    ensures var s := JsMap.Set(m, k, v); forall i | 0 <= i < |s| :: s[i].1.Obj?
  {
  }

  lemma DeleteKeepsObjects(m: seq<(string, Value)>, k: string)
    requires forall i | 0 <= i < |m| :: m[i].1.Obj?
    ensures var d := JsMap.Delete(m, k); forall i | 0 <= i < |d| :: d[i].1.Obj?
  {
    match JsMap.Find(m, k)
    case Some(i) => JsMap.RemoveAt(m, i);
    case None =>
  }
}
