# GPIO access-control automation and Wiegand encoding, modelled in Dafny

This project models the backend core of a Raspberry Pi door-access emulator. It has four parts.

- **Automation stack.** A rule engine (`RuleEngine.js`), an event bus (`EventBus.js`) and an action executor (`ActionExecutor.js`). Above them sits the automation manager (`AutomationManager.js`). The manager is the component wired to GPIO pin changes: it keeps a table of rules, checks their conditions against pin changes and weekday/time schedules, and runs their actions. Those actions are recorded as a trace of GPIO write and wait intents.
- **Wiegand frame encoder, written twice.** The JavaScript library `lib/wiegandBits.js` and the C transmitter `native/wiegand_tx.c`. Both parse raw hex or binary bits, compose MSB-first facility and card fields from a format table, add none / whole / standard parity, and (in C) pick the D0 or D1 line for every bit.
- **Bounded log** (`LogService.js`): a first-in first-out buffer of timestamped entries.
- **Pin registry** (`pinRegistry.js`): the set of GPIO pins reserved by doors, and door lookups.

JavaScript values are modelled by one datatype, `JsValue.Value` (undefined, null, booleans, integer numbers, strings, arrays and objects with ordered properties). On top of it sit:

- truthiness and `===`;
- property reads (including `length` and array indices);
- `split`, `trim`, `String(x)` and `Number(x)` (decimal integers only; see "## Left out").

A thrown exception is the `Err` side of a `Result`. A JS `Map` or `Set` is a sequence with unique keys, in insertion order (`JsMap`). `Array.prototype.sort` with a priority comparator is a stable descending insertion sort (`StableSort`).

Objects whose fields the source updates in place are classes:

- `RuleEngine.Engine`;
- `EventBus.Bus`;
- `ActionExecutor.Executor`;
- `AutomationManager.Manager`;
- `LogService.Log`;
- `PinRegistry.Registry`.

Each of their methods states the whole new state. The C encoder works on `array<Bit>` buffers, as the source does on `uint8_t` arrays. Each such method is proved against a function on sequences (`Framed`, `RawBits`, `Fields`, `Frame`). Lemmas then state what the source promises about those functions.

External effects are parameters or trace entries:

- **Event handlers** are represented by a success/failure oracle `ok: Listener -> bool`.
- **GPIO emissions and timers** are `Effect` entries (ActionExecutor) or `Intent` entries (AutomationManager).
- **Ids, the clock, the weekday, the hour and the minute** are arguments.
- **Transmitted pulses** are a sequence of `Pulse` records.

## Model

| member | source | states |
|---|---|---|
| JsValue.Split | Aether_GPIO_Test_Ready_v2/backend/automation/AutomationManager.js:195 | `split(':')` gives at least one part, no part holds the separator, and joining the parts with it gives back the string |
| JsValue.Trim | Aether_GPIO_Test_Ready_v2/backend/automation/ActionExecutor.js:141 | `trim()` returns a slice of the string: what it drops at either end is JavaScript white space, and what it keeps neither starts nor ends with white space |
| JsValue.WalkStopsAtMissing | Aether_GPIO_Test_Ready_v2/backend/automation/RuleEngine.js:139-141 | once the `?.` chain of `getNestedValue` reaches undefined, every longer path is undefined too |
| JsValue.GetNestedDotFree | Aether_GPIO_Test_Ready_v2/backend/automation/RuleEngine.js:139-141 | a path without a dot is a single property lookup |
| JsValue.GetNestedMissingHead | Aether_GPIO_Test_Ready_v2/backend/automation/RuleEngine.js:139-141 | a path whose first key is missing yields undefined, whatever follows |
| JsValue.GetNested | Aether_GPIO_Test_Ready_v2/backend/automation/RuleEngine.js:139-141 | reading any path from undefined or null gives undefined instead of throwing (`?.`); `ActionExecutor.js:168-170` is an identical copy and is modelled by the same function |
| JsMap.SetSpec | Aether_GPIO_Test_Ready_v2/backend/automation/RuleEngine.js:21 | `Map.set` keeps keys unique, makes the key read as the new value, leaves every other key alone and grows the map only for a new key |
| JsMap.DeleteSpec | Aether_GPIO_Test_Ready_v2/backend/automation/RuleEngine.js:35 | `Map.delete` removes exactly that key, keeps the others and shrinks the map only when the key was present |
| JsMap.SetTwice | Aether_GPIO_Test_Ready_v2/backend/automation/AutomationManager.js:83 | setting a key twice is the same as setting it once to the last value (an existing rule id is overwritten) |
| JsMap.DeleteAfterSet | Aether_GPIO_Test_Ready_v2/backend/automation/AutomationManager.js:96 | deleting a present key after overwriting it gives the same map as deleting it directly |
| StableSort.SortDesc | Aether_GPIO_Test_Ready_v2/backend/automation/EventBus.js:41 | the sorted list is in non-increasing key order and a permutation of the input, and items of equal key keep their input order |
| StableSort.SortedDescUnique | Aether_GPIO_Test_Ready_v2/backend/automation/RuleEngine.js:88 | a stable descending sort has exactly one possible result: two sorted lists with the same items per key, in the same order, are equal |
| StableSort.AppendThenSort | Aether_GPIO_Test_Ready_v2/backend/automation/EventBus.js:38-41 | pushing an item and re-sorting a list places the item after every item of equal key |
| RuleEngine.CompareValues | Aether_GPIO_Test_Ready_v2/backend/automation/RuleEngine.js:144-161 | identical values match, and against a non-object expected value the result is exactly `actual === expected` |
| RuleEngine.FirstPresentCases | Aether_GPIO_Test_Ready_v2/backend/automation/RuleEngine.js:150-157 | the operator chosen is the first defined one in the order `$eq, $ne, $gt, $gte, $lt, $lte, $in, $nin` |
| RuleEngine.CompareByFirstOperator | Aether_GPIO_Test_Ready_v2/backend/automation/RuleEngine.js:146-160 | an operator object is decided by its first defined operator alone, and one with no recognised operator gives false |
| RuleEngine.OnlyFirstOperatorDecides | Aether_GPIO_Test_Ready_v2/backend/automation/RuleEngine.js:150-157 | two operator objects with the same first operator and operand compare every value alike, whatever their later operators |
| RuleEngine.ArrayNeverMatches | Aether_GPIO_Test_Ready_v2/backend/automation/RuleEngine.js:146-160 | an array as expected value has no operator and matches nothing (arrays are never `===`) |
| RuleEngine.EmptyGroups | Aether_GPIO_Test_Ready_v2/backend/automation/RuleEngine.js:93-111 | for every event, missing conditions are false, `{all: []}` is true and `{any: []}` is false |
| RuleEngine.AllHoldsIffEvery | Aether_GPIO_Test_Ready_v2/backend/automation/RuleEngine.js:96-102 | `all` is true iff every item, evaluated as a leaf, is true |
| RuleEngine.AnyHoldsIffSome | Aether_GPIO_Test_Ready_v2/backend/automation/RuleEngine.js:105-111 | when no item throws, `any` is true iff some item is true, and it never throws |
| RuleEngine.AllTakesPrecedence | Aether_GPIO_Test_Ready_v2/backend/automation/RuleEngine.js:96-111 | with a truthy `all`, the verdict depends on `all` only, whatever `any` holds |
| RuleEngine.LeafSemantics | Aether_GPIO_Test_Ready_v2/backend/automation/RuleEngine.js:118-136 | when no comparison throws, a leaf holds iff its event-name guard passes and every non-`event` key's dot-path value in `event.data` passes `compareValues` |
| RuleEngine.MatchFieldsIffEvery | Aether_GPIO_Test_Ready_v2/backend/automation/RuleEngine.js:125-135 | the field loop is true iff every non-`event` entry compares true |
| RuleEngine.NestedGroupIsLeaf | Aether_GPIO_Test_Ready_v2/backend/automation/RuleEngine.js:97-98 | a group nested as an item is evaluated as a leaf: `{any: [...]}` compares a data field named `any` against an array, so it never holds |
| RuleEngine.NewRule | Aether_GPIO_Test_Ready_v2/backend/automation/RuleEngine.js:21-30 | the stored rule is enabled unless `enabled` is literally false, has priority 0 when none is given, and has zeroed statistics |
| RuleEngine.MatchingMembers | Aether_GPIO_Test_Ready_v2/backend/automation/RuleEngine.js:73-85 | a rule is collected iff it is in the table, enabled, and its conditions evaluate to true without throwing |
| RuleEngine.EvaluateEventResult | Aether_GPIO_Test_Ready_v2/backend/automation/RuleEngine.js:70-89 | the result holds exactly the enabled rules that hold, in non-increasing priority, with ties in table order |
| RuleEngine.EvaluateEventOrderUnique | Aether_GPIO_Test_Ready_v2/backend/automation/RuleEngine.js:88 | any priority-sorted list with the same rules per priority, in table order, is the result |
| RuleEngine.SumsAppend | Aether_GPIO_Test_Ready_v2/backend/automation/RuleEngine.js:176-184 | the enabled count and the execution and error sums grow by exactly one rule's share when a rule is added |
| RuleEngine.Engine.constructor | Aether_GPIO_Test_Ready_v2/backend/automation/RuleEngine.js:5-7 | the table starts empty |
| RuleEngine.Engine.GetRules | Aether_GPIO_Test_Ready_v2/backend/automation/RuleEngine.js:60-62 | the rules in insertion order |
| RuleEngine.Engine.GetRule | Aether_GPIO_Test_Ready_v2/backend/automation/RuleEngine.js:65-67 | a rule is returned iff the id is present, and it is the one stored under that id |
| RuleEngine.Engine.AddRule | Aether_GPIO_Test_Ready_v2/backend/automation/RuleEngine.js:10-31 | a missing id, conditions or actions fails with that message and leaves the table unchanged; otherwise the new rule is set under its id |
| RuleEngine.Engine.RemoveRule | Aether_GPIO_Test_Ready_v2/backend/automation/RuleEngine.js:34-36 | returns whether the id was present and deletes exactly that entry |
| RuleEngine.Engine.UpdateRule | Aether_GPIO_Test_Ready_v2/backend/automation/RuleEngine.js:39-48 | an unknown id fails with `Rule <id> not found` and changes nothing; otherwise the merged rule replaces the old one in place and is returned |
| RuleEngine.Engine.SetRuleEnabled | Aether_GPIO_Test_Ready_v2/backend/automation/RuleEngine.js:51-57 | an unknown id fails and changes nothing; otherwise only that rule's `enabled` changes |
| RuleEngine.Engine.EvaluateEvent | Aether_GPIO_Test_Ready_v2/backend/automation/RuleEngine.js:70-89 | returns the stably priority-sorted matching rules; the only change to the table is +1 on the errors counter of each enabled rule whose evaluation throws |
| RuleEngine.Engine.UpdateRuleStats | Aether_GPIO_Test_Ready_v2/backend/automation/RuleEngine.js:164-173 | an unknown id changes nothing; otherwise executions +1, the time recorded, errors +1 exactly on failure |
| RuleEngine.Engine.GetStats | Aether_GPIO_Test_Ready_v2/backend/automation/RuleEngine.js:176-184 | the rule count, the enabled count and the execution and error sums over the table |
| RuleEngine.EvaluateConditions | Aether_GPIO_Test_Ready_v2/backend/automation/RuleEngine.js:92-115 | falsy conditions never match; a match or a thrown error needs conditions that are truthy |
| EventBus.Subscribe | Aether_GPIO_Test_Ready_v2/backend/automation/EventBus.js:17-44 | `on` adds at most one list entry, and the lists of every other pattern are unchanged |
| EventBus.Unsubscribe | Aether_GPIO_Test_Ready_v2/backend/automation/EventBus.js:52-65 | `off` never grows the table; when it returns false the table is unchanged, and when it returns true the pattern was registered |
| EventBus.SubscribeSpec | Aether_GPIO_Test_Ready_v2/backend/automation/EventBus.js:33-41 | `on` keeps each list sorted and the table well formed, adds exactly the new listener after the equal-priority ones, leaves other patterns alone and adds one listener |
| EventBus.IndexOfId | Aether_GPIO_Test_Ready_v2/backend/automation/EventBus.js:56 | `findIndex` finds the first listener with that id, or none when no listener has it |
| EventBus.UnsubscribeSpec | Aether_GPIO_Test_Ready_v2/backend/automation/EventBus.js:52-65 | `off` returns true iff the pattern has a listener with the id; it then removes exactly the first such listener, deletes the pattern when its list empties and counts one listener fewer; otherwise nothing changes |
| EventBus.Recorded | Aether_GPIO_Test_Ready_v2/backend/automation/EventBus.js:79-82 | the new event is first, the older ones follow in order, and the history never exceeds 1000 events, dropping the oldest |
| EventBus.Kept | Aether_GPIO_Test_Ready_v2/backend/automation/EventBus.js:92-102 | the listeners left after an emit are exactly those that are not a once-listener whose handler succeeded |
| EventBus.RemoveOnceDone | Aether_GPIO_Test_Ready_v2/backend/automation/EventBus.js:92-102 | removing the collected ids one by one leaves exactly the kept listeners, in order |
| EventBus.EmitRemovesCompletedOnce | Aether_GPIO_Test_Ready_v2/backend/automation/EventBus.js:101-102 | the `off` calls after dispatch install exactly the kept listeners under the event name |
| EventBus.OffAllSpec | Aether_GPIO_Test_Ready_v2/backend/automation/EventBus.js:102 | a run of `off` calls on one present pattern removes those ids from its list and touches nothing else |
| EventBus.ListenersAtLeastNames | Aether_GPIO_Test_Ready_v2/backend/automation/EventBus.js:114-115 | since no list is empty, `activeListeners` is at least `eventTypes` |
| EventBus.Bus.constructor | Aether_GPIO_Test_Ready_v2/backend/automation/EventBus.js:5-14 | no listeners, no history, zero counters |
| EventBus.Bus.On | Aether_GPIO_Test_Ready_v2/backend/automation/EventBus.js:17-44 | returns the id; the table becomes `Subscribe` of the old one; history and counters are unchanged |
| EventBus.Bus.Once | Aether_GPIO_Test_Ready_v2/backend/automation/EventBus.js:47-49 | `on` with `once` set |
| EventBus.Bus.Off | Aether_GPIO_Test_Ready_v2/backend/automation/EventBus.js:52-65 | result and new table are `Unsubscribe` of the old table; history and counters are unchanged |
| EventBus.Bus.Emit | Aether_GPIO_Test_Ready_v2/backend/automation/EventBus.js:68-103 | `eventsEmitted` +1; the event is recorded newest first; `eventsProcessed` grows by the successes and `errors` by the failures, one per listener of the exact name; successful once-listeners are removed |
| EventBus.Bus.Dispatch | Aether_GPIO_Test_Ready_v2/backend/automation/EventBus.js:84-99 | every listener is called in list order, a failure does not skip later ones, and the ids of successful once-listeners are collected in order |
| EventBus.Bus.OffEach | Aether_GPIO_Test_Ready_v2/backend/automation/EventBus.js:102 | `toRemove.forEach(off)` |
| EventBus.Bus.GetHistory | Aether_GPIO_Test_Ready_v2/backend/automation/EventBus.js:106-108 | the newest `min(limit, length)` events, newest first (`slice(0, limit)`, a negative limit counting from the end) |
| EventBus.Bus.GetStats | Aether_GPIO_Test_Ready_v2/backend/automation/EventBus.js:111-117 | the counters, `activeListeners` the sum of list lengths and `eventTypes` the number of patterns |
| EventBus.Bus.Clear | Aether_GPIO_Test_Ready_v2/backend/automation/EventBus.js:120-122 | empties the listeners and keeps history and counters |
| ActionExecutor.TokenAtMatches | Aether_GPIO_Test_Ready_v2/backend/automation/ActionExecutor.js:140 | a token is found at the start of the text iff it has the form `{{p}}` with `p` non-empty and free of `}` |
| ActionExecutor.TokenReplaced | Aether_GPIO_Test_Ready_v2/backend/automation/ActionExecutor.js:139-144 | a token is replaced by the string of the value at its trimmed path, or kept verbatim when that is undefined, and the text after it is processed without re-scanning the replacement |
| ActionExecutor.NoTokenUnchanged | Aether_GPIO_Test_Ready_v2/backend/automation/ActionExecutor.js:139-144 | text without `{{` is returned unchanged |
| ActionExecutor.EmptyContextUnchanged | Aether_GPIO_Test_Ready_v2/backend/automation/ActionExecutor.js:139-144 | with the default empty context every string is returned unchanged |
| ActionExecutor.Interpolate | Aether_GPIO_Test_Ready_v2/backend/automation/ActionExecutor.js:139-144 | a string with no `{` is returned as it is |
| ActionExecutor.InterpolateObject | Aether_GPIO_Test_Ready_v2/backend/automation/ActionExecutor.js:147-165 | with the empty context, interpolating any value gives back the same value |
| ActionExecutor.ShapePreserved | Aether_GPIO_Test_Ready_v2/backend/automation/ActionExecutor.js:147-165 | interpolation keeps the value's shape at every depth (`SameShape`): strings stay strings, arrays keep their length, objects keep their keys in order, and other values are returned as they are |
| ActionExecutor.Execute | Aether_GPIO_Test_Ready_v2/backend/automation/ActionExecutor.js:33-55 | a failing action emits nothing, and no action emits more than two events |
| ActionExecutor.DispatchErrors | Aether_GPIO_Test_Ready_v2/backend/automation/ActionExecutor.js:36-53 | an unknown type fails with `Unknown action type: <type>`; a known type without params throws a TypeError |
| ActionExecutor.GpioSpec | Aether_GPIO_Test_Ready_v2/backend/automation/ActionExecutor.js:58-79 | fails iff pin or value is undefined; otherwise emits one `{pin, value, duration}` event and schedules one reverting event exactly when duration is positive |
| ActionExecutor.InverseFlips | Aether_GPIO_Test_Ready_v2/backend/automation/ActionExecutor.js:76 | the revert level of 0 is 1 and of 1 is 0, and reverting twice gives the level back |
| ActionExecutor.DelaySpec | Aether_GPIO_Test_Ready_v2/backend/automation/ActionExecutor.js:82-91 | a numeric delay succeeds iff `ms` is positive, waiting `ms`; otherwise it fails with the positive-ms message |
| ActionExecutor.LogSpec | Aether_GPIO_Test_Ready_v2/backend/automation/ActionExecutor.js:94-105 | a falsy message fails; for a string message and level, the result is the level (default `info`) and the interpolated message, with nothing emitted |
| ActionExecutor.EmitSpec | Aether_GPIO_Test_Ready_v2/backend/automation/ActionExecutor.js:108-120 | succeeds iff the event name is truthy, then emits exactly that event with the interpolated data (default `{}`) |
| ActionExecutor.HttpSpec | Aether_GPIO_Test_Ready_v2/backend/automation/ActionExecutor.js:123-136 | a falsy url fails; for a string url, the result is the interpolated url, the method (default `GET`) and the body as given, with nothing emitted |
| ActionExecutor.Record | Aether_GPIO_Test_Ready_v2/backend/automation/ActionExecutor.js:17-24 | a result records success iff the action did not throw, and carries the action's `type` |
| ActionExecutor.Reached | Aether_GPIO_Test_Ready_v2/backend/automation/ActionExecutor.js:17-24 | the number of actions before the first `null`/`undefined` one, whose `type` read in the catch block throws out of the loop |
| ActionExecutor.RunEntries | Aether_GPIO_Test_Ready_v2/backend/automation/ActionExecutor.js:14-30 | one result per action, in order; each succeeds iff that action did not throw, and carries its result or its error |
| ActionExecutor.Executor.constructor | Aether_GPIO_Test_Ready_v2/backend/automation/ActionExecutor.js:5-11 | zero counters, nothing emitted |
| ActionExecutor.Executor.ExecuteAction | Aether_GPIO_Test_Ready_v2/backend/automation/ActionExecutor.js:33-55 | the handler's outcome, with its emitted events appended to the trace |
| ActionExecutor.Executor.ExecuteActions | Aether_GPIO_Test_Ready_v2/backend/automation/ActionExecutor.js:14-30 | one result per action in order; `actionsExecuted` grows by the successes and `errors` by the failures among the actions run; the first nullish action ends the call with a TypeError, keeping the counts and effects of the actions before it |
| ActionExecutor.Executor.RunUntilNullish | Aether_GPIO_Test_Ready_v2/backend/automation/ActionExecutor.js:17-27 | the loop runs up to the first nullish action, recording each result and counting successes and failures |
| ActionExecutor.Executor.RunOne | Aether_GPIO_Test_Ready_v2/backend/automation/ActionExecutor.js:18-26 | one turn of the loop: one more result, and one of the two counters goes up by one |
| ActionExecutor.Executor.GetStats | Aether_GPIO_Test_Ready_v2/backend/automation/ActionExecutor.js:173-175 | a copy of the counters |
| AutomationManager.CheckConditions | Aether_GPIO_Test_Ready_v2/backend/automation/AutomationManager.js:202-230 | a non-match needs a truthy `all` or `any`; an error (a list that is not an array) needs truthy conditions |
| AutomationManager.EverySpec | Aether_GPIO_Test_Ready_v2/backend/automation/AutomationManager.js:206-214 | without nullish items, `all` holds iff every leaf holds |
| AutomationManager.SomeSpec | Aether_GPIO_Test_Ready_v2/backend/automation/AutomationManager.js:218-226 | without nullish items, `any` holds iff some leaf holds |
| AutomationManager.UnconditionalMatches | Aether_GPIO_Test_Ready_v2/backend/automation/AutomationManager.js:202-203 | missing conditions, or conditions with neither `all` nor `any` (a schedule-only rule), match every pin change |
| AutomationManager.EmptyListsAndPrecedence | Aether_GPIO_Test_Ready_v2/backend/automation/AutomationManager.js:206-227 | `{all: []}` holds, `{any: []}` does not, and with both keys only `all` is consulted |
| AutomationManager.OtherEventLeaf | Aether_GPIO_Test_Ready_v2/backend/automation/AutomationManager.js:208-213 | a leaf for any event other than `gpio_change` counts as true |
| AutomationManager.PinChangeLeaf | Aether_GPIO_Test_Ready_v2/backend/automation/AutomationManager.js:208-212 | a `gpio_change` leaf holds for a pin change iff the pins are `===` and the leaf value is undefined or `===` the new value |
| AutomationManager.TwoDigitsNumber | Aether_GPIO_Test_Ready_v2/backend/automation/AutomationManager.js:195 | `Number` of a two-digit field gives its value |
| AutomationManager.ClockParts | Aether_GPIO_Test_Ready_v2/backend/automation/AutomationManager.js:195 | `"HH:MM".split(':')` gives the two fields |
| AutomationManager.ShouldTrigger | Aether_GPIO_Test_Ready_v2/backend/automation/AutomationManager.js:186-200 | a schedule fires only if its `time` is a string naming the current hour and minute, and, when `days` is non-empty, the list includes the weekday |
| AutomationManager.ClockAt | Aether_GPIO_Test_Ready_v2/backend/automation/AutomationManager.js:195-196 | the time `HH:MM` matches exactly the hour `HH` and the minute `MM` |
| AutomationManager.ClockFires | Aether_GPIO_Test_Ready_v2/backend/automation/AutomationManager.js:186-200 | with time `HH:MM` and the weekday allowed, the schedule fires iff hour and minute are exactly `HH` and `MM` (so `08:00` does not fire at 08:01) |
| AutomationManager.OtherDayNeverFires | Aether_GPIO_Test_Ready_v2/backend/automation/AutomationManager.js:189-192 | a non-empty `days` list without the weekday never fires (so Mon-Fri does not fire on Saturday) |
| AutomationManager.NoTimeNeverFires | Aether_GPIO_Test_Ready_v2/backend/automation/AutomationManager.js:194-199 | a schedule without `time` never fires |
| AutomationManager.ActionIntents | Aether_GPIO_Test_Ready_v2/backend/automation/AutomationManager.js:250-302 | an action records at most three steps; it records some only for a known type (`log`, `gpio`, `gpio_set`, `gpio_pulse`, `delay`); it throws only for a nullish action or a known type |
| AutomationManager.GpioIntents | Aether_GPIO_Test_Ready_v2/backend/automation/AutomationManager.js:260-274 | `gpio` writes its value, and with a truthy duration then waits that long and writes the other level |
| AutomationManager.PulseAndSetIntents | Aether_GPIO_Test_Ready_v2/backend/automation/AutomationManager.js:276-293 | `gpio_pulse` writes 1, waits (300 ms by default) and writes 0; `gpio_set` writes once |
| AutomationManager.UnknownKindIsIgnored | Aether_GPIO_Test_Ready_v2/backend/automation/AutomationManager.js:299-300 | an unknown action type records nothing and does not throw |
| AutomationManager.PerformedAll | Aether_GPIO_Test_Ready_v2/backend/automation/AutomationManager.js:236-238 | when no action throws, the rule's trace is each action's intents, in action order |
| AutomationManager.PerformedStops | Aether_GPIO_Test_Ready_v2/backend/automation/AutomationManager.js:236-238 | the first action that throws ends the rule: later actions record nothing |
| AutomationManager.RunActions | Aether_GPIO_Test_Ready_v2/backend/automation/AutomationManager.js:236-238 | the action loop yields the trace and error of `Performed` |
| AutomationManager.RuleCounted | Aether_GPIO_Test_Ready_v2/backend/automation/AutomationManager.js:232-248 | a rule whose actions all complete adds 1 to `totalTriggers` and 1 to its own count (from 0 when absent); a rule that throws changes no counter; other rules' counts are untouched |
| AutomationManager.FiringAppend | Aether_GPIO_Test_Ready_v2/backend/automation/AutomationManager.js:157-165 | the rules that fire in a table, read from the front, gain one more rule at the end exactly when that rule fires |
| AutomationManager.FiringMembers | Aether_GPIO_Test_Ready_v2/backend/automation/AutomationManager.js:157-165 | a rule is among the firing ones iff it is in the table and fires; there are never more of them than rules |
| AutomationManager.MatchingIsFiring | Aether_GPIO_Test_Ready_v2/backend/automation/AutomationManager.js:157-165 | without a thrown error, the back-to-front definition of the `forEach` starts exactly the rules that fire, read from the front |
| AutomationManager.MatchingSpec | Aether_GPIO_Test_Ready_v2/backend/automation/AutomationManager.js:157-165 | when no condition check throws, the rules started are exactly the enabled rules whose conditions hold, each as often as it occurs and in table order (`Firing`, read from the front) |
| AutomationManager.MatchingCompletes | Aether_GPIO_Test_Ready_v2/backend/automation/AutomationManager.js:157-165 | when no enabled rule's conditions throw, the whole table is visited |
| AutomationManager.MatchingStops | Aether_GPIO_Test_Ready_v2/backend/automation/AutomationManager.js:157-165 | a condition check that throws ends `forEach`: no later rule is started |
| AutomationManager.RuleObjectFields | Aether_GPIO_Test_Ready_v2/backend/automation/AutomationManager.js:72-81 | the new rule object reads back each of its eight properties |
| AutomationManager.NewRuleDefaults | Aether_GPIO_Test_Ready_v2/backend/automation/AutomationManager.js:71-81 | defaults: name `Unnamed Rule`, description `''`, enabled unless literally false, priority 100 when absent or 0, conditions `{all: []}`, actions `[]` |
| AutomationManager.Active | Aether_GPIO_Test_Ready_v2/backend/automation/AutomationManager.js:146 | the active count is at most the rule count, and equal to it iff every rule is enabled |
| AutomationManager.Manager.constructor | Aether_GPIO_Test_Ready_v2/backend/automation/AutomationManager.js:6-13 | empty rule, counter and timer tables and zero triggers |
| AutomationManager.Manager.AddRule | Aether_GPIO_Test_Ready_v2/backend/automation/AutomationManager.js:70-89 | sets the defaulted rule under its id (given, or the fresh one), overwriting an existing one, sets its count to 0 and returns the id; a nullish input throws and changes nothing |
| AutomationManager.Manager.RemoveRule | Aether_GPIO_Test_Ready_v2/backend/automation/AutomationManager.js:91-102 | an unknown id fails with `Rule <id> not found` and changes nothing; otherwise deletes the rule, its counter and its timer, cancelling that timer |
| AutomationManager.Manager.UpdateRule | Aether_GPIO_Test_Ready_v2/backend/automation/AutomationManager.js:104-113 | an unknown id fails and changes nothing; otherwise the update's properties are assigned onto the rule in place |
| AutomationManager.Manager.SetEnabled | Aether_GPIO_Test_Ready_v2/backend/automation/AutomationManager.js:115-136 | `enableRule`/`disableRule`: an unknown id fails and changes nothing; otherwise `enabled` is set, and disabling also clears the rule's timer |
| AutomationManager.Manager.ClearTimer | Aether_GPIO_Test_Ready_v2/backend/automation/AutomationManager.js:304-309 | the timer entry is gone afterwards, and a present timer is cancelled |
| AutomationManager.Manager.GetStats | Aether_GPIO_Test_Ready_v2/backend/automation/AutomationManager.js:142-149 | the trigger total, the rule count, the active count (all rules active iff all enabled) and the per-rule counts |
| AutomationManager.Manager.ExecuteRule | Aether_GPIO_Test_Ready_v2/backend/automation/AutomationManager.js:232-248 | the trace and counters advance as `AfterRule` says; rules and timers are unchanged |
| AutomationManager.Manager.RunRule | Aether_GPIO_Test_Ready_v2/backend/automation/AutomationManager.js:236-245 | the action loop, then the counting, as `RuleStep` says |
| AutomationManager.Manager.CountExecution | Aether_GPIO_Test_Ready_v2/backend/automation/AutomationManager.js:241-245 | `totalTriggers` +1 and the rule's count +1, starting from 0 |
| AutomationManager.Manager.HandleGpioChange | Aether_GPIO_Test_Ready_v2/backend/automation/AutomationManager.js:151-170 | runs, in table order, exactly the rules that `Matching` starts for the pin change; a nullish argument throws before any rule runs |
| AutomationManager.Manager.RunMatching | Aether_GPIO_Test_Ready_v2/backend/automation/AutomationManager.js:157-165 | the `forEach` over the rules: each matching rule is executed as it is found |
| AutomationManager.Manager.TriggerEvent | Aether_GPIO_Test_Ready_v2/backend/automation/AutomationManager.js:311-316 | `gpio_change` is handled as a pin change, and with nullish data it throws before any rule runs; any other event changes nothing |
| LogService.AssignSpec | Aether_GPIO_Test_Ready_v2/backend/automation/LogService.js:8 | after spreading an entry's properties, each key reads as its last assigned value or as before, keys stay unique and `ts` stays first |
| LogService.StampSpec | Aether_GPIO_Test_Ready_v2/backend/automation/LogService.js:8 | the stored entry is an object that, when the entry has no array-index key, starts with `ts`; `ts` is the push time unless the entry brings its own `ts`; every other property is the entry's |
| LogService.Appended | Aether_GPIO_Test_Ready_v2/backend/automation/LogService.js:8-9 | the entry goes last, and on overflow exactly the oldest entry goes |
| LogService.Pushed | Aether_GPIO_Test_Ready_v2/backend/automation/LogService.js:7-10 | the buffer never holds more than the size |
| LogService.PushesKeepNewest | Aether_GPIO_Test_Ready_v2/backend/automation/LogService.js:7-10 | after any run of pushes the buffer is the last `min(n, size)` entries, in order and unchanged |
| LogService.Log.constructor | Aether_GPIO_Test_Ready_v2/backend/automation/LogService.js:3-6 | an empty buffer of the given size |
| LogService.Log.Push | Aether_GPIO_Test_Ready_v2/backend/automation/LogService.js:7-10 | the buffer becomes `Appended` of the stamped entry and stays within the size |
| LogService.Log.All | Aether_GPIO_Test_Ready_v2/backend/automation/LogService.js:11-13 | the last `min(size, length)` entries in insertion order |
| PinRegistry.AddToSet | Aether_GPIO_Test_Ready_v2/backend/lib/pinRegistry.js:12-13 | `Set.add` adds the value once and keeps every other member |
| PinRegistry.Load | Aether_GPIO_Test_Ready_v2/backend/lib/pinRegistry.js:5-15 | construction succeeds iff the configuration is not nullish, its `doors` (default `[]`) can be iterated and none of them is nullish; the chip defaults to `gpiochip0`, and the reserved set holds each of the doors' `Number(d0)` and `Number(d1)` exactly once |
| PinRegistry.ReservedStep | Aether_GPIO_Test_Ready_v2/backend/lib/pinRegistry.js:11-14 | one turn of the constructor loop adds exactly that door's two pins |
| PinRegistry.Registry.IsReserved | Aether_GPIO_Test_Ready_v2/backend/lib/pinRegistry.js:16 | true iff some door's `Number(d0)` or `Number(d1)` is `Number(pin)` |
| PinRegistry.Registry.GetDoorByPin | Aether_GPIO_Test_Ready_v2/backend/lib/pinRegistry.js:17-20 | fails iff `doors` is not an array; otherwise the first door in config order whose d0 or d1 is `===` to `Number(pin)`, or null when none; a door found means the pin is reserved |
| PinRegistry.Registry.GetDoor | Aether_GPIO_Test_Ready_v2/backend/lib/pinRegistry.js:21-23 | the first door whose `Number(door)` equals `Number(door)` of the argument, or null when none |
| PinRegistry.Registry.ListReserved | Aether_GPIO_Test_Ready_v2/backend/lib/pinRegistry.js:24 | holds exactly the reserved numeric pins, and is strictly ascending when no configured pin is `NaN` |
| PinRegistry.SortedAscending | Aether_GPIO_Test_Ready_v2/backend/lib/pinRegistry.js:24 | sorting distinct pins with `(a,b)=>a-b` gives a strictly ascending list of the same pins |
| PinRegistry.NumericPinsAgree | Aether_GPIO_Test_Ready_v2/backend/lib/pinRegistry.js:16-20 | when every door's pins are numbers, reserved iff some door has the pin |
| PinRegistry.StringPinReservedButNotFound | Aether_GPIO_Test_Ready_v2/backend/lib/pinRegistry.js:12-20 | a pin written as a string in the config is reserved (via `Number`) but not found by `getDoorByPin` (which uses `===`) |
| WiegandFrame.Widths | Aether_GPIO_Test_Ready_v2/backend/lib/wiegandBits.js:21-28 | the format table is defined exactly for 26, 34, 35, 37 and 48 |
| WiegandFrame.FieldValue | Aether_GPIO_Test_Ready_v2/backend/native/wiegand_tx.c:83-84 | an MSB-first field of a value that fits reads back as that value |
| WiegandFrame.NibbleValue | Aether_GPIO_Test_Ready_v2/backend/native/wiegand_tx.c:66-69 | the four bits of a hex digit read back as the digit |
| WiegandBits.ParityEven | Aether_GPIO_Test_Ready_v2/backend/lib/wiegandBits.js:1 | true iff the number of set bits is even |
| WiegandBits.Decode | Aether_GPIO_Test_Ready_v2/backend/lib/wiegandBits.js:2-18 | null, undefined and `""` give no bits; the only errors are `bad hex` and `bad bit char`; hex gives 4 bits per digit and binary at most one per character |
| WiegandBits.BitsFromHexOrBin | Aether_GPIO_Test_Ready_v2/backend/lib/wiegandBits.js:2-18 | the loops give exactly `Decode` of the input |
| WiegandBits.HexDecodeSpec | Aether_GPIO_Test_Ready_v2/backend/lib/wiegandBits.js:4-10 | the hex path succeeds iff every digit is hex, otherwise throws `bad hex`; it yields 4 bits per digit, MSB first |
| WiegandBits.BinDecodeSpec | Aether_GPIO_Test_Ready_v2/backend/lib/wiegandBits.js:12-15 | the binary loop succeeds iff every character is 0 or 1, otherwise throws `bad bit char`; it yields one bit per character |
| WiegandBits.StripKeepsBits | Aether_GPIO_Test_Ready_v2/backend/lib/wiegandBits.js:12 | stripping white space and `_` leaves a string of 0s and 1s unchanged |
| WiegandBits.FormatBits | Aether_GPIO_Test_Ready_v2/backend/lib/wiegandBits.js:59 | one character per bit |
| WiegandBits.RoundTrip | Aether_GPIO_Test_Ready_v2/backend/lib/wiegandBits.js:2-18 | `formatBits` gives only 0s and 1s, and `bitsFromHexOrBin(formatBits(b)) == b` for every bit list |
| WiegandBits.ComposeData | Aether_GPIO_Test_Ready_v2/backend/lib/wiegandBits.js:19-34 | fails with `unsupported format` iff a width is missing and the format is not in the table; otherwise the widths are the given or tabled ones, and the data is the facility field then the card field, MSB first, as `>>` reads them |
| WiegandBits.JsFieldExact | Aether_GPIO_Test_Ready_v2/backend/lib/wiegandBits.js:31-32 | for widths up to 32 and values that fit, the JS field is the exact MSB-first field and reads back as the value |
| WiegandBits.FacilityTruncated | Aether_GPIO_Test_Ready_v2/backend/lib/wiegandBits.js:31 | a facility too wide for its field is cut silently: 256 in 8 bits is written like 0 |
| WiegandBits.ApplyParity | Aether_GPIO_Test_Ready_v2/backend/lib/wiegandBits.js:35-58 | the only error is `frameBits mismatch`, and only with a truthy `frameBits`; a frame is never shorter than the data, is exactly `frameBits` long when that is truthy, and has 1 extra bit for whole parity and 2 for standard parity |
| WiegandBits.NoParity | Aether_GPIO_Test_Ready_v2/backend/lib/wiegandBits.js:36-44 | `none` returns the data, left-padded with zeros up to `frameBits`, and throws `frameBits mismatch` iff `frameBits` is given and smaller than the data |
| WiegandBits.WholeParity | Aether_GPIO_Test_Ready_v2/backend/lib/wiegandBits.js:45-51 | keeps the data and appends one bit, so that the frame has odd weight under `whole-even` and even weight under `whole-odd`; a truthy `frameBits` other than n+1 throws `frameBits mismatch` |
| WiegandBits.StdParity | Aether_GPIO_Test_Ready_v2/backend/lib/wiegandBits.js:52-57 | `[L] ++ data ++ [R]`, with L = 1 iff the first `floor(n/2)` bits have even weight and R = 1 iff the rest have odd weight, so L with the left half has odd weight and the right half with R even weight; a truthy `frameBits` other than n+2 throws `frameBits mismatch` |
| WiegandTx.ParseParity | Aether_GPIO_Test_Ready_v2/backend/native/wiegand_tx.c:42-50 | NULL and `std` give STD; `none`, `whole-even` and `whole-odd` give their modes; anything else fails with `invalid --parity` |
| WiegandTx.ParityEvenBits | Aether_GPIO_Test_Ready_v2/backend/native/wiegand_tx.c:52-54 | true iff the `n` bits from the start have even weight (none for `n <= 0`) |
| WiegandTx.ParseRawBits | Aether_GPIO_Test_Ready_v2/backend/native/wiegand_tx.c:56-79 | writes exactly `RawBits` of the input into the buffer and returns its length, or fails with its message |
| WiegandTx.ParseHexDigits | Aether_GPIO_Test_Ready_v2/backend/native/wiegand_tx.c:61-70 | the hex loop writes `HexBits` of the digits, never past `max` |
| WiegandTx.ParseBinaryDigits | Aether_GPIO_Test_Ready_v2/backend/native/wiegand_tx.c:72-76 | the binary loop writes `BinBits` of the string, never past `max` |
| WiegandTx.HexBitsSpec | Aether_GPIO_Test_Ready_v2/backend/native/wiegand_tx.c:61-70 | the digits succeed iff there are none, or each is hex and 4 bits per digit fit in `max`; each digit gives 4 bits MSB first |
| WiegandTx.BinBitsSpec | Aether_GPIO_Test_Ready_v2/backend/native/wiegand_tx.c:72-76 | succeeds iff every character is 0, 1, space or `_` and the 0/1 characters fit in `max`; the bits are those characters in order |
| WiegandTx.RawBitsBound | Aether_GPIO_Test_Ready_v2/backend/native/wiegand_tx.c:56-79 | parsing never yields more than `max` bits |
| WiegandTx.ComposeFields | Aether_GPIO_Test_Ready_v2/backend/native/wiegand_tx.c:81-86 | fails with `buffer small` iff `fb + cb > max`; otherwise writes the facility then the card field, MSB first, and returns `fb + cb` |
| WiegandTx.Framed | Aether_GPIO_Test_Ready_v2/backend/native/wiegand_tx.c:88-105 | the frame is 0, 1 or 2 bits longer than the data for none, whole and std |
| WiegandTx.FramedSpec | Aether_GPIO_Test_Ready_v2/backend/native/wiegand_tx.c:88-105 | none copies the data; whole appends a bit that is 1 iff (mode is whole-even) equals (data has even weight); std puts 1 in front iff the left half has even weight and 1 behind iff the right half has odd weight |
| WiegandTx.ApplyParity | Aether_GPIO_Test_Ready_v2/backend/native/wiegand_tx.c:88-105 | fails with `buffer small` iff the frame would not fit; otherwise writes `Framed` of the data and returns its length |
| WiegandTx.MemCpy | Aether_GPIO_Test_Ready_v2/backend/native/wiegand_tx.c:92 | `memcpy` copies `n` bits to the offset and touches nothing else |
| WiegandTx.WholeParity | Aether_GPIO_Test_Ready_v2/backend/native/wiegand_tx.c:90-96 | writes the whole-parity frame of the data |
| WiegandTx.SplitParity | Aether_GPIO_Test_Ready_v2/backend/native/wiegand_tx.c:97-104 | writes the standard-parity frame of the data |
| WiegandTx.MemMove | Aether_GPIO_Test_Ready_v2/backend/native/wiegand_tx.c:173 | `memmove` towards the end copies the old bits and touches nothing else |
| WiegandTx.MemSetZero | Aether_GPIO_Test_Ready_v2/backend/native/wiegand_tx.c:173 | `memset` zeroes the first `n` bits and touches nothing else |
| WiegandTx.PadFront | Aether_GPIO_Test_Ready_v2/backend/native/wiegand_tx.c:172-173 | the data becomes zeros followed by the old data, `frame_bits` long |
| WiegandTx.PadFields | Aether_GPIO_Test_Ready_v2/backend/native/wiegand_tx.c:169-175 | the none-parity padding step gives `Padded` of the composed data, or its error |
| WiegandTx.BuildFields | Aether_GPIO_Test_Ready_v2/backend/native/wiegand_tx.c:154-175 | the format check, the width table, the range check, composition and padding give `Fields` of the configuration |
| WiegandTx.BuildFrame | Aether_GPIO_Test_Ready_v2/backend/native/wiegand_tx.c:146-180 | validation, data and parity give `Frame` of the configuration, or the first error in source order |
| WiegandTx.Transmit | Aether_GPIO_Test_Ready_v2/backend/native/wiegand_tx.c:211-217 | exactly `flen` pulses in frame order, each on the D0 line for a 0 bit and the D1 line for a 1 bit, with the configured pulse and space times |
| WiegandTx.Received | Aether_GPIO_Test_Ready_v2/backend/native/wiegand_tx.c:211-217 | a receiver's reading gives one bit per pulse |
| WiegandTx.ReceivedFrame | Aether_GPIO_Test_Ready_v2/backend/native/wiegand_tx.c:211-217 | on two distinct lines, reading the pulses back gives exactly the frame |
| WiegandTx.Run | Aether_GPIO_Test_Ready_v2/backend/native/wiegand_tx.c:146-217 | fails iff `Frame` fails, with its message; otherwise pulses exactly the frame, which a receiver on distinct lines reads back |
| WiegandTx.Frame | Aether_GPIO_Test_Ready_v2/backend/native/wiegand_tx.c:146-180 | an accepted frame holds at least the parity bits and fits the 520-bit buffer |
| WiegandTx.FrameAccepted | Aether_GPIO_Test_Ready_v2/backend/native/wiegand_tx.c:146-180 | a frame is built only with both lines given, `pulse_us` in [20, 5000], `space_us >= pulse_us`, a length equal to a positive `frame_bits`, and without raw bits a supported format and facility and card that fit their widths |
| WiegandTx.ComposedFieldsReadBack | Aether_GPIO_Test_Ready_v2/backend/native/wiegand_tx.c:166-168 | the composed data splits into the facility and card fields, which read back as the facility and card values |
| WiegandTx.NoParityPadding | Aether_GPIO_Test_Ready_v2/backend/native/wiegand_tx.c:169-180 | with none parity and `frame_bits > 0`: fewer frame bits than data fails, more than 512 fails, otherwise the frame is the data left-padded with zeros |
| WiegandTx.RawNotPadded | Aether_GPIO_Test_Ready_v2/backend/native/wiegand_tx.c:151-152 | raw bits are never padded: a `frame_bits` other than their count fails with `frame-bits mismatch` |
| WiegandTx.StdFrameLengths | Aether_GPIO_Test_Ready_v2/backend/native/wiegand_tx.c:158-164 | with tabled widths and std parity, formats 26, 34 and 48 give frames of that length; 35 gives 37 bits and 37 gives 36 |
| WiegandAgreement.ParityAgrees | Aether_GPIO_Test_Ready_v2/backend/lib/wiegandBits.js:35-58 | for every mode, the JS `applyParity` without `frameBits` builds the same frame as the C `apply_parity`, and the C parser accepts the JS mode name |
| WiegandAgreement.HexAgrees | Aether_GPIO_Test_Ready_v2/backend/native/wiegand_tx.c:61-70 | when the bits fit, the C and JS hex decoders accept the same digit strings and give the same bits |
| WiegandAgreement.RawHexAgrees | Aether_GPIO_Test_Ready_v2/backend/native/wiegand_tx.c:56-70 | for a prefixed, non-empty hex input that fits, both parsers agree |
| WiegandAgreement.BinaryAgrees | Aether_GPIO_Test_Ready_v2/backend/native/wiegand_tx.c:72-76 | on strings of 0s and 1s that fit, both binary decoders succeed with the same bits |
| WiegandAgreement.RawBinaryAgrees | Aether_GPIO_Test_Ready_v2/backend/native/wiegand_tx.c:56-79 | on unprefixed strings of 0s and 1s that fit, both parsers agree |
| WiegandAgreement.EmptyHexDiffers | Aether_GPIO_Test_Ready_v2/backend/native/wiegand_tx.c:60 | C rejects `0x` with no digits (`empty hex`); JS returns `[]` |
| WiegandAgreement.TabDiffers | Aether_GPIO_Test_Ready_v2/backend/native/wiegand_tx.c:72-76 | C rejects a tab in binary input; JS strips it |
| WiegandAgreement.FieldsAgree | Aether_GPIO_Test_Ready_v2/backend/lib/wiegandBits.js:30-33 | for widths up to 32 and values C accepts, the JS fields equal the C composed data |
| WiegandAgreement.RangeDiffers | Aether_GPIO_Test_Ready_v2/backend/native/wiegand_tx.c:166-167 | C rejects facility 256 for format 26, while JS writes it as if it were 0 |

## Left out

- Console output, `saveRules`/`loadRules`, `initialize`, `shutdown`, `getRules` and `checkScheduledRules` of `AutomationManager.js` are not modelled. They are file I/O, event-bus wiring, an interval timer and a copy of the table. `checkScheduledRules` is the per-minute loop around `shouldTriggerSchedule`, which is modelled.
- Real time is not modelled. Every `setTimeout`, `setInterval` and `await` of a timer is an `Effect` or `Intent` entry carrying its delay. `Date.now`, `new Date()` and `Math.random` become parameters: the rule id, `now`, the weekday, the hour and the minute.
- Asynchronous interleaving is not modelled. `handleGPIOChange` does not await `executeRule`, so different rules' actions can interleave. The model runs each started rule to completion, in table order.
- Handlers that subscribe or unsubscribe during `emit` are not modelled. A handler's effect is only its success or failure.
- Numbers are unbounded integers. Floating point, `NaN` arithmetic and relational `$gt`/`$lt` between mixed types are left out: a number and a string never compare.
- Prototype-chain lookups, getters and duplicate object keys are left out. A property read looks only at an object's own ordered properties.
- Error messages of thrown TypeErrors carry a fixed text. The engine's wording is not modelled.
- `PinRegistry.Registry.ListReserved`: a pin that `Number` turns into `NaN` (a non-numeric `d0`/`d1`) is not in the model's list. With such a pin configured, `(a,b)=>a-b` returns `NaN` against it, which the sort reads as "equal", so the comparator is inconsistent and JavaScript leaves the order of the WHOLE result implementation-defined (doors `[{d0:3, d1:"x"}, {d0:1, d1:1}]` can give `[3, NaN, 1]`). The model promises ascending order only when no configured pin is `NaN`.
- Reading `config/wiegand.json` in `pinRegistry.js` is not modelled: the parsed configuration is the argument of `PinRegistry.Load`. `config()` just returns the two fields, and is not modelled.
- `RuleEngine.Engine.AddRule`: rule ids are strings, and an input's `priority` is an integer or absent. A non-numeric priority is not modelled. Properties other than id, conditions, actions, enabled and priority are copied by the source but never read, and are left out.
- `RuleEngine.Engine.UpdateRule`: an update may override conditions, actions, enabled and priority. Any other property, including `id` and `stats`, is not modelled.
- `RuleEngine.Engine.SetRuleEnabled`: `enabled` is a boolean. The source stores whatever value it is given.
- `AutomationManager.Manager`: rules are keyed by the string form of their id. The source's `Map` would keep the number 1 and the string "1" apart.
- The trigger data that `executeRule` passes to `executeAction` is unused by the source, and is not modelled.
- `wiegand_tx.c` argument parsing (`getopt_long`, `atoi`, `strtoull`, lines 116-144), the `usage` text and the libgpiod calls (lines 182-224) are not modelled. `main` takes a `Config` record. A failing GPIO call would end the program with `die`. Exit codes 2 and `die` become `Err` results.
- `WiegandTx.BuildFields` and `WiegandTx.Run` require `ShiftsDefined`: widths below 64. `1ULL << fb` is undefined behaviour in C for wider fields.
- C strings are `seq<char>` without a terminating NUL. An embedded NUL is not modelled.
- `WiegandBits.ComposeData` models `>>` exactly: 32-bit conversion and a shift count taken modulo 32. Only `WiegandBits.JsFieldExact` and `WiegandAgreement.FieldsAgree` relate it to the exact field, for widths up to 32.
- Default arguments are not modelled as defaults: each becomes an explicit parameter that the caller supplies. These are `LogService`'s `size = 1000`; `EventBus.on`'s `priority = 0`, `once = false` and generated id; `getHistory(limit = 100)`; `emit(eventName, data = {})`; and, in `composeData`/`applyParity`, `format = 26`, `facility = 0`, `card = 0` and `parity = 'std'`.
- `JsValue.StringToNumber` and `JsValue.ToNumber` read only optionally signed decimal integers, surrounded by white space; an empty or all-space string is 0. JavaScript's `Number` also accepts `0x`/`0o`/`0b` prefixes, exponents (`1e1`), integral decimals (`8.0`, `+8.00`) and `Infinity`, and returns ±Infinity. The model maps all of these to `NaN` (`None`). So a schedule time such as `8.0:00` fires at 08:00 in `shouldTriggerSchedule` but never in `AutomationManager.ShouldTrigger`. Likewise a configured pin `"0x11"` reserves pin 17 in `pinRegistry.js` but nothing in `PinRegistry.Load`.
- Strings are sequences of Unicode code points, not UTF-16 code units. `length`, `slice` and indexing of strings with characters outside the Basic Multilingual Plane are not modelled as JavaScript counts them.
- `WiegandBits.Decode` and `WiegandBits.BitsFromHexOrBin` take a string or nothing (`None` for `null`/`undefined`). The source accepts any value: `0`, `false` and `NaN` return `[]` through `if (!raw)`, and a truthy non-string such as a number or a plain object throws a TypeError at `raw.replace`. These non-string inputs and that TypeError are not modelled, so the contract's "only `bad hex` and `bad bit char`" covers string inputs only.
- Objects the model builds keep their keys in insertion order. JavaScript lists array-index keys (`"0"`, `"1"`, …) first, in ascending order, and the other keys after them in insertion order. The difference shows in the key order of `{ ts, ...entry }` in `LogService.Stamp` when the entry has index keys (any array or string entry), of `Object.assign` in `AutomationManager.Manager.UpdateRule` when an update adds an index key, and of `Object.fromEntries` in `AutomationManager.Manager.GetStats` when rule ids are array indices. Property values are unaffected. `LogService.StampSpec` therefore promises that `ts` comes first only for entries without array-index keys.
