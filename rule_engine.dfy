/** The rule engine: a table of rules keyed by id, a matching language over
    events (`all`/`any` groups of leaf conditions, dot-path field lookup and the
    `$eq`..`$nin` operators) and a batch evaluation that returns the matching
    enabled rules by priority. */
module RuleEngine {
  import opened Wrappers
  import opened JsValue
  import StableSort
  import JsMap

  /** The event being evaluated: `event.name` and `event.data`. */
  datatype Event = Event(name: string, data: Value)

  // ---------------------------------------------------------------------------
  // compareValues

  /** The operators of an operator object. */
  datatype Op = Eq | Ne | Gt | Gte | Lt | Lte | In | Nin

  /** The property key that names an operator. */
  function OpKey(op: Op): (k: string)
    ensures |k| > 1 && k[0] == '$'
  {
    match op
    case Eq => "$eq"
    case Ne => "$ne"
    case Gt => "$gt"
    case Gte => "$gte"
    case Lt => "$lt"
    case Lte => "$lte"
    case In => "$in"
    case Nin => "$nin"
  }

  /** The operators in the order `compareValues` tries them. */
  const Operators: seq<Op> := [Eq, Ne, Gt, Gte, Lt, Lte, In, Nin]

  /** The first operator of `ops` for which `operand` is defined (not
      undefined), with that operand. */
  function FirstPresent(operand: Op -> Value, ops: seq<Op>): Option<(Op, Value)> {
    if ops == [] then None
    else if operand(ops[0]) != Undefined then Some((ops[0], operand(ops[0])))
    else FirstPresent(operand, ops[1..])
  }

  /** The operand an object gives each operator: its property of that name. */
  function OperandOf(expected: Value): Op -> Value {
    op => Get(expected, OpKey(op))
  }

  /** The first operator `expected` defines, with its operand. */
  function FirstOperator(expected: Value): Option<(Op, Value)> {
    FirstPresent(OperandOf(expected), Operators)
  }

  /** Lexicographic order of strings. */
  predicate StrLess(a: string, b: string) {
    if a == [] then b != []
    else if b == [] then false
    else if a[0] != b[0] then a[0] < b[0]
    else StrLess(a[1..], b[1..])
  }

  /** Values that `<` and `>=` order: two numbers or two strings. */
  predicate Comparable(a: Value, b: Value) {
    (a.Num? && b.Num?) || (a.Str? && b.Str?)
  }

  /** `a < b` */
  predicate Less(a: Value, b: Value) {
    if a.Num? && b.Num? then a.n < b.n
    else if a.Str? && b.Str? then StrLess(a.s, b.s)
    else false
  }

  /** `a <= b` */
  predicate LessEq(a: Value, b: Value) {
    Comparable(a, b) && !Less(b, a)
  }

  /** `list.includes(actual)`: an array tests membership, a string tests for a
      substring; any other value has no `includes` method, so the call throws. */
  function ListIncludes(list: Value, actual: Value): Result<bool, JsError> {
    match list
    case Arr(items) => Ok(Includes(items, actual))
    case Str(s) => Ok(Contains(s, JsString(actual)))
    case _ => Err(TypeError("includes is not a function"))
  }

  /** What each operator tests: `$eq`/`$ne` strict (in)equality, the relational
      operators `actual` against the operand, `$in`/`$nin` membership of
      `actual` in the operand. */
  function ApplyOperator(op: Op, operand: Value, actual: Value): Result<bool, JsError> {
    match op
    case Eq => Ok(StrictEq(actual, operand))
    case Ne => Ok(!StrictEq(actual, operand))
    case Gt => Ok(Less(operand, actual))
    case Gte => Ok(LessEq(operand, actual))
    case Lt => Ok(Less(actual, operand))
    case Lte => Ok(LessEq(actual, operand))
    case In => ListIncludes(operand, actual)
    case Nin => (match ListIncludes(operand, actual) case Ok(b) => Ok(!b) case Err(e) => Err(e))
  }

  /** The operator chain of `compareValues`, over the operands `operand(op)`
      (`expected.$eq`, `expected.$ne`, ...): the first defined one decides. */
  function CompareOperators(actual: Value, operand: Op -> Value): Result<bool, JsError> {
    if operand(Eq) != Undefined then ApplyOperator(Eq, operand(Eq), actual)
    else if operand(Ne) != Undefined then ApplyOperator(Ne, operand(Ne), actual)
    else if operand(Gt) != Undefined then ApplyOperator(Gt, operand(Gt), actual)
    else if operand(Gte) != Undefined then ApplyOperator(Gte, operand(Gte), actual)
    else if operand(Lt) != Undefined then ApplyOperator(Lt, operand(Lt), actual)
    else if operand(Lte) != Undefined then ApplyOperator(Lte, operand(Lte), actual)
    else if operand(In) != Undefined then ApplyOperator(In, operand(In), actual)
    else if operand(Nin) != Undefined then ApplyOperator(Nin, operand(Nin), actual)
    else Ok(false)
  }

  /** `compareValues(actual, expected)`: identical values match; an operator
      object is decided by its first defined operator; anything else fails. */
  function CompareValues(actual: Value, expected: Value): (r: Result<bool, JsError>)
    ensures StrictEq(actual, expected) ==> r == Ok(true)
    ensures !IsObject(expected) ==> r == Ok(StrictEq(actual, expected))
  {
    if StrictEq(actual, expected) then Ok(true)
    else if IsObject(expected) then CompareOperators(actual, OperandOf(expected))
    else Ok(false)
  }

  /** `FirstPresent` over the operators, unrolled. */
  lemma FirstPresentCases(f: Op -> Value)
    ensures FirstPresent(f, Operators)
            == if f(Eq) != Undefined then Some((Eq, f(Eq)))
               else if f(Ne) != Undefined then Some((Ne, f(Ne)))
               else if f(Gt) != Undefined then Some((Gt, f(Gt)))
               else if f(Gte) != Undefined then Some((Gte, f(Gte)))
               else if f(Lt) != Undefined then Some((Lt, f(Lt)))
               else if f(Lte) != Undefined then Some((Lte, f(Lte)))
               else if f(In) != Undefined then Some((In, f(In)))
               else if f(Nin) != Undefined then Some((Nin, f(Nin)))
               else None
  {
    var ops := Operators;
    assert ops[1..] == [Ne, Gt, Gte, Lt, Lte, In, Nin];
    assert ops[2..] == [Gt, Gte, Lt, Lte, In, Nin];
    assert ops[3..] == [Gte, Lt, Lte, In, Nin];
    assert ops[4..] == [Lt, Lte, In, Nin];
    assert ops[5..] == [Lte, In, Nin];
    assert ops[6..] == [In, Nin];
    assert ops[7..] == [Nin];
    assert ops[8..] == [];
    assert FirstPresent(f, ops[7..]) == if f(Nin) != Undefined then Some((Nin, f(Nin))) else FirstPresent(f, ops[8..]);
    assert FirstPresent(f, ops[6..]) == if f(In) != Undefined then Some((In, f(In))) else FirstPresent(f, ops[7..]);
    assert FirstPresent(f, ops[5..]) == if f(Lte) != Undefined then Some((Lte, f(Lte))) else FirstPresent(f, ops[6..]);
    assert FirstPresent(f, ops[4..]) == if f(Lt) != Undefined then Some((Lt, f(Lt))) else FirstPresent(f, ops[5..]);
    assert FirstPresent(f, ops[3..]) == if f(Gte) != Undefined then Some((Gte, f(Gte))) else FirstPresent(f, ops[4..]);
    assert FirstPresent(f, ops[2..]) == if f(Gt) != Undefined then Some((Gt, f(Gt))) else FirstPresent(f, ops[3..]);
    assert FirstPresent(f, ops[1..]) == if f(Ne) != Undefined then Some((Ne, f(Ne))) else FirstPresent(f, ops[2..]);
  }

  /** An operator object is decided by its first defined operator alone, in the
      order `$eq, $ne, $gt, $gte, $lt, $lte, $in, $nin`; without one it fails. */
  lemma CompareByFirstOperator(actual: Value, expected: Value)
    requires IsObject(expected)
    ensures CompareValues(actual, expected)
            == match FirstOperator(expected)
               case None => Ok(false)
               case Some(p) => ApplyOperator(p.0, p.1, actual)
  {
    FirstPresentCases(OperandOf(expected));
  }

  /** Two operator objects with the same first operator and operand give the same
      verdict, whatever other keys they carry. */
  lemma OnlyFirstOperatorDecides(actual: Value, e1: Value, e2: Value)
    requires IsObject(e1) && IsObject(e2) && FirstOperator(e1) == FirstOperator(e2)
    ensures CompareValues(actual, e1) == CompareValues(actual, e2)
  {
    CompareByFirstOperator(actual, e1);
    CompareByFirstOperator(actual, e2);
  }

  // ---------------------------------------------------------------------------
  // evaluateConditions / evaluateSingleCondition

  /** The field matchers of a leaf, checked in property order: `event` is
      skipped, every other key's dot-path value in `data` must pass
      `compareValues`; the first failure or exception ends the check. */
  function MatchFields(entries: seq<(string, Value)>, data: Value): Result<bool, JsError> {
    if entries == [] then Ok(true)
    else if entries[0].0 == "event" then MatchFields(entries[1..], data)
    else
      match CompareValues(GetNested(data, entries[0].0), entries[0].1)
      case Err(e) => Err(e)
      case Ok(b) => if !b then Ok(false) else MatchFields(entries[1..], data)
  }

  /** The event-name guard of a leaf holds. */
  predicate NameGuardPasses(condition: Value, event: Event) {
    !Truthy(Get(condition, "event")) || StrictEq(Str(event.name), Get(condition, "event"))
  }

  /** `evaluateSingleCondition(condition, event)`; reading `.event` of null or
      undefined throws. */
  function EvaluateLeaf(condition: Value, event: Event): Result<bool, JsError> {
    if condition.Undefined? || condition.Null? then Err(TypeError("cannot read properties of null"))
    else if !NameGuardPasses(condition, event) then Ok(false)
    else MatchFields(OwnEntries(condition), event.data)
  }

  /** The loop over `conditions.all`: stops at the first false or exception. */
  function EvaluateAll(conds: seq<Value>, event: Event): Result<bool, JsError> {
    if conds == [] then Ok(true)
    else
      match EvaluateLeaf(conds[0], event)
      case Err(e) => Err(e)
      case Ok(b) => if !b then Ok(false) else EvaluateAll(conds[1..], event)
  }

  /** The loop over `conditions.any`: stops at the first true or exception. */
  function EvaluateAny(conds: seq<Value>, event: Event): Result<bool, JsError> {
    if conds == [] then Ok(false)
    else
      match EvaluateLeaf(conds[0], event)
      case Err(e) => Err(e)
      case Ok(b) => if b then Ok(true) else EvaluateAny(conds[1..], event)
  }

  /** `evaluateConditions(conditions, event)`.  The members of `all` and `any` are
      evaluated as leaves: a group inside a group is not a nested group. */
  function EvaluateConditions(conditions: Value, event: Event): (r: Result<bool, JsError>)
    ensures r == Ok(true) ==> Truthy(conditions)
    ensures r.Err? ==> Truthy(conditions)
  {
    if !Truthy(conditions) then Ok(false)
    else if Truthy(Get(conditions, "all")) then
      match Elements(Get(conditions, "all"))
      case Err(e) => Err(e)
      case Ok(cs) => EvaluateAll(cs, event)
    else if Truthy(Get(conditions, "any")) then
      match Elements(Get(conditions, "any"))
      case Err(e) => Err(e)
      case Ok(cs) => EvaluateAny(cs, event)
    else EvaluateLeaf(conditions, event)
  }

  /** Missing conditions never match, an empty `all` always matches and an empty
      `any` never does, whatever the event. */
  lemma EmptyGroups(event: Event)
    ensures EvaluateConditions(Undefined, event) == Ok(false)
    ensures EvaluateConditions(Null, event) == Ok(false)
    ensures EvaluateConditions(Obj([("all", Arr([]))]), event) == Ok(true)
    ensures EvaluateConditions(Obj([("any", Arr([]))]), event) == Ok(false)
  {
  }

  /** `all` is true iff every member holds. */
  lemma {:induction false} AllHoldsIffEvery(conds: seq<Value>, event: Event)
    ensures EvaluateAll(conds, event) == Ok(true)
            <==> forall i | 0 <= i < |conds| :: EvaluateLeaf(conds[i], event) == Ok(true)
  {
    if conds != [] {
      AllHoldsIffEvery(conds[1..], event);
      assert forall i | 1 <= i < |conds| :: conds[i] == conds[1..][i - 1];
    }
  }

  /** When no member throws, `any` is true iff some member holds. */
  lemma {:induction false} AnyHoldsIffSome(conds: seq<Value>, event: Event)
    requires forall i | 0 <= i < |conds| :: EvaluateLeaf(conds[i], event).Ok?
    ensures EvaluateAny(conds, event) == Ok(true)
            <==> exists i | 0 <= i < |conds| :: EvaluateLeaf(conds[i], event) == Ok(true)
    ensures EvaluateAny(conds, event).Ok?
  {
    if conds != [] {
      assert forall i | 1 <= i < |conds| :: conds[i] == conds[1..][i - 1];
      AnyHoldsIffSome(conds[1..], event);
      if EvaluateLeaf(conds[0], event) != Ok(true) {
        if exists i | 0 <= i < |conds| :: EvaluateLeaf(conds[i], event) == Ok(true) {
          var i :| 0 <= i < |conds| && EvaluateLeaf(conds[i], event) == Ok(true);
          assert conds[1..][i - 1] == conds[i];
        }
      }
    }
  }

  /** When both `all` and `any` are present, only `all` is consulted. */
  lemma AllTakesPrecedence(c1: Value, c2: Value, event: Event)
    requires Truthy(c1) && Truthy(c2)
    requires Get(c1, "all") == Get(c2, "all") && Truthy(Get(c1, "all"))
    ensures EvaluateConditions(c1, event) == EvaluateConditions(c2, event)
  {
  }

  /** A leaf is true iff its event-name guard passes and every field matcher
      other than `event` holds (when no matcher throws). */
  lemma {:induction false} MatchFieldsIffEvery(entries: seq<(string, Value)>, data: Value)
    requires forall i | 0 <= i < |entries| :: CompareValues(GetNested(data, entries[i].0), entries[i].1).Ok?
    ensures MatchFields(entries, data)
            == Ok(forall i | 0 <= i < |entries| && entries[i].0 != "event" ::
                    CompareValues(GetNested(data, entries[i].0), entries[i].1) == Ok(true))
  {
    if entries != [] {
      assert forall i | 1 <= i < |entries| :: entries[i] == entries[1..][i - 1];
      MatchFieldsIffEvery(entries[1..], data);
    }
  }

  lemma LeafSemantics(fields: seq<(string, Value)>, event: Event)
    requires forall i | 0 <= i < |fields| :: CompareValues(GetNested(event.data, fields[i].0), fields[i].1).Ok?
    ensures EvaluateLeaf(Obj(fields), event)
            == Ok(NameGuardPasses(Obj(fields), event)
                  && forall i | 0 <= i < |fields| && fields[i].0 != "event" ::
                       CompareValues(GetNested(event.data, fields[i].0), fields[i].1) == Ok(true))
  {
    MatchFieldsIffEvery(fields, event.data);
  }

  /** A key starting with `$` is neither an index nor `length`. */
  lemma DollarKeyOfArray(items: seq<Value>, key: string)
    requires |key| > 0 && key[0] == '$'
    ensures Get(Arr(items), key) == Undefined
  {
    assert key != "length" by {
      assert "length"[0] == 'l';
    }
  }

  /** An array has no operator properties. */
  lemma ArrayHasNoOperator(items: seq<Value>)
    ensures FirstOperator(Arr(items)) == None
  {
    var f := OperandOf(Arr(items));
    forall op ensures f(op) == Undefined {
      DollarKeyOfArray(items, OpKey(op));
    }
    FirstPresentCases(f);
  }

  /** An array as the expected value never matches: it is not `===` to anything
      and defines no operator. */
  lemma ArrayNeverMatches(actual: Value, items: seq<Value>)
    ensures CompareValues(actual, Arr(items)) == Ok(false)
  {
    ArrayHasNoOperator(items);
    CompareByFirstOperator(actual, Arr(items));
  }

  /** A group written inside `all` is read as a field matcher on `data.any`
      against an array, which never matches: groups do not nest. */
  lemma NestedGroupIsLeaf(inner: seq<Value>, event: Event)
    ensures EvaluateLeaf(Obj([("any", Arr(inner))]), event) == Ok(false)
  {
    var entries := OwnEntries(Obj([("any", Arr(inner))]));
    ArrayNeverMatches(GetNested(event.data, "any"), inner);
    assert entries[1..] == [];
  }

  // ---------------------------------------------------------------------------
  // The rule table

  datatype RuleStats = RuleStats(executions: nat, lastExecuted: Option<int>, errors: nat)

  datatype Rule = Rule(id: string, conditions: Value, actions: Value, enabled: bool,
                       priority: int, stats: RuleStats)

  /** The object passed to `addRule`: an absent property is `Undefined` (an absent
      id the empty string, an absent priority `None`).  Other properties, which
      the engine copies but never reads, are not modelled. */
  datatype RuleInput = RuleInput(id: string, conditions: Value, actions: Value,
                                 enabled: Value, priority: Option<int>)

  /** The properties an `updateRule` call overrides (`None` = not given). */
  datatype RulePatch = RulePatch(conditions: Option<Value>, actions: Option<Value>,
                                 enabled: Option<bool>, priority: Option<int>)

  function Priority(r: Rule): int {
    r.priority
  }

  /** The message `addRule` throws for this input, if any. */
  function AddRuleError(input: RuleInput): Option<string> {
    if input.id == "" then Some("Rule must have an id")
    else if !Truthy(input.conditions) then Some("Rule must have conditions")
    else if !Truthy(input.actions) then Some("Rule must have actions")
    else None
  }

  /** The rule `addRule` stores: enabled unless `enabled` is literally false,
      priority 0 when absent, zeroed statistics. */
  function NewRule(input: RuleInput): (r: Rule)
    ensures r.enabled <==> input.enabled != Bool(false)
    ensures input.priority.None? ==> r.priority == 0
    ensures input.priority.Some? ==> r.priority == input.priority.value
    ensures r.stats == RuleStats(0, None, 0)
    ensures r.id == input.id && r.conditions == input.conditions && r.actions == input.actions
  {
    Rule(input.id, input.conditions, input.actions, input.enabled != Bool(false),
         input.priority.GetOr(0), RuleStats(0, None, 0))
  }

  /** `{ ...rule, ...updates }` */
  function ApplyPatch(r: Rule, p: RulePatch): Rule {
    r.(conditions := p.conditions.GetOr(r.conditions),
       actions := p.actions.GetOr(r.actions),
       enabled := p.enabled.GetOr(r.enabled),
       priority := p.priority.GetOr(r.priority))
  }

  /** The rule after a batch evaluation: its error counter goes up by one when it
      is enabled and evaluating its conditions throws. */
  function AfterEvaluation(r: Rule, event: Event): Rule {
    if r.enabled && EvaluateConditions(r.conditions, event).Err?
    then r.(stats := r.stats.(errors := r.stats.errors + 1))
    else r
  }

  /** The rule is enabled and its conditions hold for the event. */
  predicate Hits(r: Rule, event: Event) {
    r.enabled && EvaluateConditions(r.conditions, event) == Ok(true)
  }

  /** The table after a batch evaluation. */
  function Evaluated(m: seq<(string, Rule)>, event: Event): seq<(string, Rule)> {
    seq(|m|, k requires 0 <= k < |m| => (m[k].0, AfterEvaluation(m[k].1, event)))
  }

  /** Evaluation keeps every rule under its own id. */
  lemma EvaluatedKeepsKeys(m: seq<(string, Rule)>, event: Event)
    requires JsMap.UniqueKeys(m) && forall i | 0 <= i < |m| :: m[i].1.id == m[i].0
    ensures var e := Evaluated(m, event);
            JsMap.UniqueKeys(e) && forall i | 0 <= i < |e| :: e[i].1.id == e[i].0
  {
  }

  /** The enabled rules whose conditions hold, in table order. */
  function Matching(rs: seq<Rule>, event: Event): seq<Rule> {
    if rs == [] then []
    else (if Hits(rs[0], event) then [rs[0]] else []) + Matching(rs[1..], event)
  }

  lemma {:induction false} MatchingMembers(rs: seq<Rule>, event: Event)
    ensures forall r :: r in Matching(rs, event)
                        <==> r in rs && r.enabled && EvaluateConditions(r.conditions, event) == Ok(true)
  {
    if rs != [] {
      MatchingMembers(rs[1..], event);
      assert rs == [rs[0]] + rs[1..];
    }
  }

  /** What `evaluateEvent` returns is exactly the enabled rules whose conditions
      hold, by non-increasing priority, equal priorities in table order. */
  lemma EvaluateEventResult(rs: seq<Rule>, event: Event)
    ensures var result := StableSort.SortDesc(Matching(rs, event), Priority);
            && (forall r :: r in result <==> r in rs && r.enabled && EvaluateConditions(r.conditions, event) == Ok(true))
            && StableSort.SortedDesc(result, Priority)
            && forall p :: StableSort.WithKey(result, Priority, p) == StableSort.WithKey(Matching(rs, event), Priority, p)
  {
    var m := Matching(rs, event);
    var result := StableSort.SortDesc(m, Priority);
    MatchingMembers(rs, event);
    assert forall r :: r in result <==> r in multiset(m);
  }

  /** ... and it is the only ordering of them with that property, so it is the
      order JavaScript's stable `sort` produces. */
  lemma EvaluateEventOrderUnique(rs: seq<Rule>, event: Event, q: seq<Rule>)
    requires StableSort.SortedDesc(q, Priority)
    requires forall p :: StableSort.WithKey(q, Priority, p) == StableSort.WithKey(Matching(rs, event), Priority, p)
    ensures q == StableSort.SortDesc(Matching(rs, event), Priority)
  {
    StableSort.SortedDescUnique(q, StableSort.SortDesc(Matching(rs, event), Priority), Priority);
  }

  function CountEnabled(rs: seq<Rule>): nat {
    if rs == [] then 0 else (if rs[0].enabled then 1 else 0) + CountEnabled(rs[1..])
  }

  function SumExecutions(rs: seq<Rule>): nat {
    if rs == [] then 0 else rs[0].stats.executions + SumExecutions(rs[1..])
  }

  function SumErrors(rs: seq<Rule>): nat {
    if rs == [] then 0 else rs[0].stats.errors + SumErrors(rs[1..])
  }

  lemma {:induction false} SumsAppend(rs: seq<Rule>, r: Rule)
    ensures CountEnabled(rs + [r]) == CountEnabled(rs) + (if r.enabled then 1 else 0)
    ensures SumExecutions(rs + [r]) == SumExecutions(rs) + r.stats.executions
    ensures SumErrors(rs + [r]) == SumErrors(rs) + r.stats.errors
  {
    if rs != [] {
      assert (rs + [r])[1..] == rs[1..] + [r];
      SumsAppend(rs[1..], r);
    } else {
      assert [r][1..] == [];
    }
  }

  /** The rule table: `rules` holds the entries of the engine's `Map` from rule id
      to rule, in insertion order. */
  class Engine {
    var rules: seq<(string, Rule)>

    ghost predicate Valid()
      reads this
    {
      JsMap.UniqueKeys(rules) && forall i | 0 <= i < |rules| :: rules[i].1.id == rules[i].0
    }

    constructor ()
      ensures Valid() && rules == []
    {
      rules := [];
    }

    /** `getRules()`: `Array.from(this.rules.values())` */
    method GetRules() returns (rs: seq<Rule>)
      ensures |rs| == |rules| && forall i | 0 <= i < |rules| :: rs[i] == rules[i].1
    {
      rs := JsMap.Values(rules);
    }

    /** `getRule(ruleId)` */
    method GetRule(id: string) returns (r: Option<Rule>)
      requires Valid()
      ensures r.Some? <==> exists i | 0 <= i < |rules| :: rules[i].0 == id
      ensures r.Some? ==> (id, r.value) in rules
    {
      r := JsMap.Get(rules, id);
    }

    /** `addRule(rule)`: throws, changing nothing, when the id, the conditions or
        the actions are missing; otherwise stores the rule under its id, in place
        of an earlier rule with that id. */
    method AddRule(input: RuleInput) returns (r: Outcome<string>)
      requires Valid()
      modifies this
      ensures Valid()
      ensures AddRuleError(input).Some? ==> r == Fail(AddRuleError(input).value)
      ensures AddRuleError(input).None? ==> r == Pass
      ensures r.Fail? ==> rules == old(rules)
      ensures r.Pass? ==> rules == JsMap.Set(old(rules), input.id, NewRule(input))
    {
      var err := AddRuleError(input);
      if err.Some? {
        return Fail(err.value);
      }
      JsMap.SetSpec(rules, input.id, NewRule(input));
      SetKeepsIds(rules, NewRule(input));
      rules := JsMap.Set(rules, input.id, NewRule(input));
      r := Pass;
    }

    /** `removeRule(ruleId)`: whether the id was present. */
    method RemoveRule(id: string) returns (present: bool)
      requires Valid()
      modifies this
      ensures Valid()
      ensures present == JsMap.Has(old(rules), id)
      ensures rules == JsMap.Delete(old(rules), id)
    {
      present := JsMap.Has(rules, id);
      JsMap.DeleteSpec(rules, id);
      DeleteKeepsIds(rules, id);
      rules := JsMap.Delete(rules, id);
    }

    /** `updateRule(ruleId, updates)`: throws on an unknown id and changes nothing;
        otherwise replaces the rule, in place, by the merged one and returns it. */
    method UpdateRule(id: string, patch: RulePatch) returns (r: Result<Rule, string>)
      requires Valid()
      modifies this
      ensures Valid()
      ensures JsMap.Get(old(rules), id).None? ==> r == Err("Rule " + id + " not found") && rules == old(rules)
      ensures JsMap.Get(old(rules), id).Some? ==>
                r == Ok(ApplyPatch(JsMap.Get(old(rules), id).value, patch))
                && rules == JsMap.Set(old(rules), id, r.value)
    {
      var found := JsMap.Find(rules, id);
      if found.None? {
        return Err("Rule " + id + " not found");
      }
      var updated := ApplyPatch(rules[found.value].1, patch);
      ReplaceKeepsIds(rules, found.value, updated);
      rules := rules[found.value := (id, updated)];
      r := Ok(updated);
    }

    /** `setRuleEnabled(ruleId, enabled)` */
    method SetRuleEnabled(id: string, enabled: bool) returns (r: Outcome<string>)
      requires Valid()
      modifies this
      ensures Valid()
      ensures JsMap.Get(old(rules), id).None? ==> r == Fail("Rule " + id + " not found") && rules == old(rules)
      ensures JsMap.Get(old(rules), id).Some? ==>
                r == Pass
                && rules == JsMap.Set(old(rules), id, JsMap.Get(old(rules), id).value.(enabled := enabled))
    {
      var found := JsMap.Find(rules, id);
      if found.None? {
        return Fail("Rule " + id + " not found");
      }
      var updated := rules[found.value].1.(enabled := enabled);
      ReplaceKeepsIds(rules, found.value, updated);
      rules := rules[found.value := (id, updated)];
      r := Pass;
    }

    /** `evaluateEvent(event)`: the enabled rules whose conditions hold, sorted by
        priority; a rule whose evaluation throws is left out and only its own
        error counter goes up. */
    method EvaluateEvent(event: Event) returns (matched: seq<Rule>)
      requires Valid()
      modifies this
      ensures Valid() && rules == Evaluated(old(rules), event)
      ensures matched == StableSort.SortDesc(Matching(JsMap.Values(old(rules)), event), Priority)
    {
      ghost var rs0 := JsMap.Values(rules);
      ghost var rules0 := rules;
      ghost var target := Evaluated(rules, event);
      var found: seq<Rule> := [];
      var i := 0;
      while i < |rules|
        invariant 0 <= i <= |rules| == |rules0|
        invariant forall k | 0 <= k < i :: rules[k] == target[k]
        invariant forall k | i <= k < |rules| :: rules[k] == rules0[k]
        invariant found == Matching(rs0[..i], event)
      {
        var (id, rule) := rules[i];
        MatchingPrefix(rs0, i, event);
        if rule.enabled {
          var outcome := EvaluateConditions(rule.conditions, event);
          if outcome.Err? {
            rules := rules[i := (id, rule.(stats := rule.stats.(errors := rule.stats.errors + 1)))];
          } else if outcome.value {
            found := found + [rule];
          }
        }
        assert rules[i] == target[i];
        i := i + 1;
      }
      assert rules == target;
      assert rs0[..i] == rs0;
      EvaluatedKeepsKeys(rules0, event);
      matched := StableSort.SortDesc(found, Priority);
    }

    /** `updateRuleStats(ruleId, success)`; `now` stands for the current time. */
    method UpdateRuleStats(id: string, success: bool, now: int)
      requires Valid()
      modifies this
      ensures Valid()
      ensures JsMap.Get(old(rules), id).None? ==> rules == old(rules)
      ensures JsMap.Get(old(rules), id).Some? ==>
                var rule := JsMap.Get(old(rules), id).value;
                rules == JsMap.Set(old(rules), id, rule.(stats := RuleStats(
                  rule.stats.executions + 1, Some(now),
                  if success then rule.stats.errors else rule.stats.errors + 1)))
    {
      var found := JsMap.Find(rules, id);
      if found.Some? {
        var rule := rules[found.value].1;
        var s := rule.stats;
        var updated := rule.(stats := RuleStats(s.executions + 1, Some(now),
                                                if success then s.errors else s.errors + 1));
        ReplaceKeepsIds(rules, found.value, updated);
        rules := rules[found.value := (id, updated)];
      }
    }

    /** `getStats()` */
    method GetStats() returns (totalRules: nat, enabledRules: nat, totalExecutions: nat, totalErrors: nat)
      ensures totalRules == |rules|
      ensures enabledRules == CountEnabled(JsMap.Values(rules))
      ensures totalExecutions == SumExecutions(JsMap.Values(rules))
      ensures totalErrors == SumErrors(JsMap.Values(rules))
    {
      ghost var rs := JsMap.Values(rules);
      enabledRules, totalExecutions, totalErrors := 0, 0, 0;
      var i := 0;
      while i < |rules|
        invariant 0 <= i <= |rules|
        invariant enabledRules == CountEnabled(rs[..i])
        invariant totalExecutions == SumExecutions(rs[..i])
        invariant totalErrors == SumErrors(rs[..i])
      {
        var rule := rules[i].1;
        assert rs[..i + 1] == rs[..i] + [rule];
        SumsAppend(rs[..i], rule);
        if rule.enabled {
          enabledRules := enabledRules + 1;
        }
        totalExecutions := totalExecutions + rule.stats.executions;
        totalErrors := totalErrors + rule.stats.errors;
        i := i + 1;
      }
      assert rs[..i] == rs;
      totalRules := |rules|;
    }
  }

  /** Storing a rule under its own id keeps every entry keyed by its rule's id. */
  lemma SetKeepsIds(m: seq<(string, Rule)>, r: Rule)
    requires forall i | 0 <= i < |m| :: m[i].1.id == m[i].0
    ensures var s := JsMap.Set(m, r.id, r); forall i | 0 <= i < |s| :: s[i].1.id == s[i].0
  {
  }

  lemma DeleteKeepsIds(m: seq<(string, Rule)>, id: string)
    requires forall i | 0 <= i < |m| :: m[i].1.id == m[i].0
    ensures var d := JsMap.Delete(m, id); forall i | 0 <= i < |d| :: d[i].1.id == d[i].0
  {
    match JsMap.Find(m, id)
    case None =>
    case Some(i) => JsMap.RemoveAt(m, i);
  }

  /** Replacing the rule at position `i` by one with the same id keeps the table
      valid; it is `set` on that id. */
  lemma ReplaceKeepsIds(m: seq<(string, Rule)>, i: nat, r: Rule)
    requires JsMap.UniqueKeys(m) && forall k | 0 <= k < |m| :: m[k].1.id == m[k].0
    requires i < |m| && r.id == m[i].0
    ensures var s := m[i := (m[i].0, r)];
            JsMap.UniqueKeys(s) && (forall k | 0 <= k < |s| :: s[k].1.id == s[k].0)
            && s == JsMap.Set(m, m[i].0, r)
  {
    JsMap.ReplaceKeepsUnique(m, i, r);
    JsMap.FindUnique(m, m[i].0, i);
  }

  lemma {:induction false} MatchingAppend(rs: seq<Rule>, r: Rule, event: Event)
    ensures Matching(rs + [r], event) == Matching(rs, event) + (if Hits(r, event) then [r] else [])
  {
    if rs == [] {
      assert [r][1..] == [];
    } else {
      assert (rs + [r])[1..] == rs[1..] + [r];
      MatchingAppend(rs[1..], r, event);
    }
  }

  lemma MatchingPrefix(rs: seq<Rule>, i: nat, event: Event)
    requires i < |rs|
    ensures Matching(rs[..i + 1], event)
            == Matching(rs[..i], event) + (if Hits(rs[i], event) then [rs[i]] else [])
  {
    assert rs[..i + 1] == rs[..i] + [rs[i]];
    MatchingAppend(rs[..i], rs[i], event);
  }
}
