/** The automation event bus: listeners registered per event name and kept in
    descending priority order, a history of the most recent events (newest
    first) and three counters.  A handler is not code here: `Emit` is told by a
    parameter whether each handler completes or throws. */
module EventBus {
  import opened Wrappers
  import opened JsValue
  import JsMap
  import StableSort

  /** A registered listener.  `pattern` is the event name it was registered
      under; names are matched exactly. */
  datatype Listener = Listener(id: string, pattern: string, priority: int, once: bool)

  datatype BusEvent = BusEvent(name: string, data: Value, timestamp: int, id: string)

  datatype Stats = Stats(eventsEmitted: nat, eventsProcessed: nat, errors: nat,
                         activeListeners: nat, eventTypes: nat)

  /** `historyLimit` */
  const HistoryLimit: nat := 1000

  function PriorityOf(l: Listener): int {
    l.priority
  }

  /** The `listeners` map: event name to the handlers registered for it. */
  type Table = seq<(string, seq<Listener>)>

  /** What the bus keeps true of its table: one entry per name, no entry with an
      empty list (`off` deletes those), every list in descending priority order. */
  predicate WellFormed(m: Table) {
    && JsMap.UniqueKeys(m)
    && forall i | 0 <= i < |m| :: m[i].1 != [] && StableSort.SortedDesc(m[i].1, PriorityOf)
  }

  /** `this.listeners.get(name) || []` */
  function Handlers(m: Table, name: string): seq<Listener> {
    JsMap.Get(m, name).GetOr([])
  }

  /** The number of listeners in all lists (`activeListeners`). */
  function TotalListeners(m: Table): nat {
    if m == [] then 0 else |m[0].1| + TotalListeners(m[1..])
  }

  /** Stores a list under a name, or deletes the name when the list is empty. */
  function Install(m: Table, name: string, hs: seq<Listener>): Table {
    if hs == [] then JsMap.Delete(m, name) else JsMap.Set(m, name, hs)
  }

  // ---------------------------------------------------------------- on

  /** The table after `on(l.pattern, handler, {priority, once, id})`: the listener
      is pushed on its name's list, which is then sorted by descending priority. */
  function Subscribe(m: Table, l: Listener): (r: Table)
    ensures |r| == |m| || |r| == |m| + 1
    ensures forall i | 0 <= i < |m| && m[i].0 != l.pattern :: r[i] == m[i]
  {
    JsMap.Set(m, l.pattern, StableSort.SortDesc(Handlers(m, l.pattern) + [l], PriorityOf))
  }

  /** `on` keeps the table well formed, adds exactly the new listener to its
      name's list, places it after every listener of equal priority (the sort is
      stable), leaves every other name alone and counts one more listener. */
  lemma SubscribeSpec(m: Table, l: Listener)
    requires WellFormed(m)
    ensures WellFormed(Subscribe(m, l))
    ensures multiset(Handlers(Subscribe(m, l), l.pattern)) == multiset(Handlers(m, l.pattern)) + multiset{l}
    ensures forall p :: StableSort.WithKey(Handlers(Subscribe(m, l), l.pattern), PriorityOf, p)
                        == StableSort.WithKey(Handlers(m, l.pattern), PriorityOf, p)
                           + (if l.priority == p then [l] else [])
    ensures forall k | k != l.pattern :: JsMap.Get(Subscribe(m, l), k) == JsMap.Get(m, k)
    ensures TotalListeners(Subscribe(m, l)) == TotalListeners(m) + 1
  {
    var hs := Handlers(m, l.pattern);
    var sorted := StableSort.SortDesc(hs + [l], PriorityOf);
    StableSort.AppendThenSort(hs, l, PriorityOf);
    assert |sorted| > 0 by {
      assert l in multiset(hs + [l]);
    }
    SetWellFormed(m, l.pattern, sorted);
    JsMap.SetSpec(m, l.pattern, sorted);
    TotalSet(m, l.pattern, sorted);
    assert |sorted| == |hs + [l]| by {
      assert |sorted| == |multiset(sorted)| == |multiset(hs + [l])| == |hs + [l]|;
    }
  }

  // ---------------------------------------------------------------- off

  /** The position of the first listener with the given id (`findIndex`). */
  function IndexOfId(hs: seq<Listener>, id: string): (r: Option<nat>)
    ensures r.Some? ==> r.value < |hs| && hs[r.value].id == id
                        && forall j | 0 <= j < r.value :: hs[j].id != id
    ensures r.None? ==> forall j | 0 <= j < |hs| :: hs[j].id != id
  {
    if hs == [] then None
    else if hs[0].id == id then Some(0)
    else match IndexOfId(hs[1..], id)
         case Some(i) => Some(i + 1)
         case None => None
  }

  /** The list without its first listener with the given id (`splice(index, 1)`). */
  function RemoveFirst(hs: seq<Listener>, id: string): seq<Listener> {
    match IndexOfId(hs, id)
    case Some(i) => hs[..i] + hs[i + 1..]
    case None => hs
  }

  /** What `off(name, id)` returns and the table after it. */
  function Unsubscribe(m: Table, name: string, id: string): (r: (bool, Table))
    ensures |r.1| <= |m|
    ensures !r.0 ==> r.1 == m
    ensures r.0 ==> JsMap.Has(m, name)
  {
    match JsMap.Get(m, name)
    case None => (false, m)
    case Some(hs) =>
      if IndexOfId(hs, id).None? then (false, m)
      else (true, Install(m, name, RemoveFirst(hs, id)))
  }

  /** `off` succeeds exactly when a listener with the id is registered under the
      name; it then removes the first such listener and nothing else, deleting the
      name once its list is empty; otherwise the table is unchanged. */
  lemma UnsubscribeSpec(m: Table, name: string, id: string)
    requires WellFormed(m)
    ensures WellFormed(Unsubscribe(m, name, id).1)
    ensures var hs := Handlers(m, name);
            Unsubscribe(m, name, id).0 <==> exists j | 0 <= j < |hs| :: hs[j].id == id
    ensures var hs := Handlers(m, name);
            var m' := Unsubscribe(m, name, id).1;
            Unsubscribe(m, name, id).0 ==>
              && (exists i | 0 <= i < |hs| :: && hs[i].id == id
                                               && (forall j | 0 <= j < i :: hs[j].id != id)
                                               && Handlers(m', name) == hs[..i] + hs[i + 1..])
              && (JsMap.Has(m', name) <==> |hs| > 1)
              && TotalListeners(m') == TotalListeners(m) - 1
    ensures !Unsubscribe(m, name, id).0 ==> Unsubscribe(m, name, id).1 == m
    ensures forall k | k != name :: JsMap.Get(Unsubscribe(m, name, id).1, k) == JsMap.Get(m, k)
  {
    var hs := Handlers(m, name);
    match JsMap.Get(m, name)
    case None =>
    case Some(_) =>
      match IndexOfId(hs, id)
      case None =>
      case Some(i) =>
        var f := JsMap.Find(m, name).value;
        var rest := RemoveFirst(hs, id);
        RemoveKeepsSorted(hs, i);
        if rest == [] {
          JsMap.DeleteSpec(m, name);
          DeleteWellFormed(m, name);
          TotalRemoveAt(m, f);
        } else {
          JsMap.SetSpec(m, name, rest);
          SetWellFormed(m, name, rest);
          TotalSet(m, name, rest);
        }
  }

  // ---------------------------------------------------------------- emit

  /** The history after recording `e`: `unshift`, then `pop` past the limit. */
  function Recorded(h: seq<BusEvent>, e: BusEvent): (r: seq<BusEvent>)
    requires |h| <= HistoryLimit
    ensures |r| == if |h| < HistoryLimit then |h| + 1 else HistoryLimit
    ensures r[0] == e && r[1..] == h[..|r| - 1]
  {
    var h' := [e] + h;
    if |h'| > HistoryLimit then h'[..|h'| - 1] else h'
  }

  /** The number of handlers that complete. */
  function CountOk(hs: seq<Listener>, ok: Listener -> bool): nat {
    if hs == [] then 0 else (if ok(hs[0]) then 1 else 0) + CountOk(hs[1..], ok)
  }

  /** `toRemove`: the ids of the `once` listeners whose handler completed, in
      dispatch order. */
  function OnceDone(hs: seq<Listener>, ok: Listener -> bool): seq<string> {
    if hs == [] then []
    else (if ok(hs[0]) && hs[0].once then [hs[0].id] else []) + OnceDone(hs[1..], ok)
  }

  /** The listeners that stay registered: all but the completed `once` ones. */
  function Kept(hs: seq<Listener>, ok: Listener -> bool): (r: seq<Listener>)
    ensures forall x :: x in r <==> x in hs && !(ok(x) && x.once)
  {
    if hs == [] then []
    else
      var rest := Kept(hs[1..], ok);
      assert forall x :: x in hs <==> x == hs[0] || x in hs[1..];
      (if ok(hs[0]) && hs[0].once then [] else [hs[0]]) + rest
  }

  /** `toRemove.forEach(id => this.off(name, id))` */
  function OffAll(m: Table, name: string, ids: seq<string>): Table
    decreases |ids|
  {
    if ids == [] then m else OffAll(Unsubscribe(m, name, ids[0]).1, name, ids[1..])
  }

  /** The same removals on the list alone. */
  function RemoveIds(hs: seq<Listener>, ids: seq<string>): seq<Listener>
    decreases |ids|
  {
    if ids == [] then hs else RemoveIds(RemoveFirst(hs, ids[0]), ids[1..])
  }

  predicate UniqueIds(hs: seq<Listener>) {
    forall i, j | 0 <= i < j < |hs| :: hs[i].id != hs[j].id
  }

  /** After an emit whose listeners have distinct ids, exactly the `once`
      listeners whose handler completed are gone: the others stay in their order,
      and the name disappears when none is left.  Every other name is untouched. */
  lemma EmitRemovesCompletedOnce(m: Table, name: string, ok: Listener -> bool)
    requires WellFormed(m) && UniqueIds(Handlers(m, name))
    ensures OffAll(m, name, OnceDone(Handlers(m, name), ok)) == Install(m, name, Kept(Handlers(m, name), ok))
  {
    var hs := Handlers(m, name);
    if JsMap.Has(m, name) {
      OffAllSpec(m, name, OnceDone(hs, ok));
      RemoveOnceDone(hs, ok);
    } else {
      assert hs == [];
    }
  }

  /** One `off` on a name that has listeners is one list removal. */
  lemma UnsubscribeAsInstall(m: Table, name: string, id: string)
    requires WellFormed(m) && JsMap.Has(m, name)
    ensures Unsubscribe(m, name, id).1 == Install(m, name, RemoveFirst(Handlers(m, name), id))
  {
    var hs := Handlers(m, name);
    if IndexOfId(hs, id).None? {
      JsMap.SetExisting(m, JsMap.Find(m, name).value);
    }
  }

  lemma {:induction false} OffAllMissing(m: Table, name: string, ids: seq<string>)
    requires !JsMap.Has(m, name)
    ensures OffAll(m, name, ids) == m
    decreases |ids|
  {
    if ids != [] {
      OffAllMissing(m, name, ids[1..]);
    }
  }

  lemma {:induction false} RemoveIdsEmpty(ids: seq<string>)
    ensures RemoveIds([], ids) == []
    decreases |ids|
  {
    if ids != [] {
      RemoveIdsEmpty(ids[1..]);
    }
  }

  /** A run of `off` calls on one name does to the table what the list removals
      do to that name's list. */
  lemma {:induction false} OffAllSpec(m: Table, name: string, ids: seq<string>)
    requires WellFormed(m) && JsMap.Has(m, name)
    ensures OffAll(m, name, ids) == Install(m, name, RemoveIds(Handlers(m, name), ids))
    decreases |ids|
  {
    var hs := Handlers(m, name);
    if ids == [] {
      JsMap.SetExisting(m, JsMap.Find(m, name).value);
    } else {
      var l1 := RemoveFirst(hs, ids[0]);
      var m1 := Unsubscribe(m, name, ids[0]).1;
      UnsubscribeAsInstall(m, name, ids[0]);
      UnsubscribeSpec(m, name, ids[0]);
      if l1 == [] {
        JsMap.DeleteSpec(m, name);
        OffAllMissing(m1, name, ids[1..]);
        RemoveIdsEmpty(ids[1..]);
      } else {
        JsMap.SetSpec(m, name, l1);
        OffAllSpec(m1, name, ids[1..]);
        JsMap.SetTwice(m, name, l1, RemoveIds(l1, ids[1..]));
        JsMap.DeleteAfterSet(m, name, l1);
      }
    }
  }

  lemma RemoveFirstHead(hs: seq<Listener>)
    requires hs != []
    ensures RemoveFirst(hs, hs[0].id) == hs[1..]
  {
  }

  lemma RemoveFirstPastHead(hs: seq<Listener>, id: string)
    requires hs != [] && hs[0].id != id
    ensures RemoveFirst(hs, id) == [hs[0]] + RemoveFirst(hs[1..], id)
  {
    match IndexOfId(hs[1..], id)
    case None =>
      assert IndexOfId(hs, id).None?;
    case Some(i) =>
      assert IndexOfId(hs, id) == Some(i + 1);
      assert RemoveFirst(hs, id) == hs[..i + 1] + hs[i + 2..];
      assert RemoveFirst(hs[1..], id) == hs[1..][..i] + hs[1..][i + 1..];
      assert hs[..i + 1] == [hs[0]] + hs[1..][..i];
      assert hs[i + 2..] == hs[1..][i + 1..];
  }

  /** Removing ids that the head does not carry leaves the head in front. */
  lemma {:induction false} RemoveIdsPastHead(hs: seq<Listener>, ids: seq<string>)
    requires hs != [] && forall j | 0 <= j < |ids| :: ids[j] != hs[0].id
    ensures RemoveIds(hs, ids) == [hs[0]] + RemoveIds(hs[1..], ids)
    decreases |ids|
  {
    if ids != [] {
      RemoveFirstPastHead(hs, ids[0]);
      var t := RemoveFirst(hs, ids[0]);
      assert t[0] == hs[0] && t[1..] == RemoveFirst(hs[1..], ids[0]);
      RemoveIdsPastHead(t, ids[1..]);
    }
  }

  lemma {:induction false} OnceDoneIds(hs: seq<Listener>, ok: Listener -> bool)
    ensures forall x | x in OnceDone(hs, ok) :: exists k | 0 <= k < |hs| :: hs[k].id == x
  {
    if hs != [] {
      OnceDoneIds(hs[1..], ok);
      forall x | x in OnceDone(hs, ok) ensures exists k | 0 <= k < |hs| :: hs[k].id == x {
        if x !in OnceDone(hs[1..], ok) {
          assert hs[0].id == x;
        } else {
          var k :| 0 <= k < |hs[1..]| && hs[1..][k].id == x;
          assert hs[k + 1].id == x;
        }
      }
    }
  }

  lemma UniqueIdsTail(hs: seq<Listener>)
    requires hs != [] && UniqueIds(hs)
    ensures UniqueIds(hs[1..])
    ensures forall k | 0 <= k < |hs[1..]| :: hs[1..][k].id != hs[0].id
  {
    var t := hs[1..];
    forall i, j | 0 <= i < j < |t| ensures t[i].id != t[j].id {
      assert t[i] == hs[i + 1] && t[j] == hs[j + 1];
    }
    forall k | 0 <= k < |t| ensures t[k].id != hs[0].id {
      assert t[k] == hs[k + 1];
    }
  }

  /** The ids removed after the head are not the head's own. */
  lemma OnceDoneMissesHead(hs: seq<Listener>, ok: Listener -> bool)
    requires hs != [] && UniqueIds(hs)
    ensures forall j | 0 <= j < |OnceDone(hs[1..], ok)| :: OnceDone(hs[1..], ok)[j] != hs[0].id
  {
    var t := hs[1..];
    UniqueIdsTail(hs);
    OnceDoneIds(t, ok);
    var ids := OnceDone(t, ok);
    forall j | 0 <= j < |ids| ensures ids[j] != hs[0].id {
      assert ids[j] in ids;
    }
  }

  /** Removing the ids of the completed `once` listeners, one at a time, from a
      list whose ids are distinct leaves the other listeners in their order. */
  lemma {:induction false} RemoveOnceDone(hs: seq<Listener>, ok: Listener -> bool)
    requires UniqueIds(hs)
    ensures RemoveIds(hs, OnceDone(hs, ok)) == Kept(hs, ok)
  {
    if hs != [] {
      var t := hs[1..];
      UniqueIdsTail(hs);
      RemoveOnceDone(t, ok);
      if ok(hs[0]) && hs[0].once {
        RemoveFirstHead(hs);
        assert OnceDone(hs, ok) == [hs[0].id] + OnceDone(t, ok);
      } else {
        OnceDoneMissesHead(hs, ok);
        assert OnceDone(hs, ok) == OnceDone(t, ok);
        RemoveIdsPastHead(hs, OnceDone(t, ok));
      }
    }
  }

  // ---------------------------------------------------------------- stats

  /** Every name holds at least one listener, so there are at least as many
      listeners as names. */
  lemma {:induction false} ListenersAtLeastNames(m: Table)
    requires WellFormed(m)
    ensures TotalListeners(m) >= |m|
  {
    if m != [] {
      assert WellFormed(m[1..]) by {
        var t := m[1..];
        forall i, j | 0 <= i < j < |t| ensures t[i].0 != t[j].0 {
          assert t[i] == m[i + 1] && t[j] == m[j + 1];
        }
      }
      ListenersAtLeastNames(m[1..]);
    }
  }

  // ---------------------------------------------------------------- table helpers

  lemma SetWellFormed(m: Table, name: string, hs: seq<Listener>)
    requires WellFormed(m) && hs != [] && StableSort.SortedDesc(hs, PriorityOf)
    ensures WellFormed(JsMap.Set(m, name, hs))
  {
    JsMap.SetSpec(m, name, hs);
  }

  lemma DeleteWellFormed(m: Table, name: string)
    requires WellFormed(m)
    ensures WellFormed(JsMap.Delete(m, name))
  {
    JsMap.DeleteSpec(m, name);
    match JsMap.Find(m, name)
    case None =>
    case Some(i) => JsMap.RemoveAt(m, i);
  }

  lemma RemoveKeepsSorted(hs: seq<Listener>, i: nat)
    requires i < |hs| && StableSort.SortedDesc(hs, PriorityOf)
    ensures StableSort.SortedDesc(hs[..i] + hs[i + 1..], PriorityOf)
    ensures |hs[..i] + hs[i + 1..]| == |hs| - 1
  {
    var d := hs[..i] + hs[i + 1..];
    assert forall j | 0 <= j < |d| :: d[j] == if j < i then hs[j] else hs[j + 1];
  }

  lemma {:induction false} TotalAppend(m: Table, e: (string, seq<Listener>))
    ensures TotalListeners(m + [e]) == TotalListeners(m) + |e.1|
  {
    if m != [] {
      assert (m + [e])[1..] == m[1..] + [e];
      TotalAppend(m[1..], e);
    }
  }

  lemma {:induction false} TotalUpdate(m: Table, i: nat, e: (string, seq<Listener>))
    requires i < |m|
    ensures TotalListeners(m[i := e]) == TotalListeners(m) - |m[i].1| + |e.1|
  {
    if i > 0 {
      assert m[i := e][1..] == m[1..][i - 1 := e];
      TotalUpdate(m[1..], i - 1, e);
    }
  }

  lemma {:induction false} TotalRemoveAt(m: Table, i: nat)
    requires i < |m|
    ensures TotalListeners(m[..i] + m[i + 1..]) == TotalListeners(m) - |m[i].1|
  {
    if i > 0 {
      assert (m[..i] + m[i + 1..])[1..] == m[1..][..i - 1] + m[1..][i..];
      TotalRemoveAt(m[1..], i - 1);
    } else {
      assert m[..0] + m[1..] == m[1..];
    }
  }

  lemma TotalSet(m: Table, name: string, hs: seq<Listener>)
    requires JsMap.UniqueKeys(m)
    ensures TotalListeners(JsMap.Set(m, name, hs)) == TotalListeners(m) - |Handlers(m, name)| + |hs|
  {
    match JsMap.Find(m, name)
    case Some(i) => TotalUpdate(m, i, (name, hs));
    case None => TotalAppend(m, (name, hs));
  }

  // ---------------------------------------------------------------- the bus

  class Bus {
    var listeners: Table
    var history: seq<BusEvent>
    var eventsEmitted: nat
    var eventsProcessed: nat
    var errors: nat

    predicate Valid()
      reads this
    {
      WellFormed(listeners) && |history| <= HistoryLimit
    }

    constructor ()
      ensures Valid()
      ensures listeners == [] && history == []
      ensures eventsEmitted == 0 && eventsProcessed == 0 && errors == 0
    {
      listeners := [];
      history := [];
      eventsEmitted := 0;
      eventsProcessed := 0;
      errors := 0;
    }

    /** `on(pattern, handler, {priority, once, id})`; the id is a parameter (the
        default one is generated from the clock and a random number). */
    method On(pattern: string, id: string, priority: int, once: bool) returns (r: string)
      requires Valid()
      modifies this
      ensures Valid()
      ensures r == id
      ensures listeners == Subscribe(old(listeners), Listener(id, pattern, priority, once))
      ensures history == old(history) && eventsEmitted == old(eventsEmitted)
      ensures eventsProcessed == old(eventsProcessed) && errors == old(errors)
    {
      var listener := Listener(id, pattern, priority, once);
      SubscribeSpec(listeners, listener);
      ghost var m0 := listeners;
      if !JsMap.Has(listeners, pattern) {
        JsMap.SetSpec(listeners, pattern, []);
        listeners := JsMap.Set(listeners, pattern, []);
      }
      var handlers := JsMap.Get(listeners, pattern).value;
      handlers := handlers + [listener];
      handlers := StableSort.SortDesc(handlers, PriorityOf);
      JsMap.SetTwice(m0, pattern, [], handlers);
      listeners := JsMap.Set(listeners, pattern, handlers);
      return id;
    }

    /** `once(pattern, handler, options)` */
    method Once(pattern: string, id: string, priority: int) returns (r: string)
      requires Valid()
      modifies this
      ensures Valid()
      ensures r == id
      ensures listeners == Subscribe(old(listeners), Listener(id, pattern, priority, true))
      ensures history == old(history) && eventsEmitted == old(eventsEmitted)
      ensures eventsProcessed == old(eventsProcessed) && errors == old(errors)
    {
      r := On(pattern, id, priority, true);
    }

    /** `off(pattern, id)` */
    method Off(pattern: string, id: string) returns (removed: bool)
      requires Valid()
      modifies this
      ensures Valid()
      ensures (removed, listeners) == Unsubscribe(old(listeners), pattern, id)
      ensures history == old(history) && eventsEmitted == old(eventsEmitted)
      ensures eventsProcessed == old(eventsProcessed) && errors == old(errors)
    {
      UnsubscribeSpec(listeners, pattern, id);
      var handlers := JsMap.Get(listeners, pattern);
      if handlers.None? {
        return false;
      }
      var index := IndexOfId(handlers.value, id);
      if index.None? {
        return false;
      }
      var rest := handlers.value[..index.value] + handlers.value[index.value + 1..];
      if rest == [] {
        listeners := JsMap.Delete(listeners, pattern);
      } else {
        listeners := JsMap.Set(listeners, pattern, rest);
      }
      return true;
    }

    /** `emit(name, data)`: the event is recorded, each handler registered under
        the name is run in order (`ok` tells whether it completes or throws), and
        the `once` listeners whose handler completed are then removed with `off`.
        The timestamp and the event id are parameters. */
    method Emit(name: string, data: Value, timestamp: int, eventId: string, ok: Listener -> bool)
      requires Valid()
      modifies this
      ensures Valid()
      ensures eventsEmitted == old(eventsEmitted) + 1
      ensures history == Recorded(old(history), BusEvent(name, data, timestamp, eventId))
      ensures eventsProcessed == old(eventsProcessed) + CountOk(Handlers(old(listeners), name), ok)
      ensures errors + CountOk(Handlers(old(listeners), name), ok)
              == old(errors) + |Handlers(old(listeners), name)|
      ensures listeners == OffAll(old(listeners), name, OnceDone(Handlers(old(listeners), name), ok))
    {
      eventsEmitted := eventsEmitted + 1;
      var event := BusEvent(name, data, timestamp, eventId);
      history := [event] + history;
      if |history| > HistoryLimit {
        history := history[..|history| - 1];
      }
      assert history == Recorded(old(history), event);
      var handlers := Handlers(listeners, name);
      var toRemove := Dispatch(handlers, ok);
      OffEach(name, toRemove);
    }

    /** The `for (const listener of handlers)` loop of `emit`: counts each handler
        that completes or throws and collects the ids of the completed `once`
        listeners. */
    method Dispatch(handlers: seq<Listener>, ok: Listener -> bool) returns (toRemove: seq<string>)
      modifies this
      ensures toRemove == OnceDone(handlers, ok)
      ensures eventsProcessed == old(eventsProcessed) + CountOk(handlers, ok)
      ensures errors + CountOk(handlers, ok) == old(errors) + |handlers|
      ensures listeners == old(listeners) && history == old(history)
      ensures eventsEmitted == old(eventsEmitted)
    {
      toRemove := [];
      var i := 0;
      while i < |handlers|
        invariant 0 <= i <= |handlers|
        invariant eventsProcessed + CountOk(handlers[i..], ok) == old(eventsProcessed) + CountOk(handlers, ok)
        invariant errors + CountOk(handlers[..i], ok) == old(errors) + i
        invariant toRemove + OnceDone(handlers[i..], ok) == OnceDone(handlers, ok)
        invariant listeners == old(listeners) && history == old(history)
        invariant eventsEmitted == old(eventsEmitted)
      {
        var listener := handlers[i];
        CountOkSnoc(handlers, i, ok);
        OnceDoneStep(handlers, i, ok);
        if ok(listener) {
          eventsProcessed := eventsProcessed + 1;
          if listener.once {
            assert (toRemove + [listener.id]) + OnceDone(handlers[i + 1..], ok)
                   == toRemove + OnceDone(handlers[i..], ok);
            toRemove := toRemove + [listener.id];
          } else {
            assert OnceDone(handlers[i..], ok) == OnceDone(handlers[i + 1..], ok);
          }
        } else {
          assert OnceDone(handlers[i..], ok) == OnceDone(handlers[i + 1..], ok);
          errors := errors + 1;
        }
        i := i + 1;
      }
      assert handlers[..i] == handlers;
      assert handlers[i..] == [];
    }

    /** `toRemove.forEach(id => this.off(name, id))` */
    method OffEach(name: string, ids: seq<string>)
      requires Valid()
      modifies this
      ensures Valid()
      ensures listeners == OffAll(old(listeners), name, ids)
      ensures history == old(history) && eventsEmitted == old(eventsEmitted)
      ensures eventsProcessed == old(eventsProcessed) && errors == old(errors)
    {
      var j := 0;
      while j < |ids|
        invariant 0 <= j <= |ids| && Valid()
        invariant OffAll(listeners, name, ids[j..]) == OffAll(old(listeners), name, ids)
        invariant history == old(history) && eventsEmitted == old(eventsEmitted)
        invariant eventsProcessed == old(eventsProcessed) && errors == old(errors)
      {
        OffAllStep(listeners, name, ids, j);
        var _ := Off(name, ids[j]);
        j := j + 1;
      }
    }

    /** `getHistory(limit)`: `history.slice(0, limit)`, the newest events first. */
    function GetHistory(limit: int): (r: seq<BusEvent>)
      reads this
      ensures |r| <= |history| && r == history[..|r|]
      ensures limit >= 0 ==> |r| == if limit < |history| then limit else |history|
      ensures limit < 0 ==> |r| == if |history| + limit > 0 then |history| + limit else 0
    {
      var end := if limit < 0 then (if |history| + limit > 0 then |history| + limit else 0)
                 else if limit < |history| then limit else |history|;
      history[..end]
    }

    /** `getStats()` */
    function GetStats(): (s: Stats)
      reads this
      requires Valid()
      ensures s.eventTypes == |listeners| && s.activeListeners == TotalListeners(listeners)
      ensures s.activeListeners >= s.eventTypes
      ensures s.eventsEmitted == eventsEmitted && s.eventsProcessed == eventsProcessed
      ensures s.errors == errors
    {
      ListenersAtLeastNames(listeners);
      Stats(eventsEmitted, eventsProcessed, errors, TotalListeners(listeners), |listeners|)
    }

    /** `clear()`: drops every listener; the history and the counters stay. */
    method Clear()
      requires Valid()
      modifies this
      ensures Valid()
      ensures listeners == []
      ensures history == old(history) && eventsEmitted == old(eventsEmitted)
      ensures eventsProcessed == old(eventsProcessed) && errors == old(errors)
    {
      listeners := [];
    }
  }

  lemma {:induction false} CountOkSnoc(hs: seq<Listener>, i: nat, ok: Listener -> bool)
    requires i < |hs|
    ensures CountOk(hs[..i + 1], ok) == CountOk(hs[..i], ok) + (if ok(hs[i]) then 1 else 0)
    ensures CountOk(hs[i..], ok) == (if ok(hs[i]) then 1 else 0) + CountOk(hs[i + 1..], ok)
  {
    assert hs[i..][1..] == hs[i + 1..];
    if i > 0 {
      CountOkSnoc(hs[1..], i - 1, ok);
      assert hs[..i + 1][1..] == hs[1..][..i];
      assert hs[..i][1..] == hs[1..][..i - 1];
    }
  }

  lemma OnceDoneStep(hs: seq<Listener>, i: nat, ok: Listener -> bool)
    requires i < |hs|
    ensures OnceDone(hs[i..], ok)
            == (if ok(hs[i]) && hs[i].once then [hs[i].id] else []) + OnceDone(hs[i + 1..], ok)
  {
    assert hs[i..][1..] == hs[i + 1..];
  }

  lemma OffAllStep(m: Table, name: string, ids: seq<string>, j: nat)
    requires j < |ids|
    ensures OffAll(m, name, ids[j..]) == OffAll(Unsubscribe(m, name, ids[j]).1, name, ids[j + 1..])
  {
    assert ids[j..][0] == ids[j] && ids[j..][1..] == ids[j + 1..];
  }
}
