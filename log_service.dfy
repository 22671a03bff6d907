/** The automation log: a bounded first-in first-out buffer of entries, each
    stamped with the time it was pushed. */
module LogService {
  import opened Wrappers
  import opened JsValue
  import JsMap

  /** The buffer's capacity: a size of zero or below keeps nothing. */
  function Capacity(size: int): nat {
    if size > 0 then size else 0
  }

  /** `Object.assign`-style copy of properties: an existing key keeps its place
      and takes the new value, a new key is appended (array-index keys are not
      moved to the front). */
  function Assign(fields: seq<(string, Value)>, entries: seq<(string, Value)>): seq<(string, Value)>
    decreases |entries|
  {
    if entries == [] then fields
    else Assign(JsMap.Set(fields, entries[0].0, entries[0].1), entries[1..])
  }

  /** The value the last entry with key `k` carries. */
  function LastOf(entries: seq<(string, Value)>, k: string): Option<Value>
    decreases |entries|
  {
    if entries == [] then None
    else match LastOf(entries[1..], k)
         case Some(v) => Some(v)
         case None => if entries[0].0 == k then Some(entries[0].1) else None
  }

  /** `{ ts: now, ...entry }` */
  function Stamp(now: int, entry: Value): Value {
    Obj(Assign([("ts", Num(now))], OwnEntries(entry)))
  }

  /** After assigning, a key reads as its last assigned value, or as before when
      it was not assigned; keys stay unique and the first key keeps its place. */
  lemma {:induction false} AssignSpec(fields: seq<(string, Value)>, entries: seq<(string, Value)>, k: string)
    requires JsMap.UniqueKeys(fields)
    ensures JsMap.UniqueKeys(Assign(fields, entries))
    ensures JsMap.Get(Assign(fields, entries), k)
            == match LastOf(entries, k) case Some(v) => Some(v) case None => JsMap.Get(fields, k)
    ensures fields != [] ==> Assign(fields, entries) != [] && Assign(fields, entries)[0].0 == fields[0].0
    decreases |entries|
  {
    if entries != [] {
      var f := JsMap.Set(fields, entries[0].0, entries[0].1);
      JsMap.SetSpec(fields, entries[0].0, entries[0].1);
      AssignSpec(f, entries[1..], k);
      if fields != [] {
        match JsMap.Find(fields, entries[0].0)
        case Some(i) =>
        case None =>
      }
    }
  }

  /** The stamped entry is an object; when the entry has no array-index key,
      its first property is `ts`.  `ts` holds the push time unless the entry
      brings its own `ts`, and every other property is the entry's own. */
  lemma StampSpec(now: int, entry: Value, k: string)
    ensures (forall i | 0 <= i < |OwnEntries(entry)| :: !IsArrayIndex(OwnEntries(entry)[i].0)) ==>
              Stamp(now, entry).fields != [] && Stamp(now, entry).fields[0].0 == "ts"
    ensures JsMap.Get(Stamp(now, entry).fields, "ts")
            == match LastOf(OwnEntries(entry), "ts") case Some(v) => Some(v) case None => Some(Num(now))
    ensures k != "ts" ==> JsMap.Get(Stamp(now, entry).fields, k) == LastOf(OwnEntries(entry), k)
  {
    AssignSpec([("ts", Num(now))], OwnEntries(entry), k);
    AssignSpec([("ts", Num(now))], OwnEntries(entry), "ts");
  }

  class Log {
    var size: int
    var buf: seq<Value>

    predicate Valid()
      reads this
    {
      |buf| <= Capacity(size)
    }

    /** `new LogService(size)` */
    constructor (size: int)
      ensures Valid() && this.size == size && buf == []
    {
      this.size := size;
      buf := [];
    }

    /** `push(entry)` at time `now`: the stamped entry goes last and, when the
        buffer is over its size, the oldest entry goes. */
    method Push(entry: Value, now: int)
      requires Valid()
      modifies this
      ensures Valid() && size == old(size)
      ensures buf == Appended(old(buf), Stamp(now, entry), size)
    {
      buf := buf + [Stamp(now, entry)];
      if |buf| > size {
        buf := buf[1..];
      }
    }

    /** `all()`: `buf.slice(-size)`. */
    function All(): (r: seq<Value>)
      reads this
      requires Valid()
      ensures |r| == if |buf| < Capacity(size) then |buf| else Capacity(size)
      ensures r == buf[|buf| - |r|..]
    {
      var start := if size > 0 then (if |buf| > size then |buf| - size else 0)
                   else if -size < |buf| then -size else |buf|;
      buf[start..]
    }
  }

  /** The buffer after one push: the entry goes last and, past the capacity,
      exactly the oldest entry goes. */
  function Appended(buf: seq<Value>, e: Value, size: int): (r: seq<Value>)
    requires |buf| <= Capacity(size)
    ensures |r| == if |buf| < Capacity(size) then |buf| + 1 else Capacity(size)
    ensures r == (buf + [e])[|buf| + 1 - |r|..]
  {
    var b := buf + [e];
    if |b| > size then b[1..] else b
  }

  /** The buffer after a run of pushes into an empty log. */
  function Pushed(entries: seq<Value>, size: int): (r: seq<Value>)
    ensures |r| <= Capacity(size)
    decreases |entries|
  {
    if entries == [] then []
    else Appended(Pushed(entries[..|entries| - 1], size), entries[|entries| - 1], size)
  }

  /** Pushing `n` entries into a log of positive size keeps the last `min(n, size)`
      of them, oldest first: retained entries keep their order and contents. */
  lemma {:induction false} PushesKeepNewest(size: int, entries: seq<Value>)
    requires size > 0
    ensures var b := Pushed(entries, size);
            |b| == (if |entries| < size then |entries| else size) && b == entries[|entries| - |b|..]
    decreases |entries|
  {
    if entries != [] {
      var init := entries[..|entries| - 1];
      PushesKeepNewest(size, init);
      assert init + [entries[|entries| - 1]] == entries;
    }
  }
}
