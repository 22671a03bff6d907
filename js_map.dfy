/** JavaScript's `Map` with string keys, as the rule tables, listener tables
    and timer tables use it: a sequence of entries in insertion order with at
    most one entry per key.  `set` on a present key replaces the value in place,
    on a new key appends; `delete` removes the entry and keeps the order of the
    rest. */
module JsMap {
  import opened Wrappers

  /** No key occurs twice. */
  predicate UniqueKeys<V>(m: seq<(string, V)>) {
    forall i, j | 0 <= i < j < |m| :: m[i].0 != m[j].0
  }

  /** The position of the entry for `k`. */
  function Find<V>(m: seq<(string, V)>, k: string): (r: Option<nat>)
    ensures r.Some? ==> r.value < |m| && m[r.value].0 == k
    ensures r.None? ==> forall i | 0 <= i < |m| :: m[i].0 != k
  {
    if m == [] then None
    else if m[0].0 == k then Some(0)
    else match Find(m[1..], k)
         case Some(i) => Some(i + 1)
         case None => None
  }

  /** `map.has(k)` */
  predicate Has<V>(m: seq<(string, V)>, k: string) {
    Find(m, k).Some?
  }

  /** `map.get(k)` (`None` for `undefined`) */
  function Get<V>(m: seq<(string, V)>, k: string): Option<V> {
    match Find(m, k)
    case Some(i) => Some(m[i].1)
    case None => None
  }

  /** `map.set(k, v)` */
  function Set<V>(m: seq<(string, V)>, k: string, v: V): seq<(string, V)> {
    match Find(m, k)
    case Some(i) => m[i := (k, v)]
    case None => m + [(k, v)]
  }

  /** `map.delete(k)` */
  function Delete<V>(m: seq<(string, V)>, k: string): seq<(string, V)> {
    match Find(m, k)
    case Some(i) => m[..i] + m[i + 1..]
    case None => m
  }

  /** `Array.from(map.values())` */
  function Values<V>(m: seq<(string, V)>): (vs: seq<V>)
    ensures |vs| == |m| && forall i | 0 <= i < |m| :: vs[i] == m[i].1
  {
    seq(|m|, i requires 0 <= i < |m| => m[i].1)
  }

  /** With unique keys the entry `Find` locates is the only one for its key. */
  lemma FindUnique<V>(m: seq<(string, V)>, k: string, i: nat)
    requires UniqueKeys(m) && i < |m| && m[i].0 == k
    ensures Find(m, k) == Some(i)
  {
    var r := Find(m, k);
    assert r.Some?;
  }

  /** After `set(k, v)`: `get(k)` gives `v`, every other key reads as before,
      keys stay unique, and the map grows by one exactly when `k` was new. */
  lemma SetSpec<V>(m: seq<(string, V)>, k: string, v: V)
    requires UniqueKeys(m)
    ensures UniqueKeys(Set(m, k, v))
    ensures Get(Set(m, k, v), k) == Some(v)
    ensures forall k' | k' != k :: Get(Set(m, k, v), k') == Get(m, k')
    ensures |Set(m, k, v)| == if Has(m, k) then |m| else |m| + 1
  {
    var s := Set(m, k, v);
    assert UniqueKeys(s) by {
      forall i, j | 0 <= i < j < |s| ensures s[i].0 != s[j].0 {
        if Find(m, k).None? {
          if j == |m| {
            assert s[i] == m[i];
          } else {
            assert s[i] == m[i] && s[j] == m[j];
          }
        }
      }
    }
    match Find(m, k)
    case Some(i) =>
      FindUnique(s, k, i);
      forall k' | k' != k ensures Get(s, k') == Get(m, k') {
        match Find(m, k')
        case Some(j) => FindUnique(s, k', j);
        case None =>
      }
    case None =>
      FindUnique(s, k, |m|);
      forall k' | k' != k ensures Get(s, k') == Get(m, k') {
        match Find(m, k')
        case Some(j) => FindUnique(s, k', j);
        case None =>
      }
  }

  /** Removing the entry at `i` shifts the later entries down by one. */
  lemma RemoveAt<V>(m: seq<(string, V)>, i: nat)
    requires i < |m|
    ensures var d := m[..i] + m[i + 1..];
            |d| == |m| - 1 && forall j | 0 <= j < |d| :: d[j] == if j < i then m[j] else m[j + 1]
  {
  }

  lemma RemoveAtKeepsUnique<V>(m: seq<(string, V)>, i: nat)
    requires UniqueKeys(m) && i < |m|
    ensures var d := m[..i] + m[i + 1..];
            UniqueKeys(d) && forall j | 0 <= j < |d| :: d[j].0 != m[i].0
  {
    RemoveAt(m, i);
  }

  /** After `delete(k)`: `get(k)` gives nothing, every other key reads as before,
      keys stay unique, and the map shrinks by one exactly when `k` was present. */
  lemma DeleteSpec<V>(m: seq<(string, V)>, k: string)
    requires UniqueKeys(m)
    ensures UniqueKeys(Delete(m, k))
    ensures Get(Delete(m, k), k) == None
    ensures forall k' | k' != k :: Get(Delete(m, k), k') == Get(m, k')
    ensures |Delete(m, k)| == if Has(m, k) then |m| - 1 else |m|
  {
    match Find(m, k)
    case None =>
    case Some(i) =>
      var d := Delete(m, k);
      RemoveAt(m, i);
      RemoveAtKeepsUnique(m, i);
      forall k' | k' != k ensures Get(d, k') == Get(m, k') {
        match Find(m, k')
        case Some(j) =>
          if j < i {
            FindUnique(d, k', j);
          } else {
            FindUnique(d, k', j - 1);
          }
        case None =>
      }
  }

  /** Replacing the value at a position keeps the keys. */
  lemma ReplaceKeepsUnique<V>(m: seq<(string, V)>, i: nat, v: V)
    requires UniqueKeys(m) && i < |m|
    ensures UniqueKeys(m[i := (m[i].0, v)])
  {
    var s := m[i := (m[i].0, v)];
    assert forall j | 0 <= j < |m| :: s[j].0 == m[j].0;
  }

  /** Setting an entry to the value it already has changes nothing. */
  lemma SetExisting<V>(m: seq<(string, V)>, i: nat)
    requires UniqueKeys(m) && i < |m|
    ensures Set(m, m[i].0, m[i].1) == m
  {
    FindUnique(m, m[i].0, i);
  }

  /** A second `set` of the same key overrides the first, in the first one's place. */
  lemma SetTwice<V>(m: seq<(string, V)>, k: string, a: V, b: V)
    requires UniqueKeys(m)
    ensures Set(Set(m, k, a), k, b) == Set(m, k, b)
  {
    SetSpec(m, k, a);
    match Find(m, k)
    case Some(i) => FindUnique(Set(m, k, a), k, i);
    case None => FindUnique(Set(m, k, a), k, |m|);
  }

  /** Deleting a present key undoes any `set` of it made in between. */
  lemma DeleteAfterSet<V>(m: seq<(string, V)>, k: string, a: V)
    requires UniqueKeys(m) && Has(m, k)
    ensures Delete(Set(m, k, a), k) == Delete(m, k)
  {
    var i := Find(m, k).value;
    var s := Set(m, k, a);
    SetSpec(m, k, a);
    FindUnique(s, k, i);
    assert s[..i] == m[..i] && s[i + 1..] == m[i + 1..];
  }
}
