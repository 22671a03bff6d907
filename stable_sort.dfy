/** The ordering both the rule engine (`matchedRules.sort((a, b) => b.priority -
    a.priority)`) and the event bus (`handlers.sort((a, b) => b.priority -
    a.priority)`) rely on: JavaScript's `Array.prototype.sort` is stable, so the
    result is ordered by non-increasing key with equal keys in their original
    order.  `SortDesc` is one such sort; `SortedDescUnique` shows there is only one
    result with these properties, so it is the result `sort` gives. */
module StableSort {

  /** `s` is ordered by non-increasing key. */
  predicate SortedDesc<T>(s: seq<T>, key: T -> int) {
    forall i, j | 0 <= i < j < |s| :: key(s[i]) >= key(s[j])
  }

  /** The elements of `s` whose key is `k`, in their order in `s`. */
  function WithKey<T>(s: seq<T>, key: T -> int, k: int): seq<T> {
    if s == [] then []
    else (if key(s[0]) == k then [s[0]] else []) + WithKey(s[1..], key, k)
  }

  /** `x` placed in front of the first element whose key is at most its own. */
  function Insert<T>(x: T, s: seq<T>, key: T -> int): seq<T> {
    if s == [] || key(x) >= key(s[0]) then [x] + s
    else [s[0]] + Insert(x, s[1..], key)
  }

  /** A stable sort by non-increasing key. */
  function SortDesc<T>(s: seq<T>, key: T -> int): (r: seq<T>)
    ensures SortedDesc(r, key)
    ensures multiset(r) == multiset(s)
    ensures forall k :: WithKey(r, key, k) == WithKey(s, key, k)
  {
    if s == [] then []
    else
      var rest := SortDesc(s[1..], key);
      InsertKeepsSorted(s[0], rest, key);
      InsertMultiset(s[0], rest, key);
      InsertWithKey(s[0], rest, key);
      assert s == [s[0]] + s[1..];
      Insert(s[0], rest, key)
  }

  lemma {:induction false} InsertMultiset<T>(x: T, s: seq<T>, key: T -> int)
    ensures multiset(Insert(x, s, key)) == multiset([x] + s)
  {
    if s != [] && key(x) < key(s[0]) {
      InsertMultiset(x, s[1..], key);
      assert s == [s[0]] + s[1..];
    }
  }

  lemma {:induction false} InsertMember<T>(x: T, s: seq<T>, key: T -> int, y: T)
    ensures y in Insert(x, s, key) <==> y == x || y in s
  {
    if s != [] && key(x) < key(s[0]) {
      InsertMember(x, s[1..], key, y);
      assert s == [s[0]] + s[1..];
    }
  }

  lemma {:induction false} InsertKeepsSorted<T>(x: T, s: seq<T>, key: T -> int)
    requires SortedDesc(s, key)
    ensures SortedDesc(Insert(x, s, key), key)
  {
    if s != [] && key(x) < key(s[0]) {
      var t := Insert(x, s[1..], key);
      InsertKeepsSorted(x, s[1..], key);
      forall i | 0 <= i < |t| ensures key(t[i]) <= key(s[0]) {
        InsertMember(x, s[1..], key, t[i]);
        assert t[i] in t;
        if t[i] != x {
          var j :| 0 <= j < |s[1..]| && s[1..][j] == t[i];
          assert s[j + 1] == t[i];
        }
      }
      var ins := [s[0]] + t;
      assert Insert(x, s, key) == ins;
      forall i, j | 0 <= i < j < |ins| ensures key(ins[i]) >= key(ins[j]) {
        assert ins[j] == t[j - 1];
        if i > 0 {
          assert ins[i] == t[i - 1];
        }
      }
    } else {
      var ins := [x] + s;
      assert Insert(x, s, key) == ins;
      forall i, j | 0 <= i < j < |ins| ensures key(ins[i]) >= key(ins[j]) {
        assert ins[j] == s[j - 1];
        if i > 0 {
          assert ins[i] == s[i - 1];
        }
      }
    }
  }

  /** Inserting into a sorted list puts `x` before every element with its key. */
  lemma {:induction false} InsertWithKey<T>(x: T, s: seq<T>, key: T -> int)
    requires SortedDesc(s, key)
    ensures forall k :: WithKey(Insert(x, s, key), key, k)
                        == (if key(x) == k then [x] else []) + WithKey(s, key, k)
  {
    forall k
      ensures WithKey(Insert(x, s, key), key, k) == (if key(x) == k then [x] else []) + WithKey(s, key, k)
    {
      InsertWithKeyAt(x, s, key, k);
    }
  }

  lemma {:induction false} InsertWithKeyAt<T>(x: T, s: seq<T>, key: T -> int, k: int)
    requires SortedDesc(s, key)
    ensures WithKey(Insert(x, s, key), key, k) == (if key(x) == k then [x] else []) + WithKey(s, key, k)
  {
    var ins := Insert(x, s, key);
    assert WithKey(ins, key, k) == (if key(ins[0]) == k then [ins[0]] else []) + WithKey(ins[1..], key, k);
    if s != [] && key(x) < key(s[0]) {
      InsertWithKeyAt(x, s[1..], key, k);
      assert ins[0] == s[0] && ins[1..] == Insert(x, s[1..], key);
      assert WithKey(s, key, k) == (if key(s[0]) == k then [s[0]] else []) + WithKey(s[1..], key, k);
      if key(x) == k {
        assert key(s[0]) != k;
      }
    } else {
      assert ins[0] == x && ins[1..] == s;
    }
  }

  lemma {:induction false} WithKeyAppend<T>(s: seq<T>, t: seq<T>, key: T -> int, k: int)
    ensures WithKey(s + t, key, k) == WithKey(s, key, k) + WithKey(t, key, k)
  {
    if s != [] {
      assert (s + t)[0] == s[0] && (s + t)[1..] == s[1..] + t;
      WithKeyAppend(s[1..], t, key, k);
    } else {
      assert s + t == t;
    }
  }

  lemma {:induction false} WithKeyMembers<T>(s: seq<T>, key: T -> int, k: int)
    ensures forall x :: x in WithKey(s, key, k) <==> x in s && key(x) == k
  {
    if s != [] {
      WithKeyMembers(s[1..], key, k);
      assert s == [s[0]] + s[1..];
    }
  }

  lemma WithKeyHead<T>(s: seq<T>, key: T -> int)
    requires s != []
    ensures WithKey(s, key, key(s[0])) != []
  {
  }

  /** Appending an element to a sorted list and sorting it again puts the new
      element after every element with its key: a stable sort keeps registration
      order among equal keys. */
  lemma AppendThenSort<T>(s: seq<T>, x: T, key: T -> int)
    ensures SortedDesc(SortDesc(s + [x], key), key)
    ensures forall k :: WithKey(SortDesc(s + [x], key), key, k)
                        == WithKey(s, key, k) + (if key(x) == k then [x] else [])
  {
    forall k
      ensures WithKey(SortDesc(s + [x], key), key, k)
              == WithKey(s, key, k) + (if key(x) == k then [x] else [])
    {
      WithKeyAppend(s, [x], key, k);
      assert [x][1..] == [];
    }
  }

  /** A sequence sorted by non-increasing key is determined by its elements of
      each key: two such sequences that agree on `WithKey` are equal.  So every
      stable sort of `s` returns `SortDesc(s, key)`. */
  lemma {:induction false} SortedDescUnique<T>(r: seq<T>, q: seq<T>, key: T -> int)
    requires SortedDesc(r, key) && SortedDesc(q, key)
    requires forall k :: WithKey(r, key, k) == WithKey(q, key, k)
    ensures r == q
    decreases |r|
  {
    if r == [] && q == [] {
    } else if r == [] {
      WithKeyHead(q, key);
      assert false;
    } else if q == [] {
      WithKeyHead(r, key);
      assert false;
    } else {
      var m := key(r[0]);
      WithKeyMembers(q, key, m);
      assert r[0] in WithKey(r, key, m);
      assert key(q[0]) >= m by {
        var y := r[0];
        assert y in q;
        var i :| 0 <= i < |q| && q[i] == y;
      }
      WithKeyMembers(r, key, key(q[0]));
      assert q[0] in WithKey(q, key, key(q[0]));
      assert m >= key(q[0]) by {
        var y := q[0];
        assert y in r;
        var i :| 0 <= i < |r| && r[i] == y;
      }
      assert r[0] == q[0] by {
        assert WithKey(r, key, m)[0] == r[0];
        assert WithKey(q, key, m)[0] == q[0];
      }
      forall k ensures WithKey(r[1..], key, k) == WithKey(q[1..], key, k) {
        var pre: seq<T> := if key(r[0]) == k then [r[0]] else [];
        assert WithKey(r, key, k) == pre + WithKey(r[1..], key, k);
        assert WithKey(q, key, k) == pre + WithKey(q[1..], key, k);
        assert WithKey(r[1..], key, k) == WithKey(r, key, k)[|pre|..];
        assert WithKey(q[1..], key, k) == WithKey(q, key, k)[|pre|..];
      }
      SortedDescUnique(r[1..], q[1..], key);
      assert r == [r[0]] + r[1..] && q == [q[0]] + q[1..];
    }
  }
}
