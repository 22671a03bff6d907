/** The Wiegand pin registry: the GPIO pins used by the doors' D0 and D1 lines
    are reserved, and doors are looked up by pin or by door number.  The parsed
    configuration document is a parameter; reading the file is not modelled. */
module PinRegistry {
  import opened Wrappers
  import opened JsValue
  import StableSort

  predicate Nullish(v: Value) {
    v.Null? || v.Undefined?
  }

  predicate Distinct<T(==)>(s: seq<T>) {
    forall i, j | 0 <= i < j < |s| :: s[i] != s[j]
  }

  /** `Number(door[key])`; None stands for `NaN`. */
  function PinOf(door: Value, key: string): Option<int> {
    ToNumber(Get(door, key))
  }

  /** `x` is `Number(d.d0)` or `Number(d.d1)` of some door. */
  predicate ReservedBy(doors: seq<Value>, x: Option<int>) {
    exists i | 0 <= i < |doors| :: PinOf(doors[i], "d0") == x || PinOf(doors[i], "d1") == x
  }

  /** `d.d0 === n || d.d1 === n` (`NaN` equals nothing). */
  predicate HasPin(d: Value, n: Option<int>) {
    n.Some? && (Get(d, "d0") == Num(n.value) || Get(d, "d1") == Num(n.value))
  }

  /** `Number(d.door) === n` */
  predicate Numbered(d: Value, n: Option<int>) {
    n.Some? && ToNumber(Get(d, "door")) == n
  }

  /** `cfg.chip || "gpiochip0"` */
  function ChipOf(cfg: Value): Value {
    if Truthy(Get(cfg, "chip")) then Get(cfg, "chip") else Str("gpiochip0")
  }

  /** `cfg.doors || []` */
  function DoorsOf(cfg: Value): Value {
    if Truthy(Get(cfg, "doors")) then Get(cfg, "doors") else Arr([])
  }

  /** The constructor completes: the configuration is an object or primitive, its
      doors can be iterated, and no door is null or undefined (reading `d.d0` on
      one throws). */
  predicate Loadable(cfg: Value) {
    && !Nullish(cfg)
    && Elements(DoorsOf(cfg)).Ok?
    && forall j | 0 <= j < |Elements(DoorsOf(cfg)).value| :: !Nullish(Elements(DoorsOf(cfg)).value[j])
  }

  /** `set.add(x)`: a Set holds each value once, in insertion order. */
  function AddToSet(s: seq<Option<int>>, x: Option<int>): (r: seq<Option<int>>)
    ensures Distinct(s) ==> Distinct(r)
    ensures forall y :: y in r <==> y in s || y == x
  {
    if x in s then s else s + [x]
  }

  /** `array.find(p)`: the position of the first element satisfying `p`. */
  function FindFirst(items: seq<Value>, p: Value -> bool): (r: Option<nat>)
    ensures r.Some? ==> r.value < |items| && p(items[r.value])
                        && forall j | 0 <= j < r.value :: !p(items[j])
    ensures r.None? ==> forall j | 0 <= j < |items| :: !p(items[j])
  {
    if items == [] then None
    else if p(items[0]) then Some(0)
    else match FindFirst(items[1..], p)
         case Some(i) => Some(i + 1)
         case None => None
  }

  /** The integers of a list of numbers. */
  function Integers(s: seq<Option<int>>): (r: seq<int>)
    ensures forall x :: x in r <==> Some(x) in s
    ensures Distinct(s) ==> Distinct(r)
  {
    if s == [] then []
    else
      var rest := Integers(s[1..]);
      assert forall y :: y in s <==> y == s[0] || y in s[1..];
      if s[0].Some? then [s[0].value] + rest else rest
  }

  function Negated(x: int): int {
    -x
  }

  /** `new PinRegistry()` with the parsed configuration `cfg`. */
  method Load(cfg: Value) returns (r: Result<Registry, JsError>)
    ensures r.Ok? <==> Loadable(cfg)
    ensures r.Ok? ==> && fresh(r.value) && r.value.Valid()
                      && r.value.chip == ChipOf(cfg) && r.value.doors == DoorsOf(cfg)
  {
    if Nullish(cfg) {
      return Err(TypeError("cannot read properties of null or undefined"));
    }
    var chip := ChipOf(cfg);
    var doors := DoorsOf(cfg);
    var items := Elements(doors);
    if items.Err? {
      return Err(items.error);
    }
    var reserved: seq<Option<int>> := [];
    for i := 0 to |items.value|
      invariant Distinct(reserved)
      invariant forall x :: x in reserved <==> ReservedBy(items.value[..i], x)
      invariant forall j | 0 <= j < i :: !Nullish(items.value[j])
    {
      var d := items.value[i];
      if Nullish(d) {
        return Err(TypeError("cannot read properties of null or undefined"));
      }
      ReservedStep(items.value, i, reserved);
      reserved := AddToSet(reserved, PinOf(d, "d0"));
      reserved := AddToSet(reserved, PinOf(d, "d1"));
    }
    assert items.value[..|items.value|] == items.value;
    var registry := new Registry(chip, doors, reserved);
    return Ok(registry);
  }

  /** One turn of the constructor's loop adds the door's two pins. */
  lemma ReservedStep(doors: seq<Value>, i: nat, reserved: seq<Option<int>>)
    requires i < |doors|
    requires Distinct(reserved) && forall x :: x in reserved <==> ReservedBy(doors[..i], x)
    ensures var r := AddToSet(AddToSet(reserved, PinOf(doors[i], "d0")), PinOf(doors[i], "d1"));
            Distinct(r) && forall x :: x in r <==> ReservedBy(doors[..i + 1], x)
  {
    ReservedByStep(doors, i);
  }

  lemma ReservedByStep(doors: seq<Value>, i: nat)
    requires i < |doors|
    ensures forall x :: ReservedBy(doors[..i + 1], x)
                        <==> ReservedBy(doors[..i], x) || PinOf(doors[i], "d0") == x || PinOf(doors[i], "d1") == x
  {
    forall x ensures ReservedBy(doors[..i + 1], x)
                     <==> ReservedBy(doors[..i], x) || PinOf(doors[i], "d0") == x || PinOf(doors[i], "d1") == x
    {
      if ReservedBy(doors[..i + 1], x) {
        var k :| 0 <= k < i + 1 && (PinOf(doors[..i + 1][k], "d0") == x || PinOf(doors[..i + 1][k], "d1") == x);
        if k < i {
          assert doors[..i][k] == doors[k];
        }
      }
      if PinOf(doors[i], "d0") == x || PinOf(doors[i], "d1") == x {
        assert doors[..i + 1][i] == doors[i];
      }
      if ReservedBy(doors[..i], x) {
        var k :| 0 <= k < i && (PinOf(doors[..i][k], "d0") == x || PinOf(doors[..i][k], "d1") == x);
        assert doors[..i + 1][k] == doors[k];
      }
    }
  }

  class Registry {
    var chip: Value
    var doors: Value
    var reserved: seq<Option<int>>

    /** The reserved set is the set of door pins. */
    ghost predicate Valid()
      reads this
    {
      && Elements(doors).Ok?
      && (forall j | 0 <= j < |Elements(doors).value| :: !Nullish(Elements(doors).value[j]))
      && Distinct(reserved)
      && forall x :: x in reserved <==> ReservedBy(Elements(doors).value, x)
    }

    constructor (chip: Value, doors: Value, reserved: seq<Option<int>>)
      ensures this.chip == chip && this.doors == doors && this.reserved == reserved
    {
      this.chip := chip;
      this.doors := doors;
      this.reserved := reserved;
    }

    /** `isReserved(pin)`: some door uses `Number(pin)` as its D0 or D1 pin. */
    function IsReserved(pin: Value): (r: bool)
      reads this
      requires Valid()
      ensures r <==> ReservedBy(Elements(doors).value, ToNumber(pin))
    {
      ToNumber(pin) in reserved
    }

    /** `getDoorByPin(pin)`: the first door whose D0 or D1 is `Number(pin)`, or
        null.  A door list given as a string has no `find` method. */
    function GetDoorByPin(pin: Value): (r: Result<Option<Value>, JsError>)
      reads this
      requires Valid()
      ensures r.Ok? <==> doors.Arr?
      ensures r.Ok? && r.value.Some? ==>
                exists i | 0 <= i < |doors.items| ::
                  && doors.items[i] == r.value.value && HasPin(doors.items[i], ToNumber(pin))
                  && forall j | 0 <= j < i :: !HasPin(doors.items[j], ToNumber(pin))
      ensures r.Ok? && r.value.None? ==> forall j | 0 <= j < |doors.items| :: !HasPin(doors.items[j], ToNumber(pin))
      ensures r.Ok? && r.value.Some? ==> IsReserved(pin)
    {
      if !doors.Arr? then Err(TypeError("doors.find is not a function"))
      else
        var n := ToNumber(pin);
        match FindFirst(doors.items, d => HasPin(d, n))
        case Some(i) =>
          FoundPinIsReserved(doors.items, i, n);
          Ok(Some(doors.items[i]))
        case None => Ok(None)
    }

    /** `getDoor(door)`: the first door whose `Number(d.door)` is `Number(door)`,
        or null. */
    function GetDoor(door: Value): (r: Result<Option<Value>, JsError>)
      reads this
      requires Valid()
      ensures r.Ok? <==> doors.Arr?
      ensures r.Ok? && r.value.Some? ==>
                exists i | 0 <= i < |doors.items| ::
                  && doors.items[i] == r.value.value && Numbered(doors.items[i], ToNumber(door))
                  && forall j | 0 <= j < i :: !Numbered(doors.items[j], ToNumber(door))
      ensures r.Ok? && r.value.None? ==> forall j | 0 <= j < |doors.items| :: !Numbered(doors.items[j], ToNumber(door))
    {
      if !doors.Arr? then Err(TypeError("doors.find is not a function"))
      else
        var n := ToNumber(door);
        match FindFirst(doors.items, d => Numbered(d, n))
        case Some(i) => Ok(Some(doors.items[i]))
        case None => Ok(None)
    }

    /** `listReserved()`: the reserved numeric pins; in ascending order when no
        configured pin is `NaN`. */
    function ListReserved(): (r: seq<int>)
      reads this
      requires Valid()
      ensures None !in reserved ==> forall i, j | 0 <= i < j < |r| :: r[i] < r[j]
      ensures forall x :: x in r <==> ReservedBy(Elements(doors).value, Some(x))
    {
      var pins := Integers(reserved);
      var sorted := StableSort.SortDesc(pins, Negated);
      SortedAscending(pins);
      sorted
    }
  }

  lemma FoundPinIsReserved(doors: seq<Value>, i: nat, n: Option<int>)
    requires i < |doors| && HasPin(doors[i], n)
    ensures ReservedBy(doors, n)
  {
    assert PinOf(doors[i], "d0") == n || PinOf(doors[i], "d1") == n;
  }

  /** When every door gives its pins as numbers, a pin is reserved exactly when
      some door uses it. */
  lemma NumericPinsAgree(doors: seq<Value>, n: int)
    requires forall i | 0 <= i < |doors| :: Get(doors[i], "d0").Num? && Get(doors[i], "d1").Num?
    ensures ReservedBy(doors, Some(n)) <==> exists i | 0 <= i < |doors| :: HasPin(doors[i], Some(n))
  {
    if ReservedBy(doors, Some(n)) {
      var i :| 0 <= i < |doors| && (PinOf(doors[i], "d0") == Some(n) || PinOf(doors[i], "d1") == Some(n));
      assert HasPin(doors[i], Some(n));
    }
    if exists i | 0 <= i < |doors| :: HasPin(doors[i], Some(n)) {
      var i :| 0 <= i < |doors| && HasPin(doors[i], Some(n));
      FoundPinIsReserved(doors, i, Some(n));
    }
  }

  /** A pin written as a string in the configuration is reserved, but
      `getDoorByPin` does not find its door, since `"17" === 17` is false. */
  lemma StringPinReservedButNotFound(door: Value, n: nat)
    requires Get(door, "d0") == Str(NatToString(n)) && Get(door, "d1") != Num(n)
    ensures ReservedBy([door], Some(n)) && !HasPin(door, Some(n))
  {
    assert IntToString(n) == NatToString(n);
    NumberOfIntString(n);
    assert PinOf([door][0], "d0") == Some(n);
  }

  /** Sorting a list of distinct integers by descending negation orders it
      strictly ascending and keeps its elements. */
  lemma SortedAscending(pins: seq<int>)
    requires Distinct(pins)
    ensures forall i, j | 0 <= i < j < |StableSort.SortDesc(pins, Negated)| ::
              StableSort.SortDesc(pins, Negated)[i] < StableSort.SortDesc(pins, Negated)[j]
    ensures forall x :: x in StableSort.SortDesc(pins, Negated) <==> x in pins
  {
    var r := StableSort.SortDesc(pins, Negated);
    DistinctPermutation(r, pins);
    SameMembers(r, pins);
    forall i, j | 0 <= i < j < |r| ensures r[i] < r[j] {
      assert Negated(r[i]) >= Negated(r[j]);
    }
  }

  lemma SameMembers<T>(r: seq<T>, s: seq<T>)
    requires multiset(r) == multiset(s)
    ensures forall x :: x in r <==> x in s
  {
    forall x ensures x in r <==> x in s {
      assert x in r <==> x in multiset(r);
      assert x in s <==> x in multiset(s);
    }
  }

  lemma {:induction false} DistinctAtMostOnce<T>(s: seq<T>, x: T)
    requires Distinct(s)
    ensures multiset(s)[x] <= 1
  {
    if s != [] {
      assert s == [s[0]] + s[1..];
      assert Distinct(s[1..]) by {
        forall i, j | 0 <= i < j < |s[1..]| ensures s[1..][i] != s[1..][j] {
          assert s[1..][i] == s[i + 1] && s[1..][j] == s[j + 1];
        }
      }
      DistinctAtMostOnce(s[1..], x);
      if x == s[0] {
        assert x !in s[1..] by {
          forall k | 0 <= k < |s[1..]| ensures s[1..][k] != x {
            assert s[1..][k] == s[k + 1];
          }
        }
      }
    }
  }

  /** A reordering of a list without repetitions has none either. */
  lemma DistinctPermutation<T>(r: seq<T>, s: seq<T>)
    requires Distinct(s) && multiset(r) == multiset(s)
    ensures Distinct(r)
  {
    forall i, j | 0 <= i < j < |r| ensures r[i] != r[j] {
      if r[i] == r[j] {
        var x := r[i];
        assert r == r[..j] + r[j..];
        assert x in r[..j] && x in r[j..];
        assert multiset(r)[x] == multiset(r[..j])[x] + multiset(r[j..])[x];
        DistinctAtMostOnce(s, x);
        assert false;
      }
    }
  }
}
