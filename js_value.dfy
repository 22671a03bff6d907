/** The part of JavaScript's value semantics that the automation code relies on:
    truthiness, strict equality, property reads (`obj?.[key]`), dot-path lookup,
    `String.prototype.split`/`trim`, and the conversion of values to strings. */
module JsValue {
  import opened Wrappers

  /** A JavaScript value as parsed from JSON or built by the code.  Numbers are
      integers (floating point is not modelled); an object keeps its own
      enumerable properties in insertion order. */
  datatype Value =
    | Undefined
    | Null
    | Bool(b: bool)
    | Num(n: int)
    | Str(s: string)
    | Arr(items: seq<Value>)
    | Obj(fields: seq<(string, Value)>)

  /** A JavaScript exception: `Thrown` for `throw new Error(message)` in the
      source, `TypeError` for one raised by the engine itself (a property read on
      null, a call of something that is not a function); `what` describes the
      situation, the engine's own message text is not modelled. */
  datatype JsError = Thrown(message: string) | TypeError(what: string)

  /** `typeof v === 'object' && v !== null` */
  predicate IsObject(v: Value) {
    v.Arr? || v.Obj?
  }

  /** JavaScript truthiness (`if (v)`, `!v`, `v || d`). */
  predicate Truthy(v: Value) {
    match v
    case Undefined => false
    case Null => false
    case Bool(b) => b
    case Num(n) => n != 0
    case Str(s) => s != ""
    case _ => true
  }

  /** `a === b`.  Arrays and objects compare by reference; the values compared by
      the automation code always come from different JSON documents (a rule and an
      event), so two of them are never the same reference. */
  predicate StrictEq(a: Value, b: Value) {
    !IsObject(a) && a == b
  }

  /** The value of the first own property named `key`, or `Undefined`. */
  function Lookup(fields: seq<(string, Value)>, key: string): Value {
    if fields == [] then Undefined
    else if fields[0].0 == key then fields[0].1
    else Lookup(fields[1..], key)
  }

  predicate IsDigit(c: char) {
    '0' <= c <= '9'
  }

  predicate AllDigits(s: string) {
    forall i | 0 <= i < |s| :: IsDigit(s[i])
  }

  /** An array index as a property key: the canonical decimal form of an
      integer below 2^32 - 1.  JavaScript lists such keys first, in ascending
      order, whatever order they were added in. */
  predicate IsArrayIndex(k: string) {
    && k != [] && AllDigits(k) && (k[0] != '0' || |k| == 1)
    && DigitsValue(k) < 0xFFFF_FFFF
  }

  /** The number written in decimal by a string of digits. */
  function DigitsValue(s: string): nat
    requires AllDigits(s)
  {
    if s == [] then 0 else DigitsValue(s[..|s| - 1]) * 10 + (s[|s| - 1] as int - '0' as int)
  }

  function DigitChar(d: nat): (c: char)
    requires d < 10
    ensures IsDigit(c) && c as int - '0' as int == d
  {
    ('0' as int + d) as char
  }

  /** Decimal representation of a natural number, without leading zeros. */
  function NatToString(n: nat): (s: string)
    ensures s != [] && AllDigits(s)
    ensures s[0] == '0' ==> n == 0 && s == "0"
    ensures DigitsValue(s) == n
  {
    if n < 10 then [DigitChar(n)]
    else
      var s := NatToString(n / 10) + [DigitChar(n % 10)];
      assert s[..|s| - 1] == NatToString(n / 10);
      s
  }

  function IntToString(i: int): string {
    if i < 0 then "-" + NatToString(-i) else NatToString(i)
  }

  /** The array index a property key denotes, if it is a canonical one
      (decimal, no leading zero, below 2^32 - 1). */
  function ParseIndex(key: string): Option<nat> {
    if key != [] && IsDigit(key[0]) && AllDigits(key) && (key == "0" || key[0] != '0') && DigitsValue(key) < 0xFFFF_FFFF
    then Some(DigitsValue(key))
    else None
  }

  /** `v?.[key]` for an own property: object fields, array and string indices and
      `length`.  Properties inherited from prototypes are not modelled. */
  function Get(v: Value, key: string): Value {
    match v
    case Obj(fields) => Lookup(fields, key)
    case Arr(items) =>
      if key == "length" then Num(|items|)
      else (match ParseIndex(key)
            case Some(i) => if i < |items| then items[i] else Undefined
            case None => Undefined)
    case Str(s) =>
      if key == "length" then Num(|s|)
      else (match ParseIndex(key)
            case Some(i) => if i < |s| then Str([s[i]]) else Undefined
            case None => Undefined)
    case _ => Undefined
  }

  /** `Object.entries(v)` for a value that is not null or undefined. */
  function OwnEntries(v: Value): seq<(string, Value)> {
    match v
    case Obj(fields) => fields
    case Arr(items) => seq(|items|, i requires 0 <= i < |items| => (NatToString(i), items[i]))
    case Str(s) => seq(|s|, i requires 0 <= i < |s| => (NatToString(i), Str([s[i]])))
    case _ => []
  }

  /** The elements `for (const x of v)` visits; anything but an array or a string
      is not iterable and throws. */
  function Elements(v: Value): Result<seq<Value>, JsError> {
    match v
    case Arr(items) => Ok(items)
    case Str(s) => Ok(seq(|s|, i requires 0 <= i < |s| => Str([s[i]])))
    case _ => Err(TypeError("value is not iterable"))
  }

  /** The position of the first `c` in `s`. */
  function IndexOf(s: string, c: char): (i: nat)
    requires c in s
    ensures i < |s| && s[i] == c && c !in s[..i]
  {
    if s[0] == c then 0 else 1 + IndexOf(s[1..], c)
  }

  lemma IndexOfFirst(s: string, c: char, k: nat)
    requires k < |s| && s[k] == c && c !in s[..k]
    ensures IndexOf(s, c) == k
  {
    var i := IndexOf(s, c);
    assert forall j | 0 <= j < k :: s[j] == s[..k][j];
    assert forall j | 0 <= j < i :: s[j] == s[..i][j];
  }

  /** `parts.join(sep)` */
  function Join(parts: seq<string>, sep: char): string {
    if parts == [] then ""
    else if |parts| == 1 then parts[0]
    else parts[0] + [sep] + Join(parts[1..], sep)
  }

  /** `s.split(sep)` for a one-character separator: the pieces between the
      separators, so that joining them back gives `s`. */
  function Split(s: string, sep: char): (parts: seq<string>)
    ensures |parts| >= 1
    ensures forall k | 0 <= k < |parts| :: sep !in parts[k]
    ensures Join(parts, sep) == s
    decreases |s|
  {
    if sep in s then
      var i := IndexOf(s, sep);
      var rest := Split(s[i + 1..], sep);
      var parts := [s[..i]] + rest;
      assert parts[1..] == rest;
      assert s == s[..i] + [sep] + s[i + 1..];
      parts
    else [s]
  }

  /** The characters JavaScript's `trim` and the regular-expression class `\s`
      treat as white space. */
  predicate IsJsSpace(c: char) {
    || c == ' ' || c == '\t' || c == '\n' || c == '\r' || c == '\U{B}' || c == '\U{C}'
    || c == '\U{A0}' || c == '\U{1680}' || ('\U{2000}' <= c <= '\U{200A}')
    || c == '\U{2028}' || c == '\U{2029}' || c == '\U{202F}' || c == '\U{205F}'
    || c == '\U{3000}' || c == '\U{FEFF}'
  }

  /** `s.trimStart()`: the leading white space is dropped, and only it. */
  function TrimStart(s: string): (t: string)
    ensures t == [] || !IsJsSpace(t[0])
    ensures |t| <= |s| && t == s[|s| - |t|..]
    ensures forall k | 0 <= k < |s| - |t| :: IsJsSpace(s[k])
  {
    if s != [] && IsJsSpace(s[0]) then TrimStart(s[1..]) else s
  }

  /** `s.trimEnd()`: the trailing white space is dropped, and only it. */
  function TrimEnd(s: string): (t: string)
    ensures t == [] || !IsJsSpace(t[|t| - 1])
    ensures |t| <= |s| && t == s[..|t|]
    ensures forall k | |t| <= k < |s| :: IsJsSpace(s[k])
  {
    if s != [] && IsJsSpace(s[|s| - 1]) then TrimEnd(s[..|s| - 1]) else s
  }

  /** `s.trim()`: a slice of `s` that neither starts nor ends with white space,
      with only white space before and after it. */
  function Trim(s: string): (t: string)
    ensures t == [] || (!IsJsSpace(t[0]) && !IsJsSpace(t[|t| - 1]))
    ensures exists i, j | 0 <= i <= j <= |s| ::
              && t == s[i..j]
              && (forall k | 0 <= k < i :: IsJsSpace(s[k]))
              && (forall k | j <= k < |s| :: IsJsSpace(s[k]))
  {
    var u := TrimStart(s);
    var t := TrimEnd(u);
    SpaceAroundSlice(s, u, t);
    assert t != [] ==> t[0] == u[0];
    t
  }

  /** A prefix `t` of a suffix `u` of `s`, where what each step drops is white
      space, is a slice of `s` with only white space around it. */
  lemma SpaceAroundSlice(s: string, u: string, t: string)
    requires |u| <= |s| && u == s[|s| - |u|..] && forall k | 0 <= k < |s| - |u| :: IsJsSpace(s[k])
    requires |t| <= |u| && t == u[..|t|] && forall k | |t| <= k < |u| :: IsJsSpace(u[k])
    ensures exists i, j | 0 <= i <= j <= |s| ::
              && t == s[i..j]
              && (forall k | 0 <= k < i :: IsJsSpace(s[k]))
              && (forall k | j <= k < |s| :: IsJsSpace(s[k]))
  {
    var i := |s| - |u|;
    var j := i + |t|;
    assert t == s[i..j];
    forall k | j <= k < |s|
      ensures IsJsSpace(s[k])
    {
      assert s[k] == u[k - i];
    }
  }

  /** `Number(s)` for a string: white space around an optionally signed run of
      decimal digits is ignored, an empty or all-space string is 0, anything else
      is `NaN` (None).  Fractions, exponents, `0x`/`0o`/`0b` prefixes and
      `Infinity` are not modelled. */
  function StringToNumber(s: string): Option<int> {
    var t := Trim(s);
    if t == "" then Some(0)
    else if AllDigits(t) then Some(DigitsValue(t))
    else if |t| > 1 && (t[0] == '-' || t[0] == '+') && AllDigits(t[1..]) then
      var magnitude: int := DigitsValue(t[1..]);
      Some(if t[0] == '-' then -magnitude else magnitude)
    else None
  }

  /** `Number(v)`, with `NaN` as None.  An array or object converts through its
      string form, as `ToPrimitive` does for plain JSON values. */
  function ToNumber(v: Value): Option<int> {
    match v
    case Undefined => None
    case Null => Some(0)
    case Bool(b) => Some(if b then 1 else 0)
    case Num(n) => Some(n)
    case Str(s) => StringToNumber(s)
    case _ => StringToNumber(JsString(v))
  }

  lemma TrimUnspaced(s: string)
    requires s != [] && !IsJsSpace(s[0]) && !IsJsSpace(s[|s| - 1])
    ensures Trim(s) == s
  {
    assert TrimStart(s) == s;
  }

  /** `Number(String(n)) === n` for every integer. */
  lemma NumberOfIntString(n: int)
    ensures StringToNumber(IntToString(n)) == Some(n)
  {
    var s := IntToString(n);
    if n < 0 {
      var d := NatToString(-n);
      assert s == "-" + d && s[1..] == d;
      assert s[|s| - 1] == d[|d| - 1] && IsDigit(d[|d| - 1]);
      TrimUnspaced(s);
      assert !IsDigit(s[0]);
    } else {
      assert IsDigit(s[0]) && IsDigit(s[|s| - 1]);
      TrimUnspaced(s);
    }
  }

  /** `String(v)`, as template literals and `String.prototype.replace` apply it. */
  function JsString(v: Value): string
    decreases v
  {
    match v
    case Undefined => "undefined"
    case Null => "null"
    case Bool(b) => if b then "true" else "false"
    case Num(n) => IntToString(n)
    case Str(s) => s
    case Arr(items) =>
      // Array.prototype.toString: elements joined with ",", null and undefined as ""
      Join(seq(|items|, i requires 0 <= i < |items| =>
             if items[i].Undefined? || items[i].Null? then "" else JsString(items[i])), ',')
    case Obj(_) => "[object Object]"
  }

  /** `items.includes(x)` (SameValueZero is `===` for the values modelled). */
  predicate Includes(items: seq<Value>, x: Value) {
    exists i | 0 <= i < |items| :: StrictEq(items[i], x)
  }

  /** `s.includes(sub)` */
  predicate Contains(s: string, sub: string) {
    exists i | 0 <= i <= |s| - |sub| :: OccursAt(s, sub, i)
  }

  predicate OccursAt(s: string, sub: string, i: nat)
    requires i + |sub| <= |s|
  {
    s[i..i + |sub|] == sub
  }

  /** Follows a list of property keys from `v`; a missing step gives `Undefined`,
      after which every further step stays `Undefined` (`current?.[key]`). */
  function Walk(v: Value, keys: seq<string>): Value
    decreases keys
  {
    if keys == [] then v else Walk(Get(v, keys[0]), keys[1..])
  }

  /** `path.split('.').reduce((current, key) => current?.[key], obj)`: the
      `getNestedValue` helper of the rule engine and of the action executor. */
  function GetNested(obj: Value, path: string): (r: Value)
    ensures obj.Undefined? || obj.Null? ==> r == Undefined
  {
    var keys := Split(path, '.');
    WalkFromUndefined(keys[1..]);
    Walk(obj, keys)
  }

  lemma {:induction false} WalkFromUndefined(keys: seq<string>)
    ensures Walk(Undefined, keys) == Undefined
  {
    if keys != [] {
      WalkFromUndefined(keys[1..]);
    }
  }

  /** Once a prefix of the path leads nowhere, the whole path gives `Undefined`. */
  lemma {:induction false} WalkStopsAtMissing(v: Value, keys: seq<string>, j: nat)
    requires j <= |keys| && Walk(v, keys[..j]) == Undefined
    ensures Walk(v, keys) == Undefined
    decreases j
  {
    if j == 0 {
      assert keys[..0] == [];
      WalkFromUndefined(keys);
    } else {
      assert keys[..j][0] == keys[0] && keys[..j][1..] == keys[1..][..j - 1];
      WalkStopsAtMissing(Get(v, keys[0]), keys[1..], j - 1);
    }
  }

  /** A dot-free path is a single property read. */
  lemma GetNestedDotFree(obj: Value, path: string)
    requires '.' !in path
    ensures GetNested(obj, path) == Get(obj, path)
  {
    assert Split(path, '.') == [path];
    assert Walk(obj, [path]) == Walk(Get(obj, path), []);
  }

  /** In a dotted path, a missing first key gives `Undefined` whatever follows. */
  lemma GetNestedMissingHead(obj: Value, head: string, rest: string)
    requires '.' !in head && Get(obj, head) == Undefined
    ensures GetNested(obj, head + "." + rest) == Undefined
  {
    var path := head + "." + rest;
    assert path[|head|] == '.';
    assert path[..|head|] == head;
    assert path[|head| + 1..] == rest;
    IndexOfFirst(path, '.', |head|);
    WalkFromUndefined(Split(rest, '.'));
  }
}
