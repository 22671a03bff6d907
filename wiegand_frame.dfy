/** Bit-level vocabulary shared by the JavaScript and the C Wiegand encoders:
    bits, their weight and parity, hexadecimal nibbles, and numeric fields
    written most significant bit first. */
module WiegandFrame {
  import opened Wrappers

  type Bit = x: int | 0 <= x <= 1

  /** The number of set bits. */
  function Ones(bits: seq<Bit>): nat {
    if bits == [] then 0 else Ones(bits[..|bits| - 1]) + bits[|bits| - 1]
  }

  /** An even number of set bits. */
  predicate EvenWeight(bits: seq<Bit>) {
    Ones(bits) % 2 == 0
  }

  function Zeros(n: nat): (z: seq<Bit>)
    ensures |z| == n && forall i | 0 <= i < n :: z[i] == 0
  {
    seq(n, i => 0)
  }

  function Pow2(k: nat): (p: nat)
    ensures p >= 1
  {
    if k == 0 then 1 else 2 * Pow2(k - 1)
  }

  /** `v >> k` on a non-negative value: `k` halvings. */
  function Shr(v: nat, k: nat): nat {
    if k == 0 then v else Shr(v, k - 1) / 2
  }

  /** `w` bits of `v`, most significant first: bit `w-1-i` at position `i`. */
  function Field(v: nat, w: nat): (bits: seq<Bit>)
    ensures |bits| == w
  {
    seq(w, i requires 0 <= i < w => Shr(v, w - 1 - i) % 2)
  }

  /** The value bits written most significant first stand for. */
  function Unsigned(bits: seq<Bit>): nat {
    if bits == [] then 0 else 2 * Unsigned(bits[..|bits| - 1]) + bits[|bits| - 1]
  }

  /** The value of a hexadecimal digit (`0-9`, `a-f`, `A-F`). */
  function HexDigit(c: char): (v: Option<nat>)
    ensures v.Some? ==> v.value < 16
  {
    if '0' <= c <= '9' then Some(c as int - '0' as int)
    else if 'a' <= c <= 'f' then Some(10 + c as int - 'a' as int)
    else if 'A' <= c <= 'F' then Some(10 + c as int - 'A' as int)
    else None
  }

  /** The four bits of a hexadecimal digit: `v & 8`, `v & 4`, `v & 2`, `v & 1`. */
  function Nibble(v: nat): (bits: seq<Bit>)
    requires v < 16
    ensures |bits| == 4
  {
    [v / 8 % 2, v / 4 % 2, v / 2 % 2, v % 2]
  }

  /** The facility and card widths of the standard formats: 26, 34, 35, 37 and
      48 bits. */
  function Widths(format: int): (w: Option<(nat, nat)>)
    ensures w.Some? <==> format in {26, 34, 35, 37, 48}
    ensures w.Some? ==> w.value.0 < 20 && w.value.1 <= 30
  {
    if format == 26 then Some((8, 16))
    else if format == 34 then Some((16, 16))
    else if format == 37 then Some((18, 16))
    else if format == 35 then Some((19, 16))
    else if format == 48 then Some((16, 30))
    else None
  }

  lemma {:induction false} OnesAppend(a: seq<Bit>, b: seq<Bit>)
    ensures Ones(a + b) == Ones(a) + Ones(b)
    decreases |b|
  {
    if b == [] {
      assert a + b == a;
    } else {
      var b' := b[..|b| - 1];
      assert (a + b)[..|a + b| - 1] == a + b';
      OnesAppend(a, b');
    }
  }

  lemma {:induction false} OnesBound(bits: seq<Bit>)
    ensures Ones(bits) <= |bits|
    decreases |bits|
  {
    if bits != [] {
      OnesBound(bits[..|bits| - 1]);
    }
  }

  lemma OnesOfZeros(n: nat)
    ensures Ones(Zeros(n)) == 0
  {
    if n > 0 {
      assert Zeros(n) == Zeros(n - 1) + [0];
      OnesAppend(Zeros(n - 1), [0]);
      OnesOfZeros(n - 1);
    }
  }

  lemma {:induction false} ShrOfHalf(v: nat, k: nat)
    ensures Shr(v / 2, k) == Shr(v, k + 1)
    decreases k
  {
    if k > 0 {
      ShrOfHalf(v, k - 1);
    }
  }

  /** Dropping the last bit of a field is the field of half the value. */
  lemma FieldSplit(v: nat, w: nat)
    requires w > 0
    ensures Field(v, w) == Field(v / 2, w - 1) + [v % 2]
  {
    var f := Field(v, w);
    var h := Field(v / 2, w - 1) + [v % 2];
    forall i | 0 <= i < w ensures f[i] == h[i] {
      if i < w - 1 {
        assert h[i] == Field(v / 2, w - 1)[i] == Shr(v / 2, w - 2 - i) % 2;
        ShrOfHalf(v, w - 2 - i);
      } else {
        assert f[i] == Shr(v, 0) % 2;
      }
    }
    assert f == h;
  }

  /** A field of width `w` gives back any value below `2^w`. */
  lemma {:induction false} FieldValue(v: nat, w: nat)
    requires v < Pow2(w)
    ensures Unsigned(Field(v, w)) == v
    decreases w
  {
    if w == 0 {
      assert Field(v, 0) == [];
    } else {
      FieldSplit(v, w);
      FieldValue(v / 2, w - 1);
      assert Field(v, w)[..w - 1] == Field(v / 2, w - 1);
    }
  }

  lemma NibbleValue(v: nat)
    requires v < 16
    ensures Unsigned(Nibble(v)) == v
  {
    var n := Nibble(v);
    assert Unsigned(n[..1]) == v / 8 by {
      assert n[..1][..0] == [];
    }
    assert Unsigned(n[..2]) == v / 4 by {
      assert n[..2][..1] == n[..1];
    }
    assert Unsigned(n[..3]) == v / 2 by {
      assert n[..3][..2] == n[..2];
    }
    assert n[..4] == n;
  }

  lemma HexDigitOfNibble(c: char)
    requires HexDigit(c).Some?
    ensures Unsigned(Nibble(HexDigit(c).value)) == HexDigit(c).value
  {
    NibbleValue(HexDigit(c).value);
  }

  /** Splitting `[a] + mid + [b]` after `left` data bits: the first part weighs
      `a` plus the data before the split, the second the rest plus `b`. */
  lemma OnesAround(a: Bit, mid: seq<Bit>, b: Bit, left: nat)
    requires left <= |mid|
    ensures Ones(([a] + mid + [b])[..left + 1]) == a + Ones(mid[..left])
    ensures Ones(([a] + mid + [b])[left + 1..]) == Ones(mid[left..]) + b
  {
    var f := [a] + mid + [b];
    assert f[..left + 1] == [a] + mid[..left];
    assert f[left + 1..] == mid[left..] + [b];
    OnesAppend([a], mid[..left]);
    OnesAppend(mid[left..], [b]);
    assert Ones([a]) == a by {
      assert [a][..0] == [];
    }
    assert Ones([b]) == b by {
      assert [b][..0] == [];
    }
  }
}
