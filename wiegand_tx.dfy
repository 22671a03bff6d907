/** The native Wiegand transmitter: it parses raw bits or composes facility and
    card fields into a caller's buffer, frames them with parity, validates the
    command line and pulses one of two lines per bit. Buffers are arrays; a
    call to `die` is an `Err` carrying its message. */
module WiegandTx {
  import opened Wrappers
  import opened WiegandFrame

  type uint64 = x: nat | x < 0x1_0000_0000_0000_0000

  datatype Mode = ParStd | ParNone | ParWholeEven | ParWholeOdd

  /** `parse_parity(s)`; `None` is a NULL argument. */
  function ParseParity(s: Option<string>): (r: Result<Mode, string>)
    ensures r == Ok(ParStd) <==> s.None? || s.value == "std"
    ensures r == Ok(ParNone) <==> s == Some("none")
    ensures r == Ok(ParWholeEven) <==> s == Some("whole-even")
    ensures r == Ok(ParWholeOdd) <==> s == Some("whole-odd")
    ensures r.Err? ==> r.error == "invalid --parity"
  {
    if s.None? || s.value == "std" then Ok(ParStd)
    else if s.value == "none" then Ok(ParNone)
    else if s.value == "whole-even" then Ok(ParWholeEven)
    else if s.value == "whole-odd" then Ok(ParWholeOdd)
    else Err("invalid --parity")
  }

  /** `parity_even_bits(b + from, n)`: true when the `n` bits from `from` hold
      an even number of ones; a count of zero or below counts nothing. */
  method ParityEvenBits(b: array<Bit>, from: nat, n: int) returns (r: bool)
    requires from <= b.Length && (n <= 0 || from + n <= b.Length)
    ensures r <==> EvenWeight(if n <= 0 then [] else b[from..from + n])
  {
    var c := 0;
    var i := 0;
    while i < n
      invariant n <= 0 ==> i == 0
      invariant n > 0 ==> 0 <= i <= n
      invariant c == Ones(b[from..from + i])
    {
      assert b[from..from + i + 1] == b[from..from + i] + [b[from + i]];
      OnesAppend(b[from..from + i], [b[from + i]]);
      assert Ones([b[from + i]]) == b[from + i] by {
        assert [b[from + i]][..0] == [];
      }
      if b[from + i] == 1 {
        c := c + 1;
      }
      i := i + 1;
    }
    assert n <= 0 ==> b[from..from + i] == [];
    r := c % 2 == 0;
  }

  // ---------------------------------------------------------------------------
  // parse_raw_bits

  /** Hexadecimal digits after the prefix: four bits per digit, most
      significant first, failing on a character that is not a digit and before
      the bits would pass `max`. */
  function HexBits(hex: string, max: int): Result<seq<Bit>, string>
    decreases |hex|
  {
    if hex == [] then Ok([])
    else match HexBits(hex[..|hex| - 1], max)
         case Err(e) => Err(e)
         case Ok(bits) =>
           match HexDigit(hex[|hex| - 1])
           case None => Err("bad hex in raw")
           case Some(v) => if |bits| + 4 > max then Err("raw hex too long") else Ok(bits + Nibble(v))
  }

  /** Binary text: `0` and `1` give a bit each, failing rather than pass
      `max`; a space or `_` is skipped; anything else fails. */
  function BinBits(s: string, max: int): Result<seq<Bit>, string>
    decreases |s|
  {
    if s == [] then Ok([])
    else match BinBits(s[..|s| - 1], max)
         case Err(e) => Err(e)
         case Ok(bits) =>
           var ch := s[|s| - 1];
           if ch == '0' || ch == '1' then
             if |bits| >= max then Err("raw bits too long") else Ok(bits + [if ch == '1' then 1 else 0])
           else if ch == ' ' || ch == '_' then Ok(bits)
           else Err("invalid char in raw bits")
  }

  predicate HexPrefixed(raw: string) {
    |raw| >= 2 && raw[0] == '0' && (raw[1] == 'x' || raw[1] == 'X')
  }

  /** The bits `parse_raw_bits(raw, bits, max)` writes; `None` is NULL. */
  function RawBits(raw: Option<string>, max: int): Result<seq<Bit>, string> {
    if raw.None? then Ok([])
    else if HexPrefixed(raw.value) then
      if |raw.value| == 2 then Err("empty hex") else HexBits(raw.value[2..], max)
    else BinBits(raw.value, max)
  }

  /** `parse_raw_bits(raw, bits, max)`: the bit count, with the bits in
      `bits[..count]`. */
  method ParseRawBits(raw: Option<string>, bits: array<Bit>, max: int) returns (r: Result<int, string>)
    requires 0 <= max <= bits.Length
    modifies bits
    ensures r.Ok? <==> RawBits(raw, max).Ok?
    ensures r.Err? ==> r.error == RawBits(raw, max).error
    ensures r.Ok? ==> 0 <= r.value <= max && bits[..r.value] == RawBits(raw, max).value
  {
    if raw.None? {
      return Ok(0);
    }
    var s := raw.value;
    if HexPrefixed(s) {
      var hex := s[2..];
      if hex == [] {
        return Err("empty hex");
      }
      r := ParseHexDigits(hex, bits, max);
    } else {
      r := ParseBinaryDigits(s, bits, max);
    }
  }

  /** The hexadecimal loop of `parse_raw_bits` (lines 61-70). */
  method ParseHexDigits(hex: string, bits: array<Bit>, max: int) returns (r: Result<int, string>)
    requires 0 <= max <= bits.Length
    modifies bits
    ensures r.Ok? <==> HexBits(hex, max).Ok?
    ensures r.Err? ==> r.error == HexBits(hex, max).error
    ensures r.Ok? ==> 0 <= r.value <= max && bits[..r.value] == HexBits(hex, max).value
  {
    var n := 0;
    var k := 0;
    while k < |hex|
      invariant 0 <= k <= |hex| && 0 <= n <= max
      invariant HexBits(hex[..k], max) == Ok(bits[..n])
    {
      assert hex[..k + 1][..k] == hex[..k];
      var v := HexDigit(hex[k]);
      if v.None? {
        HexErrorPersists(hex, k + 1, max);
        return Err("bad hex in raw");
      }
      if n + 4 > max {
        HexErrorPersists(hex, k + 1, max);
        return Err("raw hex too long");
      }
      var nibble := Nibble(v.value);
      ghost var before := bits[..n];
      bits[n] := nibble[0];
      bits[n + 1] := nibble[1];
      bits[n + 2] := nibble[2];
      bits[n + 3] := nibble[3];
      assert bits[..n + 4] == before + nibble by {
        assert bits[..n] == before;
      }
      n := n + 4;
      k := k + 1;
    }
    assert hex[..k] == hex;
    r := Ok(n);
  }

  /** The binary loop of `parse_raw_bits` (lines 72-76). */
  method ParseBinaryDigits(s: string, bits: array<Bit>, max: int) returns (r: Result<int, string>)
    requires 0 <= max <= bits.Length
    modifies bits
    ensures r.Ok? <==> BinBits(s, max).Ok?
    ensures r.Err? ==> r.error == BinBits(s, max).error
    ensures r.Ok? ==> 0 <= r.value <= max && bits[..r.value] == BinBits(s, max).value
  {
    var n := 0;
    var k := 0;
    while k < |s|
      invariant 0 <= k <= |s| && 0 <= n <= max
      invariant BinBits(s[..k], max) == Ok(bits[..n])
    {
      assert s[..k + 1][..k] == s[..k];
      var ch := s[k];
      if ch == '0' || ch == '1' {
        if n >= max {
          BinErrorPersists(s, k + 1, max);
          return Err("raw bits too long");
        }
        ghost var before := bits[..n];
        bits[n] := if ch == '1' then 1 else 0;
        assert bits[..n + 1] == before + [bits[n]] by {
          assert bits[..n] == before;
        }
        n := n + 1;
      } else if ch == ' ' || ch == '_' {
      } else {
        BinErrorPersists(s, k + 1, max);
        return Err("invalid char in raw bits");
      }
      k := k + 1;
    }
    assert s[..k] == s;
    r := Ok(n);
  }

  lemma {:induction false} HexErrorPersists(hex: string, k: nat, max: int)
    requires k <= |hex| && HexBits(hex[..k], max).Err?
    ensures HexBits(hex, max) == HexBits(hex[..k], max)
    decreases |hex| - k
  {
    if k == |hex| {
      assert hex[..k] == hex;
    } else {
      assert hex[..k + 1][..k] == hex[..k];
      HexErrorPersists(hex, k + 1, max);
    }
  }

  lemma {:induction false} BinErrorPersists(s: string, k: nat, max: int)
    requires k <= |s| && BinBits(s[..k], max).Err?
    ensures BinBits(s, max) == BinBits(s[..k], max)
    decreases |s| - k
  {
    if k == |s| {
      assert s[..k] == s;
    } else {
      assert s[..k + 1][..k] == s[..k];
      BinErrorPersists(s, k + 1, max);
    }
  }

  /** Hexadecimal digits parse exactly when every character is a digit and
      four bits per digit fit in `max`; then each digit gives its four bits,
      most significant first, in order. */
  lemma {:induction false} HexBitsSpec(hex: string, max: int)
    ensures HexBits(hex, max).Ok? <==>
              hex == [] || ((forall i | 0 <= i < |hex| :: HexDigit(hex[i]).Some?) && 4 * |hex| <= max)
    ensures HexBits(hex, max).Ok? ==>
              |HexBits(hex, max).value| == 4 * |hex| &&
              forall i | 0 <= i < |hex| ::
                HexBits(hex, max).value[4 * i..4 * i + 4] == Nibble(HexDigit(hex[i]).value)
    decreases |hex|
  {
    if hex != [] {
      var init := hex[..|hex| - 1];
      HexBitsSpec(init, max);
      assert forall i | 0 <= i < |init| :: init[i] == hex[i];
      match HexBits(init, max)
      case Err(_) =>
      case Ok(bits) =>
        match HexDigit(hex[|hex| - 1])
        case None =>
        case Some(v) =>
          if |bits| + 4 <= max {
            var all := bits + Nibble(v);
            forall i | 0 <= i < |hex|
              ensures all[4 * i..4 * i + 4] == Nibble(HexDigit(hex[i]).value)
            {
              if i < |init| {
                assert all[4 * i..4 * i + 4] == bits[4 * i..4 * i + 4];
              } else {
                assert all[4 * i..4 * i + 4] == Nibble(v);
              }
            }
          }
    }
  }

  /** The characters binary text may hold. */
  predicate BinChar(c: char) {
    c == '0' || c == '1' || c == ' ' || c == '_'
  }

  /** The bits the `0` and `1` characters of `s` stand for, in order. */
  function Digits01(s: string): seq<Bit>
    decreases |s|
  {
    if s == [] then []
    else
      var ch := s[|s| - 1];
      Digits01(s[..|s| - 1]) + (if ch == '0' || ch == '1' then [if ch == '1' then 1 else 0] else [])
  }

  /** Binary text parses exactly when it holds only `0`, `1`, space and `_`
      and at most `max` of its characters are digits; the bits are then the
      digits in order, the rest being skipped. */
  lemma {:induction false} BinBitsSpec(s: string, max: int)
    requires max >= 0
    ensures BinBits(s, max).Ok? <==>
              (forall i | 0 <= i < |s| :: BinChar(s[i])) && |Digits01(s)| <= max
    ensures BinBits(s, max).Ok? ==> BinBits(s, max).value == Digits01(s)
    decreases |s|
  {
    if s != [] {
      var init := s[..|s| - 1];
      var ch := s[|s| - 1];
      BinBitsSpec(init, max);
      assert forall i | 0 <= i < |init| :: init[i] == s[i];
      assert (forall i | 0 <= i < |s| :: BinChar(s[i])) <==>
             (forall i | 0 <= i < |init| :: BinChar(init[i])) && BinChar(ch);
      var more: seq<Bit> := if ch == '0' || ch == '1' then [if ch == '1' then 1 else 0] else [];
      assert Digits01(s) == Digits01(init) + more;
      match BinBits(init, max)
      case Err(_) =>
        assert BinBits(s, max).Err?;
      case Ok(bits) =>
        assert bits == Digits01(init);
        if ch == '0' || ch == '1' {
          assert BinBits(s, max) == if |bits| >= max then Err("raw bits too long") else Ok(bits + more);
        } else if ch == ' ' || ch == '_' {
          assert BinBits(s, max) == Ok(bits);
        } else {
          assert BinBits(s, max).Err?;
        }
    }
  }

  // ---------------------------------------------------------------------------
  // compose_fields and apply_parity

  /** `compose_fields(f, fb, c, cb, out, max)`: `fb` facility bits then `cb`
      card bits, each most significant first. A width of 64 or more would shift
      a 64-bit value too far, which C leaves undefined. */
  method ComposeFields(f: uint64, fb: nat, c: uint64, cb: nat, out: array<Bit>, max: int) returns (r: Result<int, string>)
    requires fb < 64 && cb < 64 && max <= out.Length
    modifies out
    ensures r.Err? <==> fb + cb > max
    ensures r.Err? ==> r.error == "buffer small"
    ensures r.Ok? ==> r.value == fb + cb && out[..fb + cb] == Field(f, fb) + Field(c, cb)
  {
    var n := fb + cb;
    if n > max {
      return Err("buffer small");
    }
    var i := 0;
    while i < fb
      invariant 0 <= i <= fb
      invariant out[..i] == Field(f, fb)[..i]
    {
      out[i] := Shr(f, fb - 1 - i) % 2;
      assert out[..i + 1] == Field(f, fb)[..i + 1];
      i := i + 1;
    }
    i := 0;
    while i < cb
      invariant 0 <= i <= cb
      invariant out[..fb] == Field(f, fb)
      invariant out[fb..fb + i] == Field(c, cb)[..i]
    {
      out[fb + i] := Shr(c, cb - 1 - i) % 2;
      assert out[fb..fb + i + 1] == Field(c, cb)[..i + 1];
      i := i + 1;
    }
    assert out[..fb + cb] == out[..fb] + out[fb..fb + cb];
    r := Ok(n);
  }

  /** The bits a parity mode adds to the data. */
  function Extra(mode: Mode): nat {
    match mode
    case ParNone => 0
    case ParWholeEven => 1
    case ParWholeOdd => 1
    case ParStd => 2
  }

  /** The frame `apply_parity` builds around the data. */
  function Framed(mode: Mode, data: seq<Bit>): (frame: seq<Bit>)
    ensures |frame| == |data| + Extra(mode)
  {
    match mode
    case ParNone => data
    case ParWholeEven => data + [if EvenWeight(data) then 1 else 0]
    case ParWholeOdd => data + [if EvenWeight(data) then 0 else 1]
    case ParStd =>
      var left := |data| / 2;
      [if EvenWeight(data[..left]) then 1 else 0] + data + [if EvenWeight(data[left..]) then 0 else 1]
  }

  /** What each mode adds: nothing; one bit after the data that is 1 under
      whole-even exactly when the data has even weight, and the opposite under
      whole-odd; or, for standard parity, a leading bit that is 1 exactly when
      the first `floor(n/2)` bits have even weight and a trailing bit that is 1
      exactly when the rest have odd weight. */
  lemma FramedSpec(mode: Mode, data: seq<Bit>)
    ensures var frame := Framed(mode, data);
            var left := |data| / 2;
            (mode == ParNone ==> frame == data) &&
            (mode == ParWholeEven || mode == ParWholeOdd ==>
               frame[..|data|] == data &&
               (frame[|data|] == 1 <==> (mode == ParWholeEven) == EvenWeight(data))) &&
            (mode == ParStd ==>
               frame[1..|data| + 1] == data &&
               (frame[0] == 1 <==> EvenWeight(data[..left])) &&
               (frame[|data| + 1] == 1 <==> !EvenWeight(data[left..])))
  {
    var frame := Framed(mode, data);
    if mode == ParWholeEven || mode == ParWholeOdd {
      assert frame[..|data|] == data;
    } else if mode == ParStd {
      assert frame[1..|data| + 1] == data;
    }
  }

  /** `memcpy(dst + at, src, n)` */
  method MemCpy(dst: array<Bit>, at: nat, src: array<Bit>, n: nat)
    requires dst != src && at + n <= dst.Length && n <= src.Length
    modifies dst
    ensures dst[at..at + n] == src[..n]
    ensures forall i | 0 <= i < dst.Length && !(at <= i < at + n) :: dst[i] == old(dst[i])
  {
    var i := 0;
    while i < n
      invariant 0 <= i <= n
      invariant dst[at..at + i] == src[..i]
      invariant forall j | 0 <= j < dst.Length && !(at <= j < at + i) :: dst[j] == old(dst[j])
    {
      dst[at + i] := src[i];
      assert dst[at..at + i + 1] == src[..i + 1];
      i := i + 1;
    }
  }

  /** `apply_parity(data, dlen, mode, frame, max)`: the frame length, with the
      frame in `frame[..length]`. */
  method ApplyParity(data: array<Bit>, dlen: nat, mode: Mode, frame: array<Bit>, max: int) returns (r: Result<int, string>)
    requires data != frame && dlen <= data.Length && max <= frame.Length
    modifies frame
    ensures r.Err? <==> dlen + Extra(mode) > max
    ensures r.Err? ==> r.error == "buffer small"
    ensures r.Ok? ==> r.value == dlen + Extra(mode) && frame[..r.value] == Framed(mode, data[..dlen])
  {
    if dlen + Extra(mode) > max {
      return Err("buffer small");
    }
    if mode == ParNone {
      MemCpy(frame, 0, data, dlen);
      return Ok(dlen);
    }
    if mode == ParWholeEven || mode == ParWholeOdd {
      WholeParity(data, dlen, mode == ParWholeEven, frame);
      return Ok(dlen + 1);
    }
    SplitParity(data, dlen, frame);
    r := Ok(dlen + 2);
  }

  /** Whole-frame parity: the data, then one bit making the weight even
      (`even`) or odd. */
  method WholeParity(data: array<Bit>, dlen: nat, even: bool, frame: array<Bit>)
    requires data != frame && dlen <= data.Length && dlen + 1 <= frame.Length
    modifies frame
    ensures frame[..dlen + 1] == Framed(if even then ParWholeEven else ParWholeOdd, data[..dlen])
  {
    MemCpy(frame, 0, data, dlen);
    var pe := ParityEvenBits(data, 0, dlen);
    frame[dlen] := if even then (if pe then 1 else 0) else (if pe then 0 else 1);
    assert frame[..dlen + 1] == frame[..dlen] + [frame[dlen]];
  }

  /** The two bits standard parity puts around the data. */
  method StdParityBits(data: array<Bit>, dlen: nat) returns (first: Bit, last: Bit)
    requires dlen <= data.Length
    ensures Framed(ParStd, data[..dlen]) == [first] + data[..dlen] + [last]
  {
    ghost var d := data[..dlen];
    var left := dlen / 2;
    var right := dlen - left;
    var peLeft := ParityEvenBits(data, 0, left);
    var peRight := ParityEvenBits(data, left, right);
    assert (if left <= 0 then [] else data[0..left]) == d[..left];
    assert (if right <= 0 then [] else data[left..left + right]) == d[left..];
    first := if peLeft then 1 else 0;
    last := if peRight then 0 else 1;
  }

  /** Standard parity: an even-parity bit over the first half, the data, and
      an odd-parity bit over the second half. */
  method SplitParity(data: array<Bit>, dlen: nat, frame: array<Bit>)
    requires data != frame && dlen <= data.Length && dlen + 2 <= frame.Length
    modifies frame
    ensures frame[..dlen + 2] == Framed(ParStd, data[..dlen])
  {
    var first, last := StdParityBits(data, dlen);
    ghost var d := data[..dlen];
    frame[0] := first;
    MemCpy(frame, 1, data, dlen);
    frame[1 + dlen] := last;
    assert frame[1..1 + dlen] == d;
    assert frame[..dlen + 2] == [first] + frame[1..1 + dlen] + [last];
  }

  // ---------------------------------------------------------------------------
  // main: validation, padding and transmission

  /** The parsed command line. Lines are the values `(int)` gives back; a
      missing line is -1, a missing width -1 and a missing frame length 0. */
  datatype Config = Config(
    d0Line: int, d1Line: int,
    frameBits: int, facilityBits: int, cardBits: int, formatBits: int,
    facility: uint64, card: uint64,
    rawBits: Option<string>, parity: Mode,
    pulseUs: int, spaceUs: int)

  /** The facility and card widths `main` uses: given ones only when both are
      given, otherwise the format's. */
  function WidthsOf(cfg: Config): (nat, nat)
    requires Widths(cfg.formatBits).Some?
  {
    if cfg.facilityBits < 0 || cfg.cardBits < 0 then Widths(cfg.formatBits).value
    else (cfg.facilityBits, cfg.cardBits)
  }

  /** `1ULL << w` is defined for every width `main` can shift by. */
  predicate ShiftsDefined(cfg: Config) {
    cfg.rawBits.Some? || cfg.facilityBits < 0 || cfg.cardBits < 0 || (cfg.facilityBits < 64 && cfg.cardBits < 64)
  }

  /** The facility and card fields `main` composes when no raw bits are
      given, after checking the format and that both values fit. */
  function Composed(cfg: Config): Result<seq<Bit>, string> {
    if Widths(cfg.formatBits).None? then Err("unsupported format")
    else
      var (fb, cb) := WidthsOf(cfg);
      if cfg.facility >= Pow2(fb) || cfg.card >= Pow2(cb) then Err("facility/card exceeds width")
      else if fb + cb > 512 then Err("buffer small")
      else Ok(Field(cfg.facility, fb) + Field(cfg.card, cb))
  }

  /** Composed data padded with leading zeros for a parity-free frame of
      `frame_bits`; such a frame may not be shorter than the data or longer
      than the buffer. */
  function Padded(cfg: Config, data: seq<Bit>): Result<seq<Bit>, string> {
    if cfg.parity == ParNone && cfg.frameBits > 0 then
      if cfg.frameBits < |data| then Err("frame-bits < data bits")
      else if cfg.frameBits > |data| then
        if cfg.frameBits > 512 then Err("frame-bits too large")
        else Ok(Zeros(cfg.frameBits - |data|) + data)
      else Ok(data)
    else Ok(data)
  }

  /** The data bits of the composed path: the fields, padded. */
  function Fields(cfg: Config): Result<seq<Bit>, string> {
    match Composed(cfg)
    case Err(e) => Err(e)
    case Ok(data) => Padded(cfg, data)
  }

  /** The frame `main` transmits, or why it stops. */
  function Frame(cfg: Config): (r: Result<seq<Bit>, string>)
    ensures r.Ok? ==> Extra(cfg.parity) <= |r.value| <= 520
  {
    if cfg.d0Line < 0 || cfg.d1Line < 0 then Err("usage")
    else if cfg.pulseUs < 20 || cfg.pulseUs > 5000 then Err("pulse-us out of range")
    else if cfg.spaceUs < cfg.pulseUs then Err("space-us must be >= pulse-us")
    else
      var data := if cfg.rawBits.Some? then RawBits(cfg.rawBits, 512) else Fields(cfg);
      if data.Err? then Err(data.error)
      else if |data.value| + Extra(cfg.parity) > 520 then Err("buffer small")
      else
        var frame := Framed(cfg.parity, data.value);
        if cfg.frameBits > 0 && cfg.frameBits != |frame| then Err("frame-bits mismatch")
        else Ok(frame)
  }

  /** `memmove(a + dst, a + src, n)` for a move towards the end. */
  method MemMove(a: array<Bit>, dst: nat, src: nat, n: nat)
    requires src <= dst && dst + n <= a.Length
    modifies a
    ensures a[dst..dst + n] == old(a[src..src + n])
    ensures forall i | 0 <= i < a.Length && !(dst <= i < dst + n) :: a[i] == old(a[i])
  {
    var k := n;
    while k > 0
      invariant 0 <= k <= n
      invariant a[dst + k..dst + n] == old(a[src + k..src + n])
      invariant forall i | 0 <= i < a.Length && !(dst + k <= i < dst + n) :: a[i] == old(a[i])
    {
      a[dst + k - 1] := a[src + k - 1];
      assert a[dst + k - 1..dst + n] == [a[dst + k - 1]] + a[dst + k..dst + n];
      assert old(a[src + k - 1..src + n]) == [old(a[src + k - 1])] + old(a[src + k..src + n]);
      k := k - 1;
    }
  }

  /** `memset(a, 0, n)` */
  method MemSetZero(a: array<Bit>, n: nat)
    requires n <= a.Length
    modifies a
    ensures a[..n] == Zeros(n)
    ensures forall i | n <= i < a.Length :: a[i] == old(a[i])
  {
    var i := 0;
    while i < n
      invariant 0 <= i <= n
      invariant a[..i] == Zeros(i)
      invariant forall j | i <= j < a.Length :: a[j] == old(a[j])
    {
      a[i] := 0;
      assert a[..i + 1] == Zeros(i + 1);
      i := i + 1;
    }
  }

  /** Lines 172-173 of `main`: move the `dlen` data bits to the end of a frame
      of `frameBits` and fill the front with zeros. */
  method PadFront(data: array<Bit>, dlen: nat, frameBits: nat)
    requires dlen <= frameBits <= data.Length
    modifies data
    ensures data[..frameBits] == Zeros(frameBits - dlen) + old(data[..dlen])
  {
    var pad := frameBits - dlen;
    ghost var fields := data[..dlen];
    MemMove(data, pad, 0, dlen);
    assert data[pad..pad + dlen] == fields;
    MemSetZero(data, pad);
    assert data[..frameBits] == data[..pad] + data[pad..pad + dlen];
  }

  /** Lines 154-175 of `main`: validate the format and the values, compose the
      fields into `data` and pad a parity-free frame. */
  method BuildFields(cfg: Config, data: array<Bit>) returns (r: Result<int, string>)
    requires cfg.rawBits.None? && ShiftsDefined(cfg) && data.Length == 512
    modifies data
    ensures r.Ok? <==> Fields(cfg).Ok?
    ensures r.Err? ==> r.error == Fields(cfg).error
    ensures r.Ok? ==> 0 <= r.value <= 512 && data[..r.value] == Fields(cfg).value
  {
    var n := cfg.formatBits;
    if !(n == 26 || n == 34 || n == 35 || n == 37 || n == 48) {
      return Err("unsupported format");
    }
    var fb, cb := cfg.facilityBits, cfg.cardBits;
    if fb < 0 || cb < 0 {
      fb, cb := Widths(n).value.0, Widths(n).value.1;
    }
    if cfg.facility >= Pow2(fb) || cfg.card >= Pow2(cb) {
      return Err("facility/card exceeds width");
    }
    assert (fb, cb) == WidthsOf(cfg);
    var composed := ComposeFields(cfg.facility, fb, cfg.card, cb, data, 512);
    assert composed.Ok?;
    var dlen := composed.value;
    assert Composed(cfg) == Ok(data[..dlen]);
    r := PadFields(cfg, data, dlen);
  }

  /** Lines 169-175 of `main`: leading zeros up to `frame_bits` for a
      parity-free frame. */
  method PadFields(cfg: Config, data: array<Bit>, dlen: nat) returns (r: Result<int, string>)
    requires data.Length == 512 && dlen <= 512
    modifies data
    ensures var padded := Padded(cfg, old(data[..dlen]));
            && (r.Ok? <==> padded.Ok?)
            && (r.Err? ==> r.error == padded.error)
            && (r.Ok? ==> 0 <= r.value <= 512 && data[..r.value] == padded.value)
  {
    r := Ok(dlen);
    if cfg.parity == ParNone && cfg.frameBits > 0 {
      if cfg.frameBits < dlen {
        return Err("frame-bits < data bits");
      }
      if cfg.frameBits > dlen {
        if cfg.frameBits > 512 {
          return Err("frame-bits too large");
        }
        PadFront(data, dlen, cfg.frameBits);
        r := Ok(cfg.frameBits);
      }
    }
  }

  /** Lines 146-180 of `main`: the frame length, with the frame in
      `frame[..length]`, or the reason `main` stops. */
  method BuildFrame(cfg: Config) returns (frame: array<Bit>, r: Result<int, string>)
    requires ShiftsDefined(cfg)
    ensures r.Ok? <==> Frame(cfg).Ok?
    ensures r.Err? ==> r.error == Frame(cfg).error
    ensures r.Ok? ==> 0 <= r.value <= frame.Length && frame[..r.value] == Frame(cfg).value
  {
    frame := new Bit[520];
    if cfg.d0Line < 0 || cfg.d1Line < 0 {
      return frame, Err("usage");
    }
    if cfg.pulseUs < 20 || cfg.pulseUs > 5000 {
      return frame, Err("pulse-us out of range");
    }
    if cfg.spaceUs < cfg.pulseUs {
      return frame, Err("space-us must be >= pulse-us");
    }
    var data := new Bit[512];
    var dlen: Result<int, string>;
    if cfg.rawBits.Some? {
      dlen := ParseRawBits(cfg.rawBits, data, 512);
    } else {
      dlen := BuildFields(cfg, data);
    }
    if dlen.Err? {
      return frame, Err(dlen.error);
    }
    var flen := ApplyParity(data, dlen.value, cfg.parity, frame, 520);
    if flen.Err? {
      return frame, Err(flen.error);
    }
    if cfg.frameBits > 0 && cfg.frameBits != flen.value {
      return frame, Err("frame-bits mismatch");
    }
    r := Ok(flen.value);
  }

  /** One bit on the wire: the line pulled low, for how long, and the pause
      after it is released. */
  datatype Pulse = Pulse(line: int, lowUs: int, spaceUs: int)

  /** The line that carries a bit: D0 for 0, D1 for 1. */
  function LineFor(bit: Bit, d0: int, d1: int): int {
    if bit == 0 then d0 else d1
  }

  /** Lines 211-217 of `main`: one pulse per frame bit, in frame order. */
  method Transmit(frame: array<Bit>, flen: int, cfg: Config) returns (pulses: seq<Pulse>)
    requires flen <= frame.Length
    ensures |pulses| == if flen > 0 then flen else 0
    ensures forall i | 0 <= i < |pulses| ::
              pulses[i] == Pulse(LineFor(frame[i], cfg.d0Line, cfg.d1Line), cfg.pulseUs, cfg.spaceUs)
  {
    pulses := [];
    var i := 0;
    while i < flen
      invariant 0 <= i <= frame.Length
      invariant flen > 0 ==> i <= flen
      invariant flen <= 0 ==> i == 0
      invariant |pulses| == i
      invariant forall j | 0 <= j < i ::
                  pulses[j] == Pulse(LineFor(frame[j], cfg.d0Line, cfg.d1Line), cfg.pulseUs, cfg.spaceUs)
    {
      var offset := if frame[i] == 0 then cfg.d0Line else cfg.d1Line;
      pulses := pulses + [Pulse(offset, cfg.pulseUs, cfg.spaceUs)];
      i := i + 1;
    }
  }

  /** What a receiver reads from the pulses: a pulse on D1 is a 1. */
  function Received(pulses: seq<Pulse>, d1: int): (bits: seq<Bit>)
    ensures |bits| == |pulses|
  {
    seq(|pulses|, i requires 0 <= i < |pulses| => if pulses[i].line == d1 then 1 else 0)
  }

  /** On two distinct lines the pulses carry the frame exactly. */
  lemma ReceivedFrame(frame: seq<Bit>, pulses: seq<Pulse>, d0: int, d1: int)
    requires d0 != d1 && |pulses| == |frame|
    requires forall i | 0 <= i < |pulses| :: pulses[i].line == LineFor(frame[i], d0, d1)
    ensures Received(pulses, d1) == frame
  {
  }

  /** `main` with the hardware left out: the pulses it sends, or why it stops. */
  method Run(cfg: Config) returns (r: Result<seq<Pulse>, string>)
    requires ShiftsDefined(cfg)
    ensures r.Ok? <==> Frame(cfg).Ok?
    ensures r.Err? ==> r.error == Frame(cfg).error
    ensures r.Ok? ==> |r.value| == |Frame(cfg).value| &&
                      forall i | 0 <= i < |r.value| ::
                        r.value[i] == Pulse(LineFor(Frame(cfg).value[i], cfg.d0Line, cfg.d1Line), cfg.pulseUs, cfg.spaceUs)
    ensures r.Ok? && cfg.d0Line != cfg.d1Line ==> Received(r.value, cfg.d1Line) == Frame(cfg).value
  {
    var frame, flen := BuildFrame(cfg);
    if flen.Err? {
      return Err(flen.error);
    }
    var pulses := Transmit(frame, flen.value, cfg);
    assert forall i | 0 <= i < |pulses| :: frame[i] == Frame(cfg).value[i];
    if cfg.d0Line != cfg.d1Line {
      ReceivedFrame(Frame(cfg).value, pulses, cfg.d0Line, cfg.d1Line);
    }
    r := Ok(pulses);
  }

  /** A frame is sent only when both lines are given, the pulse lasts 20 to
      5000 microseconds and the space is no shorter, and, without raw bits,
      when the format is a standard one and facility and card fit their
      widths; a positive `frame_bits` is then the frame's length. */
  lemma FrameAccepted(cfg: Config)
    requires Frame(cfg).Ok?
    ensures cfg.d0Line >= 0 && cfg.d1Line >= 0
    ensures 20 <= cfg.pulseUs <= 5000 && cfg.spaceUs >= cfg.pulseUs
    ensures cfg.frameBits > 0 ==> |Frame(cfg).value| == cfg.frameBits
    ensures cfg.rawBits.None? ==>
              cfg.formatBits in {26, 34, 35, 37, 48} &&
              cfg.facility < Pow2(WidthsOf(cfg).0) && cfg.card < Pow2(WidthsOf(cfg).1)
  {
  }

  /** Without raw bits the frame carries the facility and then the card code,
      each most significant bit first, and each reads back as its value. */
  lemma ComposedFieldsReadBack(cfg: Config)
    requires cfg.rawBits.None? && Composed(cfg).Ok?
    ensures var (fb, cb) := WidthsOf(cfg);
            Composed(cfg).value[..fb] == Field(cfg.facility, fb) &&
            Composed(cfg).value[fb..] == Field(cfg.card, cb) &&
            Unsigned(Composed(cfg).value[..fb]) == cfg.facility &&
            Unsigned(Composed(cfg).value[fb..]) == cfg.card
  {
    var (fb, cb) := WidthsOf(cfg);
    assert Composed(cfg).value[..fb] == Field(cfg.facility, fb);
    assert Composed(cfg).value[fb..] == Field(cfg.card, cb);
    FieldValue(cfg.facility, fb);
    FieldValue(cfg.card, cb);
  }

  /** Without parity and with a positive `frame_bits`, composed data shorter
      than the frame is left-padded with zeros up to it, longer data fails, and
      so does a frame longer than the 512-bit buffer. */
  lemma NoParityPadding(cfg: Config)
    requires cfg.rawBits.None? && cfg.parity == ParNone && cfg.frameBits > 0 && Composed(cfg).Ok?
    requires cfg.d0Line >= 0 && cfg.d1Line >= 0 && 20 <= cfg.pulseUs <= 5000 && cfg.spaceUs >= cfg.pulseUs
    ensures var data := Composed(cfg).value;
            Frame(cfg) == if cfg.frameBits < |data| then Err("frame-bits < data bits")
                          else if cfg.frameBits > 512 then Err("frame-bits too large")
                          else Ok(Zeros(cfg.frameBits - |data|) + data)
  {
    var data := Composed(cfg).value;
    assert Zeros(0) + data == data;
    assert |data| <= 512;
  }

  /** Raw bits are never padded: without parity, a positive `frame_bits` other
      than their count is a mismatch. */
  lemma RawNotPadded(cfg: Config)
    requires cfg.rawBits.Some? && cfg.parity == ParNone && cfg.frameBits > 0
    requires cfg.d0Line >= 0 && cfg.d1Line >= 0 && 20 <= cfg.pulseUs <= 5000 && cfg.spaceUs >= cfg.pulseUs
    requires RawBits(cfg.rawBits, 512).Ok? && |RawBits(cfg.rawBits, 512).value| != cfg.frameBits
    ensures Frame(cfg) == Err("frame-bits mismatch")
  {
    RawBitsBound(cfg.rawBits, 512);
  }

  /** Parsed raw bits never pass `max`. */
  lemma RawBitsBound(raw: Option<string>, max: int)
    requires max >= 0 && RawBits(raw, max).Ok?
    ensures |RawBits(raw, max).value| <= max
  {
    if raw.Some? {
      if HexPrefixed(raw.value) {
        HexBitsSpec(raw.value[2..], max);
      } else {
        BinBitsSpec(raw.value, max);
        Digits01Bound(raw.value);
      }
    }
  }

  lemma {:induction false} Digits01Bound(s: string)
    ensures |Digits01(s)| <= |s|
    decreases |s|
  {
    if s != [] {
      Digits01Bound(s[..|s| - 1]);
    }
  }

  /** With the format's own widths and standard parity, formats 26, 34 and 48
      give frames of that many bits, but format 35 gives 37 bits and format 37
      gives 36. */
  lemma StdFrameLengths(cfg: Config)
    requires cfg.rawBits.None? && cfg.parity == ParStd && (cfg.facilityBits < 0 || cfg.cardBits < 0)
    requires Frame(cfg).Ok?
    ensures cfg.formatBits in {26, 34, 48} ==> |Frame(cfg).value| == cfg.formatBits
    ensures cfg.formatBits == 35 ==> |Frame(cfg).value| == 37
    ensures cfg.formatBits == 37 ==> |Frame(cfg).value| == 36
  {
  }
}
