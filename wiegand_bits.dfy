/** The JavaScript Wiegand helpers: parse raw bits from hex or binary text,
    compose facility and card fields, add parity and format bits as text. */
module WiegandBits {
  import opened Wrappers
  import opened JsValue
  import opened WiegandFrame

  /** `parityEven(bits)`: true when an even number of bits is set. */
  method ParityEven(bits: seq<Bit>) returns (r: bool)
    ensures r <==> EvenWeight(bits)
  {
    var c := 0;
    var k := 0;
    while k < |bits|
      invariant 0 <= k <= |bits|
      invariant c == Ones(bits[..k])
    {
      assert bits[..k + 1][..k] == bits[..k];
      if bits[k] == 1 {
        c := c + 1;
      }
      k := k + 1;
    }
    assert bits[..k] == bits;
    r := c % 2 == 0;
  }

  // ---------------------------------------------------------------------------
  // bitsFromHexOrBin

  /** `/^0x/i.test(raw)` */
  predicate HexPrefixed(raw: string) {
    |raw| >= 2 && raw[0] == '0' && (raw[1] == 'x' || raw[1] == 'X')
  }

  /** The bits of hexadecimal digits, four per digit, most significant first;
      any character that is not a hexadecimal digit is "bad hex". */
  function HexDecode(hex: string): Result<seq<Bit>, string>
    decreases |hex|
  {
    if hex == [] then Ok([])
    else match HexDecode(hex[..|hex| - 1])
         case Err(e) => Err(e)
         case Ok(bits) =>
           match HexDigit(hex[|hex| - 1])
           case None => Err("bad hex")
           case Some(v) => Ok(bits + Nibble(v))
  }

  /** One bit per character: only `0` and `1` are accepted. */
  function BinDecode(s: string): Result<seq<Bit>, string>
    decreases |s|
  {
    if s == [] then Ok([])
    else match BinDecode(s[..|s| - 1])
         case Err(e) => Err(e)
         case Ok(bits) =>
           var ch := s[|s| - 1];
           if ch != '0' && ch != '1' then Err("bad bit char")
           else Ok(bits + [if ch == '1' then 1 else 0])
  }

  /** `s.replace(/[\s_]/g, "")` */
  function Strip(s: string): (t: string)
    ensures |t| <= |s|
    decreases |s|
  {
    if s == [] then []
    else
      var ch := s[|s| - 1];
      Strip(s[..|s| - 1]) + (if IsJsSpace(ch) || ch == '_' then [] else [ch])
  }

  /** What `bitsFromHexOrBin(raw)` yields; `None` is `null` or `undefined`. */
  function Decode(raw: Option<string>): (r: Result<seq<Bit>, string>)
    ensures raw.None? || raw.value == "" ==> r == Ok([])
    ensures r.Err? ==> r.error == "bad hex" || r.error == "bad bit char"
    ensures raw.Some? && HexPrefixed(raw.value) && r.Ok? ==> |r.value| == 4 * (|raw.value| - 2)
    ensures raw.Some? && !HexPrefixed(raw.value) && r.Ok? ==> |r.value| <= |raw.value|
  {
    if raw.None? || raw.value == "" then Ok([])
    else if HexPrefixed(raw.value) then HexDecodeSpec(raw.value[2..]); HexDecode(raw.value[2..])
    else BinDecodeSpec(Strip(raw.value)); BinDecode(Strip(raw.value))
  }

  /** `bitsFromHexOrBin(raw)` */
  method BitsFromHexOrBin(raw: Option<string>) returns (r: Result<seq<Bit>, string>)
    ensures r == Decode(raw)
  {
    var out: seq<Bit> := [];
    if raw.None? || raw.value == "" {
      return Ok(out);
    }
    var text := raw.value;
    if HexPrefixed(text) {
      var hex := text[2..];
      var k := 0;
      while k < |hex|
        invariant 0 <= k <= |hex|
        invariant HexDecode(hex[..k]) == Ok(out)
      {
        assert hex[..k + 1][..k] == hex[..k];
        var v := HexDigit(hex[k]);
        if v.None? {
          HexErrorPersists(hex, k + 1);
          return Err("bad hex");
        }
        out := out + Nibble(v.value);
        k := k + 1;
      }
      assert hex[..k] == hex;
    } else {
      var stripped := Strip(text);
      var k := 0;
      while k < |stripped|
        invariant 0 <= k <= |stripped|
        invariant BinDecode(stripped[..k]) == Ok(out)
      {
        assert stripped[..k + 1][..k] == stripped[..k];
        var ch := stripped[k];
        if ch != '0' && ch != '1' {
          BinErrorPersists(stripped, k + 1);
          return Err("bad bit char");
        }
        out := out + [if ch == '1' then 1 else 0];
        k := k + 1;
      }
      assert stripped[..k] == stripped;
    }
    r := Ok(out);
  }

  lemma {:induction false} HexErrorPersists(hex: string, k: nat)
    requires k <= |hex| && HexDecode(hex[..k]).Err?
    ensures HexDecode(hex) == HexDecode(hex[..k])
    decreases |hex| - k
  {
    if k == |hex| {
      assert hex[..k] == hex;
    } else {
      assert hex[..k + 1][..k] == hex[..k];
      HexErrorPersists(hex, k + 1);
    }
  }

  lemma {:induction false} BinErrorPersists(s: string, k: nat)
    requires k <= |s| && BinDecode(s[..k]).Err?
    ensures BinDecode(s) == BinDecode(s[..k])
    decreases |s| - k
  {
    if k == |s| {
      assert s[..k] == s;
    } else {
      assert s[..k + 1][..k] == s[..k];
      BinErrorPersists(s, k + 1);
    }
  }

  /** Hexadecimal text decodes exactly when every character is a hexadecimal
      digit; then each digit gives its four bits, most significant first, in
      order. */
  lemma {:induction false} HexDecodeSpec(hex: string)
    ensures HexDecode(hex).Ok? <==> forall i | 0 <= i < |hex| :: HexDigit(hex[i]).Some?
    ensures HexDecode(hex).Err? ==> HexDecode(hex).error == "bad hex"
    ensures HexDecode(hex).Ok? ==>
              |HexDecode(hex).value| == 4 * |hex| &&
              forall i | 0 <= i < |hex| ::
                HexDecode(hex).value[4 * i..4 * i + 4] == Nibble(HexDigit(hex[i]).value)
    decreases |hex|
  {
    if hex != [] {
      var init := hex[..|hex| - 1];
      HexDecodeSpec(init);
      assert forall i | 0 <= i < |init| :: init[i] == hex[i];
      match HexDecode(init)
      case Err(_) =>
      case Ok(bits) =>
        match HexDigit(hex[|hex| - 1])
        case None =>
        case Some(v) =>
          var all := bits + Nibble(v);
          forall i | 0 <= i < |hex|
            ensures all[4 * i..4 * i + 4] == Nibble(HexDigit(hex[i]).value)
          {
            if i < |init| {
              assert all[4 * i..4 * i + 4] == bits[4 * i..4 * i + 4];
            } else {
              assert all[4 * i..4 * i + 4] == Nibble(v);
            }
          }
    }
  }

  /** Binary text decodes exactly when every character is `0` or `1`; then bit
      `i` is set exactly when character `i` is `1`. */
  lemma {:induction false} BinDecodeSpec(s: string)
    ensures BinDecode(s).Ok? <==> forall i | 0 <= i < |s| :: s[i] == '0' || s[i] == '1'
    ensures BinDecode(s).Err? ==> BinDecode(s).error == "bad bit char"
    ensures BinDecode(s).Ok? ==>
              |BinDecode(s).value| == |s| &&
              forall i | 0 <= i < |s| :: (BinDecode(s).value[i] == 1 <==> s[i] == '1')
    decreases |s|
  {
    if s != [] {
      var init := s[..|s| - 1];
      BinDecodeSpec(init);
      assert forall i | 0 <= i < |init| :: init[i] == s[i];
    }
  }

  /** `formatBits(bits)`: one `0` or `1` character per bit. */
  function FormatBits(bits: seq<Bit>): (text: string)
    ensures |text| == |bits|
  {
    seq(|bits|, i requires 0 <= i < |bits| => if bits[i] == 1 then '1' else '0')
  }

  lemma {:induction false} BinDecodeFormat(bits: seq<Bit>)
    ensures BinDecode(FormatBits(bits)) == Ok(bits)
    decreases |bits|
  {
    if bits != [] {
      var init := bits[..|bits| - 1];
      assert FormatBits(bits)[..|bits| - 1] == FormatBits(init);
      BinDecodeFormat(init);
      assert init + [bits[|bits| - 1]] == bits;
    }
  }

  lemma {:induction false} StripKeepsBits(s: string)
    requires forall i | 0 <= i < |s| :: s[i] == '0' || s[i] == '1'
    ensures Strip(s) == s
    decreases |s|
  {
    if s != [] {
      StripKeepsBits(s[..|s| - 1]);
      assert s[..|s| - 1] + [s[|s| - 1]] == s;
    }
  }

  /** Formatting bits as text and parsing the text gives back the same bits;
      formatted text holds only `0` and `1`, one per bit. */
  lemma RoundTrip(bits: seq<Bit>)
    ensures forall i | 0 <= i < |bits| :: FormatBits(bits)[i] == '0' || FormatBits(bits)[i] == '1'
    ensures Decode(Some(FormatBits(bits))) == Ok(bits)
  {
    var text := FormatBits(bits);
    if text != "" {
      assert !HexPrefixed(text);
      StripKeepsBits(text);
      BinDecodeFormat(bits);
    }
  }

  // ---------------------------------------------------------------------------
  // composeData

  /** The 32-bit pattern `ToInt32(v)` stands for. */
  function ToUint32(v: int): nat {
    v % 0x1_0000_0000
  }

  /** `(v >> i) & 1` on a JavaScript number holding an integer: the operand is
      taken as 32 bits and the shift count modulo 32. */
  function JsBit(v: int, i: nat): Bit {
    Shr(ToUint32(v), i % 32) % 2
  }

  /** The bits the loop `for (i = w-1; i >= 0; --i) push((v >> i) & 1)` pushes. */
  function JsField(v: int, w: int): (bits: seq<Bit>)
    ensures |bits| == if w > 0 then w else 0
  {
    if w <= 0 then [] else seq(w, i requires 0 <= i < w => JsBit(v, w - 1 - i))
  }

  datatype Composed = Composed(data: seq<Bit>, facilityBits: int, cardBits: int)

  /** `composeData({format, facility, card, facilityBits, cardBits})`; a width
      that is `None` is `null` or `undefined`, and then both widths come from
      the format. */
  method ComposeData(format: int, facility: int, card: int, facilityBits: Option<int>, cardBits: Option<int>)
    returns (r: Result<Composed, string>)
    ensures r.Err? <==> (facilityBits.None? || cardBits.None?) && Widths(format).None?
    ensures r.Err? ==> r.error == "unsupported format"
    ensures r.Ok? ==>
              (facilityBits.Some? && cardBits.Some? ==>
                 r.value.facilityBits == facilityBits.value && r.value.cardBits == cardBits.value) &&
              (facilityBits.None? || cardBits.None? ==>
                 (r.value.facilityBits, r.value.cardBits) == Widths(format).value) &&
              r.value.data == JsField(facility, r.value.facilityBits) + JsField(card, r.value.cardBits)
  {
    var fb: int, cb: int;
    if facilityBits.None? || cardBits.None? {
      var w := Widths(format);
      if w.None? {
        return Err("unsupported format");
      }
      fb, cb := w.value.0, w.value.1;
    } else {
      fb, cb := facilityBits.value, cardBits.value;
    }
    var data: seq<Bit> := [];
    var i := fb - 1;
    while i >= 0
      invariant 0 <= fb - 1 - i <= |JsField(facility, fb)|
      invariant data == JsField(facility, fb)[..fb - 1 - i]
    {
      assert JsField(facility, fb)[..fb - i] == data + [JsBit(facility, i)];
      data := data + [JsBit(facility, i)];
      i := i - 1;
    }
    assert data == JsField(facility, fb);
    i := cb - 1;
    while i >= 0
      invariant 0 <= cb - 1 - i <= |JsField(card, cb)|
      invariant data == JsField(facility, fb) + JsField(card, cb)[..cb - 1 - i]
    {
      assert JsField(card, cb)[..cb - i] == JsField(card, cb)[..cb - 1 - i] + [JsBit(card, i)];
      data := data + [JsBit(card, i)];
      i := i - 1;
    }
    assert JsField(card, cb)[..cb - 1 - i] == JsField(card, cb);
    r := Ok(Composed(data, fb, cb));
  }

  /** A value that fits both its width and 32 bits is written exactly: the
      field reads back as the value. */
  lemma JsFieldExact(v: int, w: nat)
    requires w <= 32 && 0 <= v < Pow2(w) && v < 0x1_0000_0000
    ensures JsField(v, w) == Field(v, w)
    ensures Unsigned(JsField(v, w)) == v
  {
    var js := JsField(v, w);
    var exact := Field(v, w);
    forall i | 0 <= i < w ensures js[i] == exact[i] {
      JsBitExact(v, w - 1 - i);
    }
    assert js == exact;
    FieldValue(v, w);
  }

  /** Within 32 bits, the shift-and-mask reads the same bit as `Shr`. */
  lemma JsBitExact(v: int, k: nat)
    requires 0 <= v < 0x1_0000_0000 && k < 32
    ensures JsBit(v, k) == Shr(v, k) % 2
  {
    assert ToUint32(v) == v;
    assert k % 32 == k;
  }

  /** A facility code wider than its field is cut silently: 256 in eight bits
      is written as eight zeros, like 0. */
  lemma FacilityTruncated()
    ensures JsField(256, 8) == JsField(0, 8) == Zeros(8)
  {
    assert ToUint32(256) == 256 && ToUint32(0) == 0;
    assert Shr(256, 0) == 256 && Shr(256, 1) == 128 && Shr(256, 2) == 64 && Shr(256, 3) == 32;
    assert Shr(256, 4) == 16 && Shr(256, 5) == 8 && Shr(256, 6) == 4 && Shr(256, 7) == 2;
    assert Shr(0, 0) == 0 && Shr(0, 1) == 0 && Shr(0, 2) == 0 && Shr(0, 3) == 0;
    assert Shr(0, 4) == 0 && Shr(0, 5) == 0 && Shr(0, 6) == 0 && Shr(0, 7) == 0;
    forall i | 0 <= i < 8 ensures JsField(256, 8)[i] == 0 && JsField(0, 8)[i] == 0 {
      var k := 7 - i;
      assert k % 32 == k;
      assert JsField(256, 8)[i] == JsBit(256, k) && JsField(0, 8)[i] == JsBit(0, k);
      assert JsBit(256, k) == Shr(256, k) % 2 && JsBit(0, k) == Shr(0, k) % 2;
    }
    assert JsField(256, 8) == Zeros(8);
    assert JsField(0, 8) == Zeros(8);
  }

  // ---------------------------------------------------------------------------
  // applyParity

  /** A `frameBits` value that is not `null`, `undefined` or 0. */
  predicate Truthy(frameBits: Option<int>) {
    frameBits.Some? && frameBits.value != 0
  }

  /** `applyParity(data, parity, frameBits)`; `frameBits` `None` is `null`. */
  function ApplyParity(data: seq<Bit>, parity: string, frameBits: Option<int>): (r: Result<seq<Bit>, string>)
    ensures r.Err? ==> r.error == "frameBits mismatch" && Truthy(frameBits)
    ensures r.Ok? && Truthy(frameBits) ==> |r.value| == frameBits.value
    ensures r.Ok? ==> |data| <= |r.value|
    ensures r.Ok? && parity != "none" ==>
              |r.value| == |data| + (if parity == "whole-even" || parity == "whole-odd" then 1 else 2)
  {
    if parity == "none" then
      var frame := if Truthy(frameBits) && frameBits.value > |data|
                   then Zeros(frameBits.value - |data|) + data else data;
      if Truthy(frameBits) && |frame| != frameBits.value then Err("frameBits mismatch") else Ok(frame)
    else if parity == "whole-even" || parity == "whole-odd" then
      var pe := EvenWeight(data);
      var pbit: Bit := if parity == "whole-even" then (if pe then 1 else 0) else (if pe then 0 else 1);
      var frame := data + [pbit];
      if Truthy(frameBits) && |frame| != frameBits.value then Err("frameBits mismatch") else Ok(frame)
    else
      var left := |data| / 2;
      var peL: Bit := if EvenWeight(data[..left]) then 1 else 0;
      var peR: Bit := if EvenWeight(data[left..]) then 0 else 1;
      var frame := [peL] + data + [peR];
      if Truthy(frameBits) && |frame| != frameBits.value then Err("frameBits mismatch") else Ok(frame)
  }

  /** Without parity the data is left-padded with zeros up to `frameBits`; a
      frame shorter than the data, or a negative one, is a mismatch. */
  lemma NoParity(data: seq<Bit>, frameBits: Option<int>)
    ensures var r := ApplyParity(data, "none", frameBits);
            (r.Err? <==> Truthy(frameBits) && frameBits.value < |data|) &&
            (r.Err? ==> r.error == "frameBits mismatch") &&
            (r.Ok? && !Truthy(frameBits) ==> r.value == data) &&
            (r.Ok? && Truthy(frameBits) ==>
               |r.value| == frameBits.value &&
               r.value == Zeros(frameBits.value - |data|) + data)
  {
  }

  /** Whole-frame parity appends one bit after the data. Despite its name
      "whole-even" leaves the frame with an odd number of set bits, and
      "whole-odd" with an even number. */
  lemma WholeParity(data: seq<Bit>, parity: string, frameBits: Option<int>)
    requires parity == "whole-even" || parity == "whole-odd"
    ensures var r := ApplyParity(data, parity, frameBits);
            (r.Err? <==> Truthy(frameBits) && frameBits.value != |data| + 1) &&
            (r.Err? ==> r.error == "frameBits mismatch") &&
            (r.Ok? ==> |r.value| == |data| + 1 && r.value[..|data|] == data &&
                       (parity == "whole-even" <==> !EvenWeight(r.value)))
  {
    var pe := EvenWeight(data);
    var pbit: Bit := if parity == "whole-even" then (if pe then 1 else 0) else (if pe then 0 else 1);
    OnesAppend(data, [pbit]);
    assert Ones([pbit]) == pbit by {
      assert [pbit][..0] == [];
    }
    assert (data + [pbit])[..|data|] == data;
  }

  /** Standard parity surrounds the data with two bits: the leading bit is 1
      exactly when the first `floor(n/2)` data bits have even weight, so that
      half and its bit together are odd; the trailing bit is 1 exactly when the
      remaining bits have odd weight, so that half and its bit are even. Any
      parity name other than "none", "whole-even" and "whole-odd" means
      standard. */
  lemma StdParity(data: seq<Bit>, parity: string, frameBits: Option<int>)
    requires parity !in {"none", "whole-even", "whole-odd"}
    ensures var r := ApplyParity(data, parity, frameBits);
            var left := |data| / 2;
            (r.Err? <==> Truthy(frameBits) && frameBits.value != |data| + 2) &&
            (r.Err? ==> r.error == "frameBits mismatch") &&
            (r.Ok? ==>
               |r.value| == |data| + 2 && r.value[1..|data| + 1] == data &&
               (r.value[0] == 1 <==> EvenWeight(data[..left])) &&
               (r.value[|data| + 1] == 1 <==> !EvenWeight(data[left..])) &&
               !EvenWeight(r.value[..left + 1]) && EvenWeight(r.value[left + 1..]))
  {
    var left := |data| / 2;
    var peL: Bit := if EvenWeight(data[..left]) then 1 else 0;
    var peR: Bit := if EvenWeight(data[left..]) then 0 else 1;
    var frame := [peL] + data + [peR];
    assert ApplyParity(data, parity, frameBits)
           == if Truthy(frameBits) && |frame| != frameBits.value then Err("frameBits mismatch") else Ok(frame);
    OnesAround(peL, data, peR, left);
    assert frame[1..|data| + 1] == data;
  }
}
