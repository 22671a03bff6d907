/** Where the JavaScript and the native Wiegand encoders agree, and the inputs
    on which they part ways. */
module WiegandAgreement {
  import opened Wrappers
  import opened WiegandFrame
  import JsBits = WiegandBits
  import Tx = WiegandTx

  /** The parity name each native mode is parsed from. */
  function ModeName(mode: Tx.Mode): string {
    match mode
    case ParStd => "std"
    case ParNone => "none"
    case ParWholeEven => "whole-even"
    case ParWholeOdd => "whole-odd"
  }

  /** For every parity name both encoders frame the same data into the same
      bits when no frame length is imposed. */
  lemma ParityAgrees(mode: Tx.Mode, data: seq<Bit>)
    ensures Tx.ParseParity(Some(ModeName(mode))) == Ok(mode)
    ensures JsBits.ApplyParity(data, ModeName(mode), None) == Ok(Tx.Framed(mode, data))
  {
  }

  /** Hexadecimal digits that fit the buffer give the same bits in both, and
      both reject the same characters. */
  lemma {:induction false} HexAgrees(hex: string, max: int)
    requires 4 * |hex| <= max
    ensures Tx.HexBits(hex, max).Ok? <==> JsBits.HexDecode(hex).Ok?
    ensures Tx.HexBits(hex, max).Ok? ==> Tx.HexBits(hex, max).value == JsBits.HexDecode(hex).value
    decreases |hex|
  {
    if hex != [] {
      var init := hex[..|hex| - 1];
      HexAgrees(init, max);
      Tx.HexBitsSpec(init, max);
    }
  }

  /** Raw hexadecimal input with at least one digit, short enough for the
      buffer, parses to the same bits in both. */
  lemma RawHexAgrees(raw: string, max: int)
    requires Tx.HexPrefixed(raw) && |raw| > 2 && 4 * (|raw| - 2) <= max
    ensures Tx.RawBits(Some(raw), max).Ok? <==> JsBits.Decode(Some(raw)).Ok?
    ensures Tx.RawBits(Some(raw), max).Ok? ==> Tx.RawBits(Some(raw), max).value == JsBits.Decode(Some(raw)).value
  {
    HexAgrees(raw[2..], max);
  }

  /** Binary digits alone, no more than the buffer holds, parse to the same
      bits in both. */
  lemma {:induction false} BinaryAgrees(s: string, max: int)
    requires forall i | 0 <= i < |s| :: s[i] == '0' || s[i] == '1'
    requires |s| <= max
    ensures Tx.BinBits(s, max) == JsBits.BinDecode(s)
    ensures Tx.BinBits(s, max).Ok?
    decreases |s|
  {
    if s != [] {
      var init := s[..|s| - 1];
      BinaryAgrees(init, max);
      JsBits.BinDecodeSpec(init);
    }
  }

  lemma RawBinaryAgrees(s: string, max: int)
    requires forall i | 0 <= i < |s| :: s[i] == '0' || s[i] == '1'
    requires |s| <= max
    ensures Tx.RawBits(Some(s), max) == JsBits.Decode(Some(s))
  {
    BinaryAgrees(s, max);
    if s != "" {
      JsBits.StripKeepsBits(s);
    }
  }

  /** A bare prefix: the native encoder fails on "0x" while the JavaScript one
      returns no bits. */
  lemma EmptyHexDiffers()
    ensures Tx.RawBits(Some("0x"), 512) == Err("empty hex")
    ensures JsBits.Decode(Some("0x")) == Ok([])
  {
    assert "0x"[2..] == [];
  }

  /** A tab between bits: the JavaScript encoder drops any whitespace, the
      native one skips only spaces and underscores. */
  lemma TabDiffers()
    ensures Tx.RawBits(Some("1\t0"), 512) == Err("invalid char in raw bits")
    ensures JsBits.Decode(Some("1\t0")) == Ok([1, 0])
  {
    TabRejected();
    TabStripped();
    assert !JsBits.HexPrefixed("1\t0");
    assert JsBits.BinDecode("10") == Ok([1, 0]) by {
      assert "10"[..1] == "1";
      assert JsBits.BinDecode("1") == Ok([1]) by {
        assert "1"[..0] == [];
        assert JsBits.BinDecode([]) == Ok([]);
        assert [] + [1] == [1];
      }
      assert "10"[1] == '0';
      assert [1] + [0] == [1, 0];
    }
  }

  lemma TabRejected()
    ensures Tx.BinBits("1\t0", 512) == Err("invalid char in raw bits")
  {
    assert "1\t0"[..2] == "1\t" && "1\t"[..1] == "1";
    assert Tx.BinBits("1", 512) == Ok([1]) by {
      assert "1"[..0] == [];
      assert Tx.BinBits([], 512) == Ok([]);
      assert [] + [1] == [1];
    }
  }

  lemma TabStripped()
    ensures JsBits.Strip("1\t0") == "10"
  {
    var one: string := "1";
    var tab: string := "1\t";
    var all: string := "1\t0";
    assert one[..0] == [] && one[0] == '1';
    assert JsBits.Strip(one) == JsBits.Strip([]) + "1";
    assert tab[..1] == one && tab[1] == '\t';
    assert JsBits.Strip(tab) == JsBits.Strip(one);
    assert all[..2] == tab && all[2] == '0';
    assert JsBits.Strip(all) == JsBits.Strip(tab) + "0";
  }

  lemma {:induction false} Pow2Monotone(a: nat, b: nat)
    requires a <= b
    ensures Pow2(a) <= Pow2(b)
    decreases b
  {
    if a < b {
      Pow2Monotone(a, b - 1);
    }
  }

  lemma Pow2Of32()
    ensures Pow2(32) == 0x1_0000_0000
  {
    assert Pow2(4) == 16;
    assert Pow2(8) == 256;
    assert Pow2(12) == 4096;
    assert Pow2(16) == 65536;
    assert Pow2(20) == 1048576;
    assert Pow2(24) == 16777216;
    assert Pow2(28) == 268435456;
  }

  /** Facility and card values that fit widths of at most 32 bits come out of
      both encoders as the same bits. */
  lemma FieldsAgree(cfg: Tx.Config)
    requires cfg.rawBits.None? && Tx.Composed(cfg).Ok?
    requires Tx.WidthsOf(cfg).0 <= 32 && Tx.WidthsOf(cfg).1 <= 32
    ensures var (fb, cb) := Tx.WidthsOf(cfg);
            JsBits.JsField(cfg.facility, fb) + JsBits.JsField(cfg.card, cb) == Tx.Composed(cfg).value
  {
    var (fb, cb) := Tx.WidthsOf(cfg);
    Pow2Of32();
    Pow2Monotone(fb, 32);
    Pow2Monotone(cb, 32);
    JsBits.JsFieldExact(cfg.facility, fb);
    JsBits.JsFieldExact(cfg.card, cb);
  }

  /** A facility code too wide for its field: the native encoder refuses 256
      in the 8 bits of format 26, the JavaScript one writes it as 0. */
  lemma RangeDiffers(cfg: Tx.Config)
    requires cfg.rawBits.None? && cfg.formatBits == 26 && cfg.facilityBits < 0 && cfg.facility == 256
    ensures Tx.Composed(cfg) == Err("facility/card exceeds width")
    ensures JsBits.JsField(cfg.facility, 8) == JsBits.JsField(0, 8)
  {
    assert Pow2(8) == 256;
    JsBits.FacilityTruncated();
  }
}
