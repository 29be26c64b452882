/**
 * The driver's decoder agrees with the device's output format: for every
 * byte pattern, DecodeThermocouple and DecodeAll give exactly what
 * ExpectedThermocouple and ExpectedAll read off the datasheet bits.
 */
module Conformance {
  import opened Bits
  import opened Max31855
  import opened Datasheet

  /**
   * `bits_to_i16(bits, 14, 4, 2)`, as called for the thermocouple field, is
   * two's-complement sign extension of a 14-bit field: the shift puts the
   * field's sign bit on bit 15 and the division by 4 is exact, so Rust's
   * truncating division gives the closed form field - 2^14. This is the
   * general contract of BitsToI16 at len 14, shift 2, divisor 2^2.
   */
  lemma ThermocoupleSignExtension(bits: u16)
    requires bits < 0x4000
    ensures BitsToI16(bits, 14, 4, 2) as int == if bits < 0x2000 then bits as int else bits as int - 0x4000
    ensures -0x2000 <= BitsToI16(bits, 14, 4, 2) < 0x2000
  {
    Powers();
  }

  /**
   * `bits_to_i16(bits, 12, 16, 4)`, as called for the internal field, is
   * two's-complement sign extension of a 12-bit field: the closed form is
   * field - 2^12 when bit 11 is set (BitsToI16 at len 12, shift 4,
   * divisor 2^4).
   */
  lemma InternalSignExtension(bits: u16)
    requires bits < 0x1000
    ensures BitsToI16(bits, 12, 16, 4) as int == if bits < 0x800 then bits as int else bits as int - 0x1000
    ensures -0x800 <= BitsToI16(bits, 12, 16, 4) < 0x800
  {
    Powers();
  }

  /** The thermocouple count of a first word is the sign-extended value of its bits 15..2. */
  lemma ThermocoupleCountValue(hi: u8, lo: u8)
    ensures ThermocoupleCount(Word(hi, lo)) as int == TwosComplement((hi as int * 256 + lo as int) / 4, 14)
  {
    Powers();
    var w := Word(hi, lo);
    assert w as int == hi as int * 256 + lo as int;
  }

  /** The internal count of a second word is the sign-extended value of its bits 15..4. */
  lemma InternalCountValue(hi: u8, lo: u8)
    ensures InternalCount(Word(hi, lo)) as int == TwosComplement((hi as int * 256 + lo as int) / 16, 12)
  {
    Powers();
    var w := Word(hi, lo);
    assert w as int == hi as int * 256 + lo as int;
  }

  /** The datasheet bits and fields of a 16-bit frame, in terms of its bytes. */
  lemma ShortFrameBits(a: u8, b: u8)
    ensures D((a as int * 256 + b as int) * 0x1_0000, FaultD) <==> b as int % 2 == 1
    ensures Field((a as int * 256 + b as int) * 0x1_0000, ThermocoupleLsb, ThermocoupleWidth) == (a as int * 256 + b as int) / 4
  {
    Powers();
    var w := a as int * 256 + b as int;
    assert (w * 0x1_0000) / 0x1_0000 == w;
    assert (w * 0x1_0000) / 0x4_0000 == w / 4;
  }

  /** The fault bits of a 32-bit frame, in terms of its bytes. */
  lemma FullFrameFaultBits(a: u8, b: u8, c: u8, d: u8)
    ensures var v := ((a as int * 256 + b as int) * 256 + c as int) * 256 + d as int;
      && (D(v, FaultD) <==> b as int % 2 == 1)
      && (D(v, OcD) <==> d as int % 2 == 1)
      && (D(v, ScgD) <==> (d as int / 2) % 2 == 1)
      && (D(v, ScvD) <==> (d as int / 4) % 2 == 1)
  {
    Powers();
    var first, second := a as int * 256 + b as int, c as int * 256 + d as int;
    var v := ((a as int * 256 + b as int) * 256 + c as int) * 256 + d as int;
    assert v == first * 0x1_0000 + second;
    assert v / 0x1_0000 == first;
    assert v / 2 == first * 0x8000 + c as int * 128 + d as int / 2;
    assert v / 4 == first * 0x4000 + c as int * 64 + d as int / 4;
  }

  /** The two temperature fields of a 32-bit frame, in terms of its bytes. */
  lemma FullFrameFields(a: u8, b: u8, c: u8, d: u8)
    ensures var v := ((a as int * 256 + b as int) * 256 + c as int) * 256 + d as int;
      && Field(v, ThermocoupleLsb, ThermocoupleWidth) == (a as int * 256 + b as int) / 4
      && Field(v, InternalLsb, InternalWidth) == (c as int * 256 + d as int) / 16
  {
    Powers();
    var first, second := a as int * 256 + b as int, c as int * 256 + d as int;
    var v := ((a as int * 256 + b as int) * 256 + c as int) * 256 + d as int;
    assert v == first * 0x1_0000 + second;
    assert v / 0x4_0000 == first / 4;
    assert v / 16 == first * 0x1000 + second / 16;
  }

  /** The three fault-detail bits of a second word are the low bits of its low byte. */
  lemma FaultDetailBits(hi: u8, lo: u8)
    ensures GetBit(Word(hi, lo), FaultNoThermocoupleBit) <==> lo as int % 2 == 1
    ensures GetBit(Word(hi, lo), FaultGroundShortBit) <==> (lo as int / 2) % 2 == 1
    ensures GetBit(Word(hi, lo), FaultVccShortBit) <==> (lo as int / 4) % 2 == 1
  {
    Powers();
    var w := hi as int * 256 + lo as int;
    assert w / 1 == w && w % 2 == lo as int % 2;
    assert w / 2 == hi as int * 128 + lo as int / 2;
    assert (w / 2) % 2 == (lo as int / 2) % 2;
    assert w / 4 == hi as int * 64 + lo as int / 4;
    assert (w / 4) % 2 == (lo as int / 4) % 2;
  }

  /** Every 2-byte frame decodes as the datasheet says. */
  lemma DecodeThermocoupleConforms<S, P>(frame: seq<u8>)
    requires |frame| == 2
    ensures DecodeThermocouple<S, P>(frame) == ExpectedThermocouple<S, P>(frame)
  {
    Powers();
    var a, b := frame[0], frame[1];
    ShortFrameBits(a, b);
    if b as int % 2 == 0 {
      ThermocoupleCountValue(a, b);
    }
  }

  /** A 4-byte frame with the fault flag set resolves its fault as the datasheet says. */
  lemma DecodeAllFaultConforms<S, P>(frame: seq<u8>)
    requires |frame| == 4 && frame[1] as int % 2 == 1
    ensures DecodeAll<S, P>(frame) == ExpectedAll<S, P>(frame)
  {
    var a, b, c, d := frame[0], frame[1], frame[2], frame[3];
    FaultDetailBits(c, d);
    FullFrameFaultBits(a, b, c, d);
  }

  /** A 4-byte frame with the fault flag clear decodes both counts as the datasheet says. */
  lemma DecodeAllReadingConforms<S, P>(frame: seq<u8>)
    requires |frame| == 4 && frame[1] as int % 2 == 0
    ensures DecodeAll<S, P>(frame) == ExpectedAll<S, P>(frame)
  {
    Powers();
    var a, b, c, d := frame[0], frame[1], frame[2], frame[3];
    FullFrameFaultBits(a, b, c, d);
    FullFrameFields(a, b, c, d);
    ThermocoupleCountValue(a, b);
    InternalCountValue(c, d);
  }

  /** Every 4-byte frame decodes as the datasheet says. */
  lemma DecodeAllConforms<S, P>(frame: seq<u8>)
    requires |frame| == 4
    ensures DecodeAll<S, P>(frame) == ExpectedAll<S, P>(frame)
  {
    if frame[1] as int % 2 == 1 {
      DecodeAllFaultConforms<S, P>(frame);
    } else {
      DecodeAllReadingConforms<S, P>(frame);
    }
  }
}
