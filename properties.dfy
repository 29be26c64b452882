/**
 * Properties of the decoder beyond conformance: an encoder for each frame
 * kind and the round trips through the decoder in both directions, the
 * fault flag as the only switch between errors and readings, the fault
 * priority, the bits the decoder ignores, and the agreement between the
 * 16-bit and the 32-bit read.
 */
module Properties {
  import opened Bits
  import opened Max31855
  import opened Datasheet
  import opened Conformance
  import opened Units

  /** A count as an unsigned field of the given width (two's complement). */
  function FieldOf(count: int, width: nat): (field: nat)
    requires width >= 1
    requires -(Pow2(width - 1) as int) <= count < Pow2(width - 1)
    ensures field < Pow2(width)
    ensures TwosComplement(field, width) == count
  {
    if count < 0 then count + Pow2(width) else count
  }

  /** A word as its big-endian bytes. */
  function Bytes(w: u16): (r: seq<u8>)
    ensures |r| == 2 && r[0] as int * 256 + r[1] as int == w as int
  {
    [(w as int / 256) as u8, (w as int % 256) as u8]
  }

  /**
   * The 2-byte frame a fault-free device sends for a thermocouple count:
   * the count in D31..D18, with D17 and D16 clear.
   */
  function EncodeThermocouple(count: i16): (frame: seq<u8>)
    requires -0x2000 <= count < 0x2000
    ensures |frame| == 2
  {
    Powers();
    Bytes((FieldOf(count as int, 14) * 4) as u16)
  }

  /** The second word of a 4-byte frame for an internal count: the count in D15..D4, with D3..D0 clear. */
  function EncodeInternal(count: i16): (word: seq<u8>)
    requires -0x800 <= count < 0x800
    ensures |word| == 2
  {
    Powers();
    Bytes((FieldOf(count as int, 12) * 16) as u16)
  }

  /**
   * The 4-byte frame a fault-free device sends for two counts: the
   * thermocouple count in D31..D18, the internal count in D15..D4, and
   * D17, D16 and D3..D0 clear.
   */
  function EncodeAll(thermocouple: i16, internal: i16): (frame: seq<u8>)
    requires -0x2000 <= thermocouple < 0x2000 && -0x800 <= internal < 0x800
    ensures |frame| == 4
  {
    Powers();
    EncodeThermocouple(thermocouple) + EncodeInternal(internal)
  }

  /**
   * A frame with the bits below each temperature field cleared: D17 and
   * D16 in the first word, D3..D0 in the second.
   */
  function ClearReserved(frame: seq<u8>): (r: seq<u8>)
    requires |frame| == 2 || |frame| == 4
    ensures |r| == |frame|
  {
    var first := [frame[0], (frame[1] as int - frame[1] as int % 4) as u8];
    if |frame| == 2 then first
    else first + [frame[2], (frame[3] as int - frame[3] as int % 16) as u8]
  }

  /** The fault flag of a first word is D16 of the device's output. */
  lemma FaultFlagIsD16(frame: seq<u8>)
    requires |frame| == 2 || |frame| == 4
    ensures ByteBit(frame[1], FaultBit) <==> D(OutputValue(frame), FaultD)
  {
    Powers();
    if |frame| == 2 {
      ShortFrameBits(frame[0], frame[1]);
    } else {
      FullFrameFaultBits(frame[0], frame[1], frame[2], frame[3]);
    }
  }

  /** Re-encoding a field read as two's complement gives the field back. */
  lemma FieldOfTwosComplement(field: nat, width: nat)
    requires width >= 1 && field < Pow2(width)
    ensures -(Pow2(width - 1) as int) <= TwosComplement(field, width) < Pow2(width - 1)
    ensures FieldOf(TwosComplement(field, width), width) == field
  {
    TwosComplementRange(field, width);
  }

  /** Clearing the low bits of a word clears them in its low byte only. */
  lemma ClearLowBits(a: u8, b: u8, k: nat)
    requires k == 4 || k == 16
    ensures 0 <= (a as int * 256 + b as int) / k * k < 0x1_0000
    ensures Bytes(((a as int * 256 + b as int) / k * k) as u16) == [a, (b as int - b as int % k) as u8]
  {
    var w := a as int * 256 + b as int;
    var low := b as int - b as int % k;
    if k == 4 {
      assert w / 4 == a as int * 64 + b as int / 4;
    } else {
      assert w / 16 == a as int * 16 + b as int / 16;
    }
    assert 0 <= low < 256 && w / k * k == a as int * 256 + low;
    assert (a as int * 256 + low) / 256 == a as int;
    assert (a as int * 256 + low) % 256 == low;
  }

  /** The decode of a 2-byte frame, with the sign extension in closed form. */
  lemma ThermocoupleDecodeValue<S, P>(frame: seq<u8>)
    requires |frame| == 2
    ensures DecodeThermocouple<S, P>(frame).Ok? <==> frame[1] as int % 2 == 0
    ensures DecodeThermocouple<S, P>(frame).Ok? ==>
      DecodeThermocouple<S, P>(frame).value as int == TwosComplement((frame[0] as int * 256 + frame[1] as int) / 4, 14)
  {
    Powers();
    ThermocoupleCountValue(frame[0], frame[1]);
  }

  /** The decode of a fault-free 4-byte frame, with the sign extensions in closed form. */
  lemma AllDecodeValue<S, P>(frame: seq<u8>)
    requires |frame| == 4 && frame[1] as int % 2 == 0
    ensures DecodeAll<S, P>(frame).Ok?
    ensures DecodeAll<S, P>(frame).value.thermocouple as int == TwosComplement((frame[0] as int * 256 + frame[1] as int) / 4, 14)
    ensures DecodeAll<S, P>(frame).value.internal as int == TwosComplement((frame[2] as int * 256 + frame[3] as int) / 16, 12)
  {
    Powers();
    ThermocoupleCountValue(frame[0], frame[1]);
    InternalCountValue(frame[2], frame[3]);
  }

  /** An encoded 2-byte frame carries the count in its field, with the fault flag clear. */
  lemma EncodedThermocoupleField(t: i16)
    requires -0x2000 <= t < 0x2000
    ensures var frame := EncodeThermocouple(t);
      && frame[1] as int % 2 == 0
      && TwosComplement((frame[0] as int * 256 + frame[1] as int) / 4, 14) == t as int
  {
    Powers();
    var frame := EncodeThermocouple(t);
    assert frame[0] as int * 256 + frame[1] as int == FieldOf(t as int, 14) * 4;
  }

  /** An encoded 4-byte frame carries the counts in its fields, with the fault flag clear. */
  lemma EncodedFields(t: i16, i: i16)
    requires -0x2000 <= t < 0x2000 && -0x800 <= i < 0x800
    ensures var frame := EncodeAll(t, i);
      && frame[1] as int % 2 == 0
      && TwosComplement((frame[0] as int * 256 + frame[1] as int) / 4, 14) == t as int
      && TwosComplement((frame[2] as int * 256 + frame[3] as int) / 16, 12) == i as int
  {
    Powers();
    EncodedThermocoupleField(t);
    var frame := EncodeAll(t, i);
    assert frame[2..] == EncodeInternal(i);
    assert frame[2] as int * 256 + frame[3] as int == FieldOf(i as int, 12) * 16;
  }

  /** Decoding an encoded thermocouple count gives the count back. */
  lemma ThermocoupleRoundTrip<S, P>(count: i16)
    requires -0x2000 <= count < 0x2000
    ensures DecodeThermocouple<S, P>(EncodeThermocouple(count)) == Ok(count)
  {
    EncodedThermocoupleField(count);
    ThermocoupleDecodeValue<S, P>(EncodeThermocouple(count));
  }

  /**
   * A successful 16-bit decode determines the frame up to D17: re-encoding
   * the count gives the frame with D17 cleared.
   */
  lemma ThermocoupleDecodeInverse<S, P>(frame: seq<u8>, count: i16)
    requires |frame| == 2 && DecodeThermocouple<S, P>(frame) == Ok(count)
    ensures -0x2000 <= count < 0x2000
    ensures EncodeThermocouple(count) == ClearReserved(frame)
  {
    ThermocoupleDecodeValue<S, P>(frame);
    EncodeThermocoupleField(frame[0], frame[1], count);
  }

  /** Decoding an encoded pair of counts gives both counts back. */
  lemma AllRoundTrip<S, P>(thermocouple: i16, internal: i16)
    requires -0x2000 <= thermocouple < 0x2000 && -0x800 <= internal < 0x800
    ensures DecodeAll<S, P>(EncodeAll(thermocouple, internal)) == Ok(FullResultRaw(thermocouple, internal))
  {
    var frame := EncodeAll(thermocouple, internal);
    EncodedFields(thermocouple, internal);
    AllDecodeValue<S, P>(frame);
    assert DecodeAll<S, P>(frame).value == FullResultRaw(thermocouple, internal);
  }

  /**
   * A successful 32-bit decode determines the frame up to D17 and D3..D0:
   * re-encoding the counts gives the frame with those bits cleared.
   */
  lemma AllDecodeInverse<S, P>(frame: seq<u8>, r: FullResultRaw)
    requires |frame| == 4 && DecodeAll<S, P>(frame) == Ok(r)
    ensures -0x2000 <= r.thermocouple < 0x2000 && -0x800 <= r.internal < 0x800
    ensures EncodeAll(r.thermocouple, r.internal) == ClearReserved(frame)
  {
    assert frame[1] as int % 2 == 0 by {
      Powers();
    }
    AllDecodeValue<S, P>(frame);
    EncodeFields(frame, r.thermocouple, r.internal);
  }

  /** Encoding the two's-complement reading of a first word gives the word without D17 and D16. */
  lemma EncodeThermocoupleField(a: u8, b: u8, t: i16)
    requires t as int == TwosComplement((a as int * 256 + b as int) / 4, 14)
    ensures -0x2000 <= t < 0x2000
    ensures EncodeThermocouple(t) == [a, (b as int - b as int % 4) as u8]
  {
    Powers();
    FieldOfTwosComplement((a as int * 256 + b as int) / 4, 14);
    ClearLowBits(a, b, 4);
  }

  /** Encoding the two's-complement reading of a second word gives the word without D3..D0. */
  lemma EncodeInternalField(c: u8, d: u8, i: i16)
    requires i as int == TwosComplement((c as int * 256 + d as int) / 16, 12)
    ensures -0x800 <= i < 0x800
    ensures EncodeInternal(i) == [c, (d as int - d as int % 16) as u8]
  {
    Powers();
    FieldOfTwosComplement((c as int * 256 + d as int) / 16, 12);
    ClearLowBits(c, d, 16);
  }

  /** Encoding the two's-complement readings of a frame's fields gives the frame without its reserved bits. */
  lemma EncodeFields(frame: seq<u8>, t: i16, i: i16)
    requires |frame| == 4
    requires t as int == TwosComplement((frame[0] as int * 256 + frame[1] as int) / 4, 14)
    requires i as int == TwosComplement((frame[2] as int * 256 + frame[3] as int) / 16, 12)
    ensures -0x2000 <= t < 0x2000 && -0x800 <= i < 0x800
    ensures EncodeAll(t, i) == ClearReserved(frame)
  {
    EncodeThermocoupleField(frame[0], frame[1], t);
    EncodeInternalField(frame[2], frame[3], i);
  }

  /**
   * Without the fault flag, D17 of a 16-bit frame plays no part: the frame
   * decodes as the same frame with D17 and D16 cleared.
   */
  lemma ThermocoupleReservedIgnored<S, P>(frame: seq<u8>)
    requires |frame| == 2 && !ByteBit(frame[1], FaultBit)
    ensures DecodeThermocouple<S, P>(frame).Ok?
    ensures DecodeThermocouple<S, P>(frame) == DecodeThermocouple<S, P>(ClearReserved(frame))
  {
    ThermocoupleDecodeValue<S, P>(frame);
    var count := DecodeThermocouple<S, P>(frame).value;
    ThermocoupleDecodeInverse<S, P>(frame, count);
    ThermocoupleRoundTrip<S, P>(count);
  }

  /**
   * Without the fault flag, a 32-bit frame always decodes, and D17, D3 and
   * the detail bits D2..D0 play no part: the frame decodes as the same frame
   * with them cleared.
   */
  lemma AllReservedIgnored<S, P>(frame: seq<u8>)
    requires |frame| == 4 && !ByteBit(frame[1], FaultBit)
    ensures DecodeAll<S, P>(frame).Ok?
    ensures DecodeAll<S, P>(frame) == DecodeAll<S, P>(ClearReserved(frame))
  {
    AllDecodeValue<S, P>(frame);
    var r := DecodeAll<S, P>(frame).value;
    AllDecodeInverse<S, P>(frame, r);
    AllRoundTrip<S, P>(r.thermocouple, r.internal);
  }

  /**
   * With the fault flag set, the fault is chosen by the low three bits of
   * the last byte alone: open circuit first, then short to ground, then
   * short to VCC, and the generic fault when none is set.
   */
  lemma AllFaultPriority<S, P>(frame: seq<u8>)
    requires |frame| == 4 && ByteBit(frame[1], FaultBit)
    ensures frame[3] as int % 2 == 1
      ==> DecodeAll<S, P>(frame) == Err(MissingThermocoupleFault)
    ensures frame[3] as int % 2 == 0 && (frame[3] as int / 2) % 2 == 1
      ==> DecodeAll<S, P>(frame) == Err(GroundShortFault)
    ensures frame[3] as int % 2 == 0 && (frame[3] as int / 2) % 2 == 0 && (frame[3] as int / 4) % 2 == 1
      ==> DecodeAll<S, P>(frame) == Err(VccShortFault)
    ensures frame[3] as int % 2 == 0 && (frame[3] as int / 2) % 2 == 0 && (frame[3] as int / 4) % 2 == 0
      ==> DecodeAll<S, P>(frame) == Err(Fault)
  {
    assert DecodeAll<S, P>(frame) == Err(ResolveFault(Word(frame[2], frame[3])));
    FaultDetailBits(frame[2], frame[3]);
  }

  /**
   * The 32-bit read's thermocouple result agrees with the 16-bit read of
   * the same first two bytes: both fault together, and otherwise report the
   * same count.
   */
  lemma ReadsAgree<S, P>(frame: seq<u8>)
    requires |frame| == 4
    ensures DecodeAll<S, P>(frame).Err? <==> DecodeThermocouple<S, P>(frame[..2]).Err?
    ensures DecodeAll<S, P>(frame).Ok? ==>
      DecodeThermocouple<S, P>(frame[..2]) == Ok(DecodeAll<S, P>(frame).value.thermocouple)
  {
    assert frame[..2][0] == frame[0] && frame[..2][1] == frame[1];
  }

  /** A fault-free 2-byte frame whose field is known decodes to that field's two's-complement value. */
  lemma ThermocoupleSample<S, P>(frame: seq<u8>, field: nat, count: i16)
    requires |frame| == 2 && frame[1] as int % 2 == 0
    requires frame[0] as int * 64 + frame[1] as int / 4 == field
    requires count as int == TwosComplement(field, 14)
    ensures DecodeThermocouple<S, P>(frame) == Ok(count)
  {
    ThermocoupleDecodeValue<S, P>(frame);
    assert (frame[0] as int * 256 + frame[1] as int) / 4 == field;
  }

  /** A fault-free 4-byte frame whose fields are known decodes to their two's-complement values. */
  lemma AllSample<S, P>(frame: seq<u8>, tf: nat, inf: nat, t: i16, i: i16)
    requires |frame| == 4 && frame[1] as int % 2 == 0
    requires frame[0] as int * 64 + frame[1] as int / 4 == tf && frame[2] as int * 16 + frame[3] as int / 16 == inf
    requires t as int == TwosComplement(tf, 14) && i as int == TwosComplement(inf, 12)
    ensures DecodeAll<S, P>(frame) == Ok(FullResultRaw(t, i))
  {
    AllDecodeValue<S, P>(frame);
    assert (frame[0] as int * 256 + frame[1] as int) / 4 == tf;
    assert (frame[2] as int * 256 + frame[3] as int) / 16 == inf;
  }

  /**
   * Sample outputs from the device's temperature tables, decoded and
   * converted: +2.5, +1600, -250 and -0.25 degrees on the thermocouple,
   * and a frame with the fault flag set.
   */
  lemma ThermocoupleExamples<S, P>()
    ensures DecodeThermocouple<S, P>([0x00, 0x28]) == Ok(10) && Thermocouple.Convert(10) == 2.5
    ensures DecodeThermocouple<S, P>([0x64, 0x00]) == Ok(6400) && Thermocouple.Convert(6400) == 1600.0
    ensures DecodeThermocouple<S, P>([0xF0, 0x60]) == Ok(-1000) && Thermocouple.Convert(-1000) == -250.0
    ensures DecodeThermocouple<S, P>([0xFF, 0xFC]) == Ok(-1) && Thermocouple.Convert(-1) == -0.25
    ensures DecodeThermocouple<S, P>([0x00, 0x01]) == Err(Fault)
  {
    Powers();
    ThermocoupleSample<S, P>([0x00, 0x28], 10, 10);
    ThermocoupleSample<S, P>([0x64, 0x00], 6400, 6400);
    ThermocoupleSample<S, P>([0xF0, 0x60], 15384, -1000);
    ThermocoupleSample<S, P>([0xFF, 0xFC], 16383, -1);
  }

  /**
   * Sample 32-bit outputs: +1600 degrees with the reference junction at
   * +127 degrees, 0 degrees with it at -55 degrees, an open-circuit bit
   * without the fault flag (ignored), and each fault.
   */
  lemma AllExamples<S, P>()
    ensures DecodeAll<S, P>([0x64, 0x00, 0x7F, 0x00]) == Ok(FullResultRaw(6400, 2032)) && Internal.Convert(2032) == 127.0
    ensures DecodeAll<S, P>([0x00, 0x00, 0xC9, 0x00]) == Ok(FullResultRaw(0, -880)) && Internal.Convert(-880) == -55.0
    ensures DecodeAll<S, P>([0x00, 0x00, 0x00, 0x01]) == Ok(FullResultRaw(0, 0))
    ensures DecodeAll<S, P>([0x00, 0x01, 0x00, 0x01]) == Err(MissingThermocoupleFault)
    ensures DecodeAll<S, P>([0x00, 0x01, 0x00, 0x07]) == Err(MissingThermocoupleFault)
    ensures DecodeAll<S, P>([0x00, 0x01, 0x00, 0x02]) == Err(GroundShortFault)
    ensures DecodeAll<S, P>([0x00, 0x01, 0x00, 0x04]) == Err(VccShortFault)
    ensures DecodeAll<S, P>([0x00, 0x01, 0x00, 0x00]) == Err(Fault)
  {
    Powers();
    AllSample<S, P>([0x64, 0x00, 0x7F, 0x00], 6400, 2032, 6400, 2032);
    AllSample<S, P>([0x00, 0x00, 0xC9, 0x00], 0, 3216, 0, -880);
    AllSample<S, P>([0x00, 0x00, 0x00, 0x01], 0, 0, 0, 0);
    AllFaultPriority<S, P>([0x00, 0x01, 0x00, 0x01]);
    AllFaultPriority<S, P>([0x00, 0x01, 0x00, 0x07]);
    AllFaultPriority<S, P>([0x00, 0x01, 0x00, 0x02]);
    AllFaultPriority<S, P>([0x00, 0x01, 0x00, 0x04]);
    AllFaultPriority<S, P>([0x00, 0x01, 0x00, 0x00]);
  }
}
