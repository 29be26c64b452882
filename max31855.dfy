/**
 * The MAX31855 frame decoder: the bit positions of the chip's output, the
 * driver's error taxonomy, the sign extension `bits_to_i16` and the decode
 * steps of `read_thermocouple_raw` (a 2-byte read) and `read_all_raw`
 * (a 4-byte read). Everything here is pure; the bus transaction around it
 * is in module Transaction.
 */
module Max31855 {
  import opened Bits
  import opened Units

  // Bit positions within the first u16 read from the sensor.
  const ThermocoupleLo: nat := 2
  const ThermocoupleHi: nat := 15
  const FaultBit: nat := 0
  // Bit positions within the second u16 read from the sensor.
  const InternalLo: nat := 4
  const InternalHi: nat := 15
  const FaultVccShortBit: nat := 2
  const FaultGroundShortBit: nat := 1
  const FaultNoThermocoupleBit: nat := 0

  /**
   * The driver's errors. S and P are the error types of the SPI device and
   * of the chip-select pin, carried without interpretation.
   */
  datatype Error<S, P> =
    | SpiError(spi: S)
    | ChipSelectError(pin: P)
    | Fault
    | VccShortFault
    | GroundShortFault
    | MissingThermocoupleFault

  datatype Result<T, E> = Ok(value: T) | Err(error: E)

  /** Both readings of a 32-bit read, as raw ADC counts. */
  datatype FullResultRaw = FullResultRaw(thermocouple: i16, internal: i16) {

    /**
     * `FullResultRaw::convert`: both counts in degrees of the given unit.
     * Each converted temperature, read back in Celsius, is its count times
     * the reading's resolution.
     */
    function Convert(unit: Unit): (r: FullResult)
      ensures r.unit == unit
      ensures unit.ToCelsius(r.thermocouple) == Thermocouple.Convert(thermocouple)
      ensures unit.ToCelsius(r.internal) == Internal.Convert(internal)
    {
      ConvertRoundTrip(unit, Thermocouple.Convert(thermocouple), 0.0);
      ConvertRoundTrip(unit, Internal.Convert(internal), 0.0);
      FullResult(unit.Convert(Thermocouple.Convert(thermocouple)), unit.Convert(Internal.Convert(internal)), unit)
    }
  }

  /**
   * `bits_to_i16(bits, len, divisor, shift)`: if bit len-1 of the field is
   * set, shift the field left, read the u16 as an i16 and divide (Rust's
   * truncating division); otherwise read the field as an i16 directly.
   * The requires clauses are the conditions under which the Rust code does
   * not panic: `len - 1` must not underflow, `get_bit` needs an index below
   * 16, `<<` needs a shift below 16, and `/` needs a divisor other than 0
   * and rejects `i16::MIN / -1`.
   *
   * Whenever the shift moves a `len`-bit field up to fill 16 bits and the
   * divisor moves it back down, the result is the field read as a
   * `len`-bit two's-complement number.
   */
  function BitsToI16(bits: u16, len: nat, divisor: i16, shift: nat): (r: i16)
    requires 1 <= len <= 16 && shift < 16 && divisor != 0
    requires !(divisor == -1 && GetBit(bits, len - 1) && ToI16(Shl(bits, shift)) == -0x8000)
    ensures bits as int < Pow2(len) && len + shift == 16 && divisor as int == Pow2(shift) ==>
      r as int == if bits as int < Pow2(len - 1) then bits as int else bits as int - Pow2(len)
  {
    SignExtendWhenFilled(bits, len, shift);
    if GetBit(bits, len - 1) then
      var shifted := ToI16(Shl(bits, shift));
      TruncDivRange(shifted as int, divisor as int);
      TruncDiv(shifted as int, divisor as int) as i16
    else
      ToI16(bits)
  }

  /**
   * The 14-bit thermocouple field of a first word, sign extended: bits
   * 15..2 read as a two's-complement number.
   */
  function ThermocoupleCount(word: u16): (r: i16)
    ensures r as int == if word as int / 4 < 0x2000 then word as int / 4 else word as int / 4 - 0x4000
  {
    Powers();
    assert GetBits(word, ThermocoupleLo, ThermocoupleHi) as int == word as int / 4;
    BitsToI16(GetBits(word, ThermocoupleLo, ThermocoupleHi), 14, 4, 2)
  }

  /**
   * The 12-bit internal-junction field of a second word, sign extended:
   * bits 15..4 read as a two's-complement number.
   */
  function InternalCount(word: u16): (r: i16)
    ensures r as int == if word as int / 16 < 0x800 then word as int / 16 else word as int / 16 - 0x1000
  {
    Powers();
    assert GetBits(word, InternalLo, InternalHi) as int == word as int / 16;
    BitsToI16(GetBits(word, InternalLo, InternalHi), 12, 16, 4)
  }

  /**
   * The decode step of `read_thermocouple_raw`: a set fault bit gives the
   * generic fault, with no count; otherwise the thermocouple count, a
   * 14-bit signed value.
   */
  function DecodeThermocouple<S, P>(buffer: seq<u8>): (r: Result<i16, Error<S, P>>)
    requires |buffer| == 2
    ensures r.Err? <==> ByteBit(buffer[1], FaultBit)
    ensures r.Err? ==> r.error == Fault
    ensures r.Ok? ==> -0x2000 <= r.value < 0x2000
  {
    if ByteBit(buffer[1], FaultBit) then
      Err(Fault)
    else
      var raw := Word(buffer[0], buffer[1]);
      Ok(ThermocoupleCount(raw))
  }

  /**
   * The fault classification of `read_all_raw` once the fault flag is set:
   * open circuit first, then short to ground, then short to VCC, and the
   * generic fault when none of the three detail bits is set. It never
   * reports a bus error.
   */
  function ResolveFault<S, P>(raw: u16): (e: Error<S, P>)
    ensures e.MissingThermocoupleFault? <==> raw as int % 2 == 1
    ensures e.Fault? <==> raw as int % 8 == 0
    ensures !e.SpiError? && !e.ChipSelectError?
  {
    Powers();
    LowThreeBits(raw as int);
    if GetBit(raw, FaultNoThermocoupleBit) then MissingThermocoupleFault
    else if GetBit(raw, FaultGroundShortBit) then GroundShortFault
    else if GetBit(raw, FaultVccShortBit) then VccShortFault
    else Fault
  }

  /**
   * The decode step of `read_all_raw`. The fault flag is bit 0 of the second
   * byte (bit 0 of the first word); the detail bits are in the second word.
   * A failed decode is always a sensor fault, never a bus error, and a
   * successful one holds a 14-bit and a 12-bit signed count.
   */
  function DecodeAll<S, P>(buffer: seq<u8>): (r: Result<FullResultRaw, Error<S, P>>)
    requires |buffer| == 4
    ensures r.Err? <==> ByteBit(buffer[1], FaultBit)
    ensures r.Err? ==> !r.error.SpiError? && !r.error.ChipSelectError?
    ensures r.Ok? ==> -0x2000 <= r.value.thermocouple < 0x2000 && -0x800 <= r.value.internal < 0x800
  {
    var fault := ByteBit(buffer[1], FaultBit);
    if fault then
      var raw := Word(buffer[2], buffer[3]);
      Err(ResolveFault(raw))
    else
      var firstWord := Word(buffer[0], buffer[1]);
      var secondWord := Word(buffer[2], buffer[3]);
      Ok(FullResultRaw(ThermocoupleCount(firstWord), InternalCount(secondWord)))
  }
}
