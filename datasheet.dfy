/**
 * The MAX31855's serial output as the device defines it, stated over plain
 * integers with no bit-vector operations: a reference against which the
 * driver's decoder is proved in module Conformance.
 *
 * A full read clocks out 32 bits, D31 first:
 *   D31..D18  thermocouple temperature, 14-bit two's complement, 0.25 degC per count
 *   D17       reserved
 *   D16       fault: set when any of D2..D0 is set
 *   D15..D4   internal (reference junction) temperature, 12-bit two's complement
 *   D3        reserved
 *   D2        SCV: thermocouple shorted to VCC
 *   D1        SCG: thermocouple shorted to ground
 *   D0        OC: thermocouple open (missing)
 * A 16-bit read stops after D16, so its two bytes are D31..D16.
 */
module Datasheet {
  import opened Bits
  import opened Max31855

  const ThermocoupleLsb: nat := 18
  const ThermocoupleWidth: nat := 14
  const FaultD: nat := 16
  const InternalLsb: nat := 4
  const InternalWidth: nat := 12
  const ScvD: nat := 2
  const ScgD: nat := 1
  const OcD: nat := 0

  /** D31..D0 as a number. For a 16-bit read, D15..D0 are absent and count as 0. */
  function OutputValue(frame: seq<u8>): nat
    requires |frame| == 2 || |frame| == 4
  {
    if |frame| == 2 then
      (frame[0] as int * 256 + frame[1] as int) * 0x1_0000
    else
      ((frame[0] as int * 256 + frame[1] as int) * 256 + frame[2] as int) * 256 + frame[3] as int
  }

  /** Output bit Dk of the value v. */
  predicate D(v: int, k: nat) {
    (v / Pow2(k)) % 2 == 1
  }

  /** The unsigned field of the given width whose lowest bit is Dlsb. */
  function Field(v: int, lsb: nat, width: nat): int {
    (v / Pow2(lsb)) % Pow2(width)
  }

  /** A field of the given width read as two's complement. */
  function TwosComplement(field: int, width: nat): int
    requires width >= 1
  {
    if field >= Pow2(width - 1) then field - Pow2(width) else field
  }

  /** Two's complement of a field of the given width lies in [-2^(width-1), 2^(width-1)). */
  lemma TwosComplementRange(field: int, width: nat)
    requires 1 <= width && 0 <= field < Pow2(width)
    ensures -(Pow2(width - 1) as int) <= TwosComplement(field, width) < Pow2(width - 1)
  {
    assert Pow2(width) == 2 * Pow2(width - 1);
  }

  /** The thermocouple count the device reports in D31..D18. */
  function ThermocoupleReading(v: nat): (r: i16)
    ensures -0x2000 <= r < 0x2000
  {
    Powers();
    TwosComplementRange(Field(v, ThermocoupleLsb, ThermocoupleWidth), ThermocoupleWidth);
    TwosComplement(Field(v, ThermocoupleLsb, ThermocoupleWidth), ThermocoupleWidth) as i16
  }

  /** The internal-junction count the device reports in D15..D4. */
  function InternalReading(v: nat): (r: i16)
    ensures -0x800 <= r < 0x800
  {
    Powers();
    TwosComplementRange(Field(v, InternalLsb, InternalWidth), InternalWidth);
    TwosComplement(Field(v, InternalLsb, InternalWidth), InternalWidth) as i16
  }

  /**
   * What a 16-bit read means: the generic fault when D16 is set (the detail
   * bits are not part of the frame), otherwise the thermocouple count.
   */
  function ExpectedThermocouple<S, P>(frame: seq<u8>): Result<i16, Error<S, P>>
    requires |frame| == 2
  {
    var v := OutputValue(frame);
    if D(v, FaultD) then Err(Fault) else Ok(ThermocoupleReading(v))
  }

  /**
   * What a 32-bit read means: when D16 is set, one fault chosen by the
   * driver's priority OC, SCG, SCV, with the generic fault if D16 is set
   * alone; otherwise both counts.
   */
  function ExpectedAll<S, P>(frame: seq<u8>): Result<FullResultRaw, Error<S, P>>
    requires |frame| == 4
  {
    var v := OutputValue(frame);
    if D(v, FaultD) then
      if D(v, OcD) then Err(MissingThermocoupleFault)
      else if D(v, ScgD) then Err(GroundShortFault)
      else if D(v, ScvD) then Err(VccShortFault)
      else Err(Fault)
    else
      Ok(FullResultRaw(ThermocoupleReading(v), InternalReading(v)))
  }
}
