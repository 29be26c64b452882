/**
 * Temperature units and the conversion of raw ADC counts into degrees.
 * The driver computes in `f32`; this model computes in exact reals.
 */
module Units {
  import opened Bits

  /** The temperature unit a reading is returned in. */
  datatype Unit = Celsius | Fahrenheit | Kelvin {

    /** `Unit::convert`: degrees Celsius expressed in this unit; ToCelsius takes it back. */
    function Convert(celsius: real): (degrees: real)
      ensures ToCelsius(degrees) == celsius
    {
      match this
      case Celsius => celsius
      case Fahrenheit => celsius * 1.8 + 32.0
      case Kelvin => celsius + 273.15
    }

    /** Degrees in this unit expressed in Celsius: the inverse of Convert. */
    function ToCelsius(degrees: real): real {
      match this
      case Celsius => degrees
      case Fahrenheit => (degrees - 32.0) / 1.8
      case Kelvin => degrees - 273.15
    }
  }

  /** Converting to a unit and back loses nothing, in either order. */
  lemma ConvertRoundTrip(unit: Unit, celsius: real, degrees: real)
    ensures unit.ToCelsius(unit.Convert(celsius)) == celsius
    ensures unit.Convert(unit.ToCelsius(degrees)) == degrees
  {
  }

  /** Every unit preserves the order of temperatures. */
  lemma ConvertMonotone(unit: Unit, a: real, b: real)
    requires a < b
    ensures unit.Convert(a) < unit.Convert(b)
  {
  }

  /** The reference points of the three scales. */
  lemma ConvertReferencePoints()
    ensures Fahrenheit.Convert(0.0) == 32.0 && Fahrenheit.Convert(100.0) == 212.0
    ensures Fahrenheit.Convert(-40.0) == -40.0
    ensures Kelvin.Convert(-273.15) == 0.0 && Kelvin.Convert(0.0) == 273.15
  {
  }

  /** Which of the chip's two temperatures a count belongs to. */
  datatype Reading = Thermocouple | Internal {

    /** Degrees Celsius per ADC count. */
    function Resolution(): (r: real)
      ensures r > 0.0
    {
      match this
      case Thermocouple => 0.25
      case Internal => 0.0625
    }

    /** `Reading::convert`: a raw ADC count in degrees Celsius, a whole number of resolution steps. */
    function Convert(count: i16): (celsius: real)
      ensures celsius / Resolution() == count as real
    {
      count as real * Resolution()
    }
  }

  /** A count is recovered from its temperature, and one count is one resolution step. */
  lemma ReadingExact(reading: Reading, count: i16)
    ensures reading.Convert(count) / reading.Resolution() == count as real
    ensures count < 0x7FFF ==> reading.Convert(count + 1) - reading.Convert(count) == reading.Resolution()
  {
  }

  /** The conversion preserves the order of counts. */
  lemma ReadingMonotone(reading: Reading, a: i16, b: i16)
    requires a < b
    ensures reading.Convert(a) < reading.Convert(b)
  {
    var d := (b as int - a as int) as real;
    assert reading.Convert(b) - reading.Convert(a) == d * reading.Resolution();
  }

  /**
   * The temperature span of each field: -2048 to 2047.75 degrees for the
   * 14-bit thermocouple count, -128 to 127.9375 degrees for the 12-bit
   * internal count.
   */
  lemma ReadingRange(reading: Reading, count: i16)
    requires reading.Thermocouple? ==> -0x2000 <= count < 0x2000
    requires reading.Internal? ==> -0x800 <= count < 0x800
    ensures reading.Thermocouple? ==> -2048.0 <= reading.Convert(count) <= 2047.75
    ensures reading.Internal? ==> -128.0 <= reading.Convert(count) <= 127.9375
  {
  }

  /** Both temperatures of a 32-bit read, in degrees of the given unit. */
  datatype FullResult = FullResult(thermocouple: real, internal: real, unit: Unit)
}
