/**
 * The bus side of a read: the driver pulls chip select low, exchanges a
 * buffer of bytes over SPI in place, pulls chip select high again, and
 * only then decodes the buffer. The pin and the SPI device are outside
 * the driver; what they answer is passed in as Replies, and the bus keeps
 * a log of what it was asked to do.
 */
module Transaction {
  import opened Bits
  import opened Units
  import opened Max31855
  import opened Datasheet
  import opened Conformance

  datatype Option<T> = None | Some(value: T)

  /** Levels of the chip-select line; the MAX31855 is selected while the line is low. */
  datatype PinState = Low | High

  /**
   * One request to the outside world: a chip-select level, or an in-place
   * exchange of the given number of bytes while the line was at the given level.
   */
  datatype Event = PinSet(level: PinState) | Exchange(length: nat, line: PinState)

  /**
   * What the outside world answers during one transaction: the error, if
   * any, of setting chip select low; the bytes clocked in, or the SPI
   * error; the error, if any, of setting chip select high again.
   */
  datatype Replies<S, P> = Replies(low: Option<P>, exchange: Result<seq<u8>, S>, high: Option<P>)

  /** The answers fit a buffer of the given length. */
  predicate Fits<S, P>(replies: Replies<S, P>, length: nat) {
    replies.exchange.Ok? ==> |replies.exchange.value| == length
  }

  /**
   * The outcome `transfer` reports: the first failing step decides the
   * error, and later steps are not attempted. It succeeds exactly when
   * every step does, and its errors are only ever bus errors.
   */
  function TransferResult<S, P>(replies: Replies<S, P>): (r: Result<(), Error<S, P>>)
    ensures r.Ok? <==> replies.low.None? && replies.exchange.Ok? && replies.high.None?
    ensures r.Err? ==> r.error.SpiError? || r.error.ChipSelectError?
  {
    if replies.low.Some? then Err(ChipSelectError(replies.low.value))
    else if replies.exchange.Err? then Err(SpiError(replies.exchange.error))
    else if replies.high.Some? then Err(ChipSelectError(replies.high.value))
    else Ok(())
  }

  /**
   * The requests `transfer` makes, up to and including the first that
   * fails. It always starts by selecting the chip, it exchanges bytes,
   * with the chip selected, exactly when selecting succeeded, and it asks
   * to release the chip only after an exchange that succeeded.
   */
  function TransferLog<S, P>(replies: Replies<S, P>, length: nat): (log: seq<Event>)
    ensures 1 <= |log| <= 3 && log[0] == PinSet(Low)
    ensures Exchange(length, Low) in log <==> replies.low.None?
    ensures PinSet(High) in log <==> replies.low.None? && replies.exchange.Ok?
    ensures SelectedExchanges(log)
  {
    if replies.low.Some? then [PinSet(Low)]
    else if replies.exchange.Err? then [PinSet(Low), Exchange(length, Low)]
    else [PinSet(Low), Exchange(length, Low), PinSet(High)]
  }

  /**
   * The chip-select level after `transfer`; a failed set leaves the line
   * where it was. Once selecting succeeded, the chip ends released exactly
   * when the transfer succeeds.
   */
  function PinAfter<S, P>(replies: Replies<S, P>, before: PinState): (level: PinState)
    ensures replies.low.Some? ==> level == before
    ensures replies.low.None? ==> (level == High <==> TransferResult(replies).Ok?)
  {
    if replies.low.Some? then before
    else if replies.exchange.Err? || replies.high.Some? then Low
    else High
  }

  /** Every exchange in the log happened while the chip was selected. */
  predicate SelectedExchanges(log: seq<Event>) {
    forall i :: 0 <= i < |log| && log[i].Exchange? ==> log[i].line == Low
  }

  /**
   * A transfer succeeds exactly when all three steps do; it exchanges
   * bytes exactly when selecting the chip succeeded, and then only once;
   * it releases the chip exactly when it succeeds.
   */
  lemma TransferSteps<S, P>(replies: Replies<S, P>, length: nat, before: PinState)
    ensures TransferResult(replies).Ok? <==> replies.low.None? && replies.exchange.Ok? && replies.high.None?
    ensures Exchange(length, Low) in TransferLog(replies, length) <==> replies.low.None?
    ensures multiset(TransferLog(replies, length))[Exchange(length, Low)] <= 1
    ensures TransferLog(replies, length)[0] == PinSet(Low)
    ensures replies.low.None? ==> (PinAfter(replies, before) == High <==> TransferResult(replies).Ok?)
  {
  }

  /** Appending a transfer's requests to a log keeps every exchange inside a selection. */
  lemma TransferKeepsSelected<S, P>(log: seq<Event>, replies: Replies<S, P>, length: nat)
    requires SelectedExchanges(log)
    ensures SelectedExchanges(log + TransferLog(replies, length))
  {
    var t := TransferLog(replies, length);
    forall i | 0 <= i < |log + t| && (log + t)[i].Exchange?
      ensures (log + t)[i].line == Low
    {
      if i >= |log| {
        assert (log + t)[i] == t[i - |log|];
      }
    }
  }

  /**
   * What `read_thermocouple_raw` returns for the given answers: the
   * transfer's error, or the decode of the two bytes clocked in. A bus
   * error is passed on unchanged; after a clean transfer the only error
   * is the generic fault.
   */
  function ThermocoupleRawResult<S, P>(replies: Replies<S, P>): (r: Result<i16, Error<S, P>>)
    requires Fits(replies, 2)
    ensures TransferResult(replies).Err? ==> r == Err(TransferResult(replies).error)
    ensures TransferResult(replies).Ok? && r.Err? ==> r.error == Fault
    ensures r.Ok? ==> -0x2000 <= r.value < 0x2000
  {
    match TransferResult(replies)
    case Err(e) => Err(e)
    case Ok(_) => DecodeThermocouple(replies.exchange.value)
  }

  /**
   * What `read_all_raw` returns for the given answers: the transfer's
   * error, or the decode of the four bytes clocked in. A bus error is
   * passed on unchanged; after a clean transfer any error is a sensor fault.
   */
  function AllRawResult<S, P>(replies: Replies<S, P>): (r: Result<FullResultRaw, Error<S, P>>)
    requires Fits(replies, 4)
    ensures TransferResult(replies).Err? ==> r == Err(TransferResult(replies).error)
    ensures TransferResult(replies).Ok? && r.Err? ==> !r.error.SpiError? && !r.error.ChipSelectError?
    ensures r.Ok? ==> -0x2000 <= r.value.thermocouple < 0x2000 && -0x800 <= r.value.internal < 0x800
  {
    match TransferResult(replies)
    case Err(e) => Err(e)
    case Ok(_) => DecodeAll(replies.exchange.value)
  }

  /**
   * End to end for a 16-bit read: when the transfer succeeds, the read
   * reports what the device's output format says the two bytes clocked in
   * mean; when it fails, the read reports the bus error and never a sensor
   * fault.
   */
  lemma ThermocoupleReadMeansDatasheet<S, P>(replies: Replies<S, P>)
    requires Fits(replies, 2)
    ensures TransferResult(replies).Ok? ==> ThermocoupleRawResult(replies) == ExpectedThermocouple(replies.exchange.value)
    ensures TransferResult(replies).Err? ==> ThermocoupleRawResult(replies) == Err(TransferResult(replies).error)
    ensures TransferResult(replies).Err? ==> TransferResult(replies).error.SpiError? || TransferResult(replies).error.ChipSelectError?
  {
    if TransferResult(replies).Ok? {
      DecodeThermocoupleConforms<S, P>(replies.exchange.value);
    }
  }

  /**
   * End to end for a 32-bit read: when the transfer succeeds, the read
   * reports what the device's output format says the four bytes clocked in
   * mean, faults included; when it fails, the read reports the bus error.
   */
  lemma AllReadMeansDatasheet<S, P>(replies: Replies<S, P>)
    requires Fits(replies, 4)
    ensures TransferResult(replies).Ok? ==> AllRawResult(replies) == ExpectedAll(replies.exchange.value)
    ensures TransferResult(replies).Err? ==> AllRawResult(replies) == Err(TransferResult(replies).error)
  {
    if TransferResult(replies).Ok? {
      DecodeAllConforms<S, P>(replies.exchange.value);
    }
  }

  /** The SPI device together with its chip-select pin, as one driver call sees them. */
  class Bus<S, P> {
    var pin: PinState
    var log: seq<Event>

    /** The bus invariant: the driver never exchanges bytes with the chip deselected. */
    predicate Valid()
      reads this
    {
      SelectedExchanges(log)
    }

    constructor (initial: PinState)
      ensures Valid() && pin == initial && log == []
    {
      pin := initial;
      log := [];
    }

    /** `OutputPin::set_state`. A failed call is taken to leave the line where it was. */
    method SetState(level: PinState, reply: Option<P>) returns (r: Result<(), P>)
      modifies this
      ensures log == old(log) + [PinSet(level)]
      ensures reply.None? ==> r == Ok(()) && pin == level
      ensures reply.Some? ==> r == Err(reply.value) && pin == old(pin)
    {
      log := log + [PinSet(level)];
      if reply.None? {
        pin := level;
        r := Ok(());
      } else {
        r := Err(reply.value);
      }
    }

    /** `SpiDevice::transfer_in_place`: on success the buffer holds the bytes clocked in. */
    method TransferInPlace(buffer: array<u8>, reply: Result<seq<u8>, S>) returns (r: Result<(), S>)
      requires reply.Ok? ==> |reply.value| == buffer.Length
      modifies this, buffer
      ensures pin == old(pin) && log == old(log) + [Exchange(buffer.Length, old(pin))]
      ensures reply.Ok? ==> r == Ok(()) && buffer[..] == reply.value
      ensures reply.Err? ==> r == Err(reply.error) && buffer[..] == old(buffer[..])
    {
      log := log + [Exchange(buffer.Length, pin)];
      if reply.Ok? {
        forall i | 0 <= i < buffer.Length {
          buffer[i] := reply.value[i];
        }
        r := Ok(());
      } else {
        r := Err(reply.error);
      }
    }

    /**
     * `transfer`: select the chip, exchange the buffer in place, release
     * the chip, stopping at the first step that fails. An SPI failure
     * leaves the chip selected.
     */
    method Transfer(buffer: array<u8>, replies: Replies<S, P>) returns (r: Result<(), Error<S, P>>)
      requires Valid() && Fits(replies, buffer.Length)
      modifies this, buffer
      ensures Valid()
      ensures r == TransferResult(replies)
      ensures log == old(log) + TransferLog(replies, buffer.Length)
      ensures pin == PinAfter(replies, old(pin))
      ensures buffer[..] == if replies.low.None? && replies.exchange.Ok? then replies.exchange.value else old(buffer[..])
    {
      var low := SetState(Low, replies.low);
      if low.Err? {
        return Err(ChipSelectError(low.error));
      }
      var exchanged := TransferInPlace(buffer, replies.exchange);
      if exchanged.Err? {
        TransferKeepsSelected(old(log), replies, buffer.Length);
        return Err(SpiError(exchanged.error));
      }
      var high := SetState(High, replies.high);
      TransferKeepsSelected(old(log), replies, buffer.Length);
      if high.Err? {
        return Err(ChipSelectError(high.error));
      }
      r := Ok(());
    }

    /**
     * `read_thermocouple_raw`: a 2-byte transfer, then the decode; the
     * decode is skipped when the transfer fails.
     */
    method ReadThermocoupleRaw(replies: Replies<S, P>) returns (r: Result<i16, Error<S, P>>)
      requires Valid() && Fits(replies, 2)
      modifies this
      ensures Valid()
      ensures r == ThermocoupleRawResult(replies)
      ensures log == old(log) + TransferLog(replies, 2)
      ensures pin == PinAfter(replies, old(pin))
    {
      var buffer := new u8[2](_ => 0);
      var t := Transfer(buffer, replies);
      if t.Err? {
        return Err(t.error);
      }
      r := DecodeThermocouple(buffer[..]);
    }

    /** `read_thermocouple`: the raw read with the count converted to degrees of the given unit. */
    method ReadThermocouple(unit: Unit, replies: Replies<S, P>) returns (r: Result<real, Error<S, P>>)
      requires Valid() && Fits(replies, 2)
      modifies this
      ensures Valid()
      ensures r.Err? <==> ThermocoupleRawResult(replies).Err?
      ensures r.Err? ==> r.error == ThermocoupleRawResult(replies).error
      ensures r.Ok? ==> unit.ToCelsius(r.value) == Thermocouple.Convert(ThermocoupleRawResult(replies).value)
      ensures log == old(log) + TransferLog(replies, 2)
      ensures pin == PinAfter(replies, old(pin))
    {
      var raw := ReadThermocoupleRaw(replies);
      match raw
      case Err(e) =>
        r := Err(e);
      case Ok(count) =>
        ConvertRoundTrip(unit, Thermocouple.Convert(count), 0.0);
        r := Ok(unit.Convert(Thermocouple.Convert(count)));
    }

    /**
     * `read_all_raw`: a 4-byte transfer, then the decode with the fault
     * resolved; the decode is skipped when the transfer fails.
     */
    method ReadAllRaw(replies: Replies<S, P>) returns (r: Result<FullResultRaw, Error<S, P>>)
      requires Valid() && Fits(replies, 4)
      modifies this
      ensures Valid()
      ensures r == AllRawResult(replies)
      ensures log == old(log) + TransferLog(replies, 4)
      ensures pin == PinAfter(replies, old(pin))
    {
      var buffer := new u8[4](_ => 0);
      var t := Transfer(buffer, replies);
      if t.Err? {
        return Err(t.error);
      }
      r := DecodeAll(buffer[..]);
    }

    /** `read_all`: the raw read with both counts converted to degrees of the given unit. */
    method ReadAll(unit: Unit, replies: Replies<S, P>) returns (r: Result<FullResult, Error<S, P>>)
      requires Valid() && Fits(replies, 4)
      modifies this
      ensures Valid()
      ensures r.Err? <==> AllRawResult(replies).Err?
      ensures r.Err? ==> r.error == AllRawResult(replies).error
      ensures r.Ok? ==> r.value == AllRawResult(replies).value.Convert(unit)
      ensures log == old(log) + TransferLog(replies, 4)
      ensures pin == PinAfter(replies, old(pin))
    {
      var raw := ReadAllRaw(replies);
      match raw
      case Err(e) =>
        r := Err(e);
      case Ok(counts) =>
        r := Ok(counts.Convert(unit));
    }
  }
}
