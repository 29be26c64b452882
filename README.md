# MAX31855 driver: a verified model of the frame decoder

The `max31855` crate drives the MAX31855, an SPI thermocouple-to-digital
converter. It reads a 16-bit frame (the thermocouple temperature and a fault
flag) or a 32-bit frame (the thermocouple temperature, the reference-junction
temperature and the fault details). It sign-extends the 14-bit and 12-bit
counts with `bits_to_i16` and reports exactly one fault when the chip signals
one. This project models that decoder in `src/lib.rs` and the bus transaction
around it.

Modules:

- `Bits` (bits.dfy): Rust's `u8`, `u16` and `i16` as integer newtypes. It
  also defines the `u16` operators the driver uses: `<<` (truncated to 16
  bits), `|` (bit by bit), `get_bit`, `get_bits`, `as i16` and truncating `/`.
- `Max31855` (max31855.dfy): the bit-position constants, the `Error` type,
  `bits_to_i16`, the decode steps of `read_thermocouple_raw` and
  `read_all_raw`, and `FullResultRaw::convert`.
- `Datasheet` (datasheet.dfy): the chip's output format stated over plain
  integers (output bit Dk of the frame value, fields, two's complement). It
  shares no code with the decoder and serves as the reference it is proved
  against.
- `Conformance` (conformance.dfy): `bits_to_i16` in closed form, and both
  decode paths equal to the reference on every byte pattern.
- `Properties` (properties.dfy): encoders, round trips in both directions,
  the fault flag, the fault priority, ignored bits, agreement of the two read
  paths, and sample values from the chip's temperature tables.
- `Units` (units.dfy): `Unit::convert` and `Reading::convert` over exact reals.
- `Transaction` (transaction.dfy): `transfer` and the four `read_*` methods
  on a `Bus` class. The class holds the chip-select level and a log of the
  pin and SPI requests. The answers of the pin and the SPI device are
  parameters (`Replies`).

The composite fault flag is D16 of the chip's output: bit 0 of the second
byte, which is bit 0 of the first 16-bit word. Both reads test it there
(src/lib.rs:214 and src/lib.rs:240), as the `FAULT_BIT` constant
(src/lib.rs:55-56) and the `Error::Fault` documentation (src/lib.rs:73)
describe it.

## Model

| member | source | states |
|---|---|---|
| Bits.Or | src/lib.rs:218 | the bitwise or is at least each operand and at most their sum |
| Bits.OrBit | src/lib.rs:218 | bit i of the bitwise or is set exactly when bit i of either operand is, for every i |
| Bits.Shl | src/lib.rs:148 | `u16 << s` keeps the low 16 - s bits of the word, moved up s places; the bits shifted past bit 15 are lost |
| Bits.ByteBit | src/lib.rs:214 | `u8::get_bit(i)` holds exactly when the low i + 1 bits of the byte are worth at least 2^i |
| Bits.GetBit | src/lib.rs:146 | `u16::get_bit(i)` holds exactly when the low i + 1 bits of the word are worth at least 2^i |
| Bits.ToI16 | src/lib.rs:148-150 | `u16 as i16` keeps the 16 bits (the value is unchanged modulo 2^16) and is negative exactly when bit 15 is set |
| Bits.TruncDiv | src/lib.rs:148 | Rust's `i16 / i16`: the quotient's magnitude is abs(a) div abs(d) and a nonzero quotient is negative exactly when the signs differ (truncation toward zero) |
| Bits.SignExtend | src/lib.rs:145-152 | for every field width len with shift 16 - len, the shift, the `as i16` and the division by 2^shift turn a field with its top bit set into field - 2^len, and a field with its top bit clear is read unchanged |
| Bits.Word | src/lib.rs:218 | `(hi as u16) << 8 \| (lo as u16)`, computed with a 16-bit shift and a bitwise or, is the big-endian value hi * 256 + lo |
| Bits.OrDisjoint | src/lib.rs:218 | or-ing a value into bits that are zero adds it, which is why the word assembly is a sum |
| Bits.GetBits | src/lib.rs:220 | `get_bits(lo..=hi)` yields a value below 2^(hi-lo+1) and no larger than the word which, moved back up by lo places, is exactly the part bits lo..hi contribute to the word (the word modulo 2^(hi+1) less the word modulo 2^lo) |
| Bits.ExactDivision | src/lib.rs:148 | for a positive divisor that divides exactly, Rust's truncating `/` agrees with Euclidean division |
| Bits.TruncDivRange | src/lib.rs:148 | `i16 / i16` stays in the `i16` range except for -32768 / -1; `BitsToI16` requires the absence of that panic |
| Max31855.BitsToI16 | src/lib.rs:145-152 | whenever the shift fills 16 bits and the divisor is 2^shift, `bits_to_i16` reads a len-bit field as two's complement: the field, or the field - 2^len when bit len - 1 is set |
| Max31855.ThermocoupleCount | src/lib.rs:220 | the thermocouple count of a word is its bits 15..2 as a 14-bit two's-complement number: word / 4, less 2^14 when word / 4 is at least 2^13 |
| Max31855.InternalCount | src/lib.rs:262 | the internal count of a word is its bits 15..4 as a 12-bit two's-complement number: word / 16, less 2^12 when word / 16 is at least 2^11 |
| Max31855.DecodeThermocouple | src/lib.rs:214-222 | a 2-byte decode fails exactly when bit 0 of the second byte is set, then always with `Fault`; otherwise the count is a 14-bit signed value (partner: Conformance.DecodeThermocoupleConforms) |
| Max31855.ResolveFault | src/lib.rs:245-255 | the fault is `MissingThermocoupleFault` exactly when bit 0 is set and the generic `Fault` exactly when bits 2..0 are all clear; it is never a bus error (partner: Properties.AllFaultPriority) |
| Max31855.DecodeAll | src/lib.rs:240-267 | a 4-byte decode fails exactly when bit 0 of the second byte is set, always with a sensor fault and never a bus error; otherwise it gives a 14-bit and a 12-bit signed count (partner: Conformance.DecodeAllConforms) |
| Conformance.ThermocoupleSignExtension | src/lib.rs:145-152 | `bits_to_i16(f, 14, 4, 2)` is f when f < 8192 and f - 16384 otherwise, and lies in [-8192, 8191] |
| Conformance.InternalSignExtension | src/lib.rs:145-152 | `bits_to_i16(f, 12, 16, 4)` is f when f < 2048 and f - 4096 otherwise, and lies in [-2048, 2047] |
| Conformance.ThermocoupleCountValue | src/lib.rs:218-220 | the thermocouple count of a first word is the two's-complement value of its bits 15..2 |
| Conformance.InternalCountValue | src/lib.rs:259-262 | the internal count of a second word is the two's-complement value of its bits 15..4 |
| Conformance.FaultDetailBits | src/lib.rs:53-64 | bits 0, 1 and 2 of the second word (OC, SCG, SCV) are the low three bits of the fourth byte |
| Conformance.DecodeThermocoupleConforms | src/lib.rs:210-223 | every 2-byte frame decodes as the chip's output format says: `Fault` when D16 is set, otherwise the count in D31..D18 |
| Conformance.DecodeAllFaultConforms | src/lib.rs:240-256 | a 4-byte frame with D16 set resolves to OC, then SCG, then SCV, then the generic fault, read from D0, D1, D2 |
| Conformance.DecodeAllReadingConforms | src/lib.rs:258-267 | a 4-byte frame with D16 clear decodes to the counts in D31..D18 and D15..D4 |
| Conformance.DecodeAllConforms | src/lib.rs:236-268 | every 4-byte frame decodes as the chip's output format says |
| Properties.FaultFlagIsD16 | src/lib.rs:214 | the flag the driver tests, bit 0 of the second byte, is D16 of the output in both frame sizes |
| Properties.ThermocoupleDecodeValue | src/lib.rs:210-223 | a 2-byte decode succeeds exactly when the flag is clear, and then gives the sign-extended bits 15..2 |
| Properties.AllDecodeValue | src/lib.rs:258-267 | a fault-free 4-byte decode gives both sign-extended fields |
| Properties.ThermocoupleRoundTrip | src/lib.rs:218-222 | every 14-bit count packed into bits 15..2 with the flag clear decodes back to itself |
| Properties.ThermocoupleDecodeInverse | src/lib.rs:210-223 | a successful 2-byte decode determines the frame except D17: the count is 14-bit and re-encodes to the frame with D17 cleared |
| Properties.AllRoundTrip | src/lib.rs:258-267 | every pair of a 14-bit and a 12-bit count packed into a 4-byte frame decodes back to the pair |
| Properties.AllDecodeInverse | src/lib.rs:236-268 | a successful 4-byte decode determines the frame except D17 and D3..D0 |
| Properties.ThermocoupleReservedIgnored | src/lib.rs:214-222 | with the flag clear, a 2-byte frame always decodes, and D17 has no effect |
| Properties.AllReservedIgnored | src/lib.rs:240-267 | with the flag clear, a 4-byte frame always decodes, and D17, D3 and the OC/SCG/SCV bits have no effect |
| Properties.AllFaultPriority | src/lib.rs:242-255 | with the flag set, the fault depends only on the low three bits of the last byte: OC wins over SCG, SCG over SCV, and none gives `Fault` |
| Properties.ReadsAgree | src/lib.rs:218-220 | the 4-byte decode and the 2-byte decode of its first two bytes fault together and otherwise give the same thermocouple count |
| Properties.ThermocoupleExamples | src/lib.rs:210-223 | sample frames give +2.5, +1600, -250 and -0.25 degrees, and a set flag gives `Fault` |
| Properties.AllExamples | src/lib.rs:236-268 | sample frames give +127 and -55 degrees for the reference junction, ignore an OC bit without the flag, and give each fault |
| Units.Unit.Convert | src/lib.rs:96-102 | `Unit::convert` is inverted by ToCelsius: every Celsius value is recovered from its converted value |
| Units.Reading.Convert | src/lib.rs:115-121 | `Reading::convert` gives a whole number of resolution steps: the temperature divided by the resolution is the count |
| Units.ConvertRoundTrip | src/lib.rs:94-102 | over the reals, converting Celsius to a unit and back, or a unit to Celsius and back, loses nothing |
| Units.ConvertMonotone | src/lib.rs:94-102 | over the reals, every unit preserves the strict order of temperatures |
| Units.ConvertReferencePoints | src/lib.rs:94-102 | 0 and 100 degrees Celsius are 32 and 212 Fahrenheit, -40 is a fixed point, -273.15 Celsius is 0 Kelvin |
| Units.ReadingExact | src/lib.rs:113-121 | a count is recovered from its temperature, and one count is 0.25 degrees (thermocouple) or 0.0625 degrees (internal) |
| Units.ReadingMonotone | src/lib.rs:113-121 | the conversion preserves the order of counts |
| Units.ReadingRange | src/lib.rs:113-121 | 14-bit counts span -2048 to 2047.75 degrees, 12-bit counts -128 to 127.9375 degrees |
| Max31855.FullResultRaw.Convert | src/lib.rs:163-174 | each converted temperature, read back in Celsius, is its count times its resolution, and the unit is kept |
| Transaction.TransferResult | src/lib.rs:133-142 | `transfer` succeeds exactly when selecting, exchanging and releasing all succeed, and its errors are only `SpiError` or `ChipSelectError` |
| Transaction.TransferLog | src/lib.rs:133-142 | a transfer makes one to three requests, starts by selecting the chip, exchanges bytes exactly when selecting succeeded, and exchanges only while the chip is selected |
| Transaction.PinAfter | src/lib.rs:133-142 | a failed selection leaves the line where it was; after a successful selection the chip ends released exactly when the transfer succeeds |
| Transaction.ThermocoupleRawResult | src/lib.rs:210-223 | `read_thermocouple_raw` passes a transfer error on unchanged; after a clean transfer its only error is `Fault`, and a count is a 14-bit signed value |
| Transaction.AllRawResult | src/lib.rs:236-268 | `read_all_raw` passes a transfer error on unchanged; after a clean transfer its errors are sensor faults, and its counts are 14-bit and 12-bit signed values |
| Transaction.TransferSteps | src/lib.rs:124-143 | a transfer succeeds exactly when all three steps do; it exchanges once and only if selecting the chip succeeded; when selection succeeds, it releases the chip exactly when it succeeds |
| Transaction.TransferKeepsSelected | src/lib.rs:124-143 | a transfer's requests never exchange bytes with the chip deselected |
| Transaction.ThermocoupleReadMeansDatasheet | src/lib.rs:210-223 | a 16-bit read whose transfer succeeds reports what the output format says the bytes mean; a failed transfer reports the bus error |
| Transaction.AllReadMeansDatasheet | src/lib.rs:236-268 | the same for a 32-bit read |
| Transaction.Bus.SetState | src/lib.rs:133-135 | setting the pin logs the request and changes the level only on success |
| Transaction.Bus.TransferInPlace | src/lib.rs:137-138 | an exchange logs the request with the current level and, on success, overwrites the buffer with the bytes clocked in |
| Transaction.Bus.Transfer | src/lib.rs:124-143 | the result, the log, the final level and the buffer after select, exchange and release, stopping at the first failure; an SPI failure leaves the chip selected; the bus invariant is kept |
| Transaction.Bus.ReadThermocoupleRaw | src/lib.rs:210-223 | a 2-byte transfer followed by the decode, which is skipped on a transfer error |
| Transaction.Bus.ReadThermocouple | src/lib.rs:226-233 | the raw read's error unchanged, or its count converted to the unit |
| Transaction.Bus.ReadAllRaw | src/lib.rs:236-268 | a 4-byte transfer followed by the decode with the fault resolved |
| Transaction.Bus.ReadAll | src/lib.rs:271-273 | the raw read's error unchanged, or both counts converted to the unit |

## Left out

- Max31855.FullResultRaw.Convert: computes in exact reals through `Unit.Convert`, so it inherits the rounding gap of that line. Its `Reading.Convert` step is exact in `f32` as well: every `i16` is an `f32` value and so is its product with 0.25 or 0.0625.
- Units.Unit.Convert: computes in exact reals. In `f32`, 1.8 and 273.15 are not representable and `* 1.8`, `+ 32.` and `+ 273.15` round, so the source's map is neither exactly invertible nor strictly increasing (1e-10 and 2e-10 degrees Celsius both give 32.0 degrees Fahrenheit). ConvertRoundTrip and ConvertMonotone hold over the reals only.
- Max31855.BitsToI16: characterised only where the shift fills 16 bits and the divisor is 2^shift, which covers both calls the driver makes, (14, 4, 2) and (12, 16, 4). For other arguments it is modelled but not characterised.
- Bus.SetState: a failed `set_state` is taken to leave the line where it was. The `OutputPin` trait promises nothing about the line after an error.
- The `embedded-hal` `SpiDevice` and `OutputPin` traits are replaced by the `Replies` parameter. Their error payloads are carried as opaque type parameters, and the bytes the SPI device clocks out are ignored.
- src/blocking.rs is not part of this model. Its `transfer` (src/blocking.rs:14-33) is the same as the one in src/lib.rs, and it hands the decode to an `io_less` module that is not part of this model.
- src/async_await.rs is not part of this model. It has no chip-select pin and no `transfer`: it calls the SPI device's `transfer_in_place` directly (src/async_await.rs:27-29 and 43-45), its `Error` takes only the SPI type parameter, and it awaits the exchange. Its decode is also in `io_less`.
- Clock, SPI mode and pin configuration, and the usage example in the crate documentation: these are configuration outside the driver's logic.
