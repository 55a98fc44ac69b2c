# BMP280 register protocol driver, modelled in Dafny

This project models the register-level half of the CircuitPython driver for
the Bosch BMP280 pressure and temperature sensor (`adafruit_bmp280.py`):

- the five configuration fields (mode, temperature and pressure oversampling,
  IIR filter, standby period), the setters that validate and store them, and
  the `ctrl_meas` and `config` bytes composed from them;
- the `_write_config` sequence that puts the device to sleep around a
  `config` write when it is in normal mode;
- the start-up sequence: chip-id check, soft reset, calibration read,
  initial register writes;
- the forced-mode measurement protocol, with its status-polling loop;
- the decoding of the 24-byte factory calibration block and the assembly of
  24-bit burst reads;
- the I2C and SPI framing of register addresses.

Files and modules:

- `results.dfy` (`Results`): `Option`, `Result` and `Outcome`, used where
  the driver raises.
- `bits.dfy` (`Bits`): bytes, `&` and `|` on naturals one bit at a time,
  bit fields, big-endian assembly and the `_read24` accumulator loop.
- `registers.dfy` (`Registers`): the register map, the legal codes of
  each field, and the `ctrl_meas` and `config` compositions.
- `calibration.dfy` (`Calibration`): the `<HhhHhhhhhhhh` layout, its
  decoder and an encoder, with both round trips.
- `transport.dfy` (`Transport`): frame bytes for both buses, and the
  `Bus` class that stands for the transport object.
- `driver.dfy` (`Driver`): the `Sensor` class and the specification
  functions of its bus traffic.

The transport is a class `Bus` with a `protocol` field (I2C or SPI) that
selects the framing. The device's answers are a finite byte stream `rx`:
each read takes the next bytes from it. A read that needs more bytes than
remain is a transport error. The error propagates, and the bus is left as it
was. `Bus.trace` records every completed register access in order, and
`Bus.wire` records every frame sent. `Bus.Valid()` says the wire log is
exactly the frames of the access log (`Frames`), and every bus and sensor
method keeps it. So each statement about the accesses a driver operation
issues is also a statement about the bytes it sends (`WireFollowsTrace`);
the main operations also state their frames outright.

Each driver operation is specified by a function that gives, for the
answers the device will return, the accesses issued, the number of bytes
used and the result (`ConnectExchange`, `TemperatureExchange`,
`PressureExchange`, `ConfigWrites`). The class methods are proved to do
exactly that, and lemmas prove what the driver promises about those
functions.

A consequence of the code as written, proved here: `_config` is computed
after `_write_config` has already switched the mode to sleep, so no `config`
byte the driver writes has standby bits. A `standby_period` change
sends the same bus traffic whatever new code it sets; setting the code
already in force sends nothing (`ConfigWritesShape`,
`ConfigWritesIgnoreStandby`).

Points where the code behaves in ways a reader might not expect, all
modelled as written:
- A wrong chip id raises `RuntimeError`, and an illegal setting raises
  `ValueError`; the model calls these `ChipNotFound` and `...NotSupported`.
- The default fields are assigned before the soft reset, which makes no
  difference on the bus.
- The standby code never reaches the device, as described above.
- The docstring of `pressure` (adafruit_bmp280.py:332-335) says it returns
  `None` when pressure measurement is disabled, but the code never returns
  `None`: it always reads the pressure burst. The model follows the code
  (`ReadPressure` returns the burst whatever the oversampling code).

## Model

| member | source | states |
|---|---|---|
| `Bits.AndBit` | adafruit_bmp280.py:163 | `x & 2^k` is `2^k` times bit k of `x` |
| `Bits.AndByteMask` | adafruit_bmp280.py:399 | `x & 0xFF` is `x` reduced modulo 256 |
| `Bits.OrBit` | adafruit_bmp280.py:531 | or-ing in bit k sets bit k and keeps the bits below it |
| `Bits.BigEndian3` | adafruit_bmp280.py:394-400 | three burst bytes denote `b0*65536 + b1*256 + b2`, below 2^24 |
| `Bits.BigEndianBound` | adafruit_bmp280.py:394-400 | n bytes read most significant first denote a number below 2^(8n) |
| `Bits.AssembleBigEndian` | adafruit_bmp280.py:396-400 | the accumulator loop (`ret *= 256.0; ret += float(b & 0xFF)`, kept on integers) yields the big-endian value of the bytes, below 2^(8n) |
| `Registers.LegalCodes` | adafruit_bmp280.py:65-125 | the legal sets are modes {0,1,3}, oversampling 0..5, filter 0..4, standby the 8 codes 0..7 |
| `Registers.OverscanMultiplier` | adafruit_bmp280.py:88-95 | oversampling code c averages 2^(c-1) samples, code 0 turns the channel off |
| `Registers.CtrlMeas` | adafruit_bmp280.py:296-302 | `_ctrl_meas` composes `(overscan_t << 5) + (overscan_p << 2) + mode`; for legal codes it fits in one byte (field layout in `CtrlMeasFields`) |
| `Registers.Config` | adafruit_bmp280.py:286-294 | `_config` fits in one byte with bits 1..0 zero for legal codes, and outside normal mode it is below 32: no standby bits |
| `Registers.CtrlMeasFields` | adafruit_bmp280.py:296-302 | for legal codes `ctrl_meas` is below 256 and bits 7..5, 4..2, 1..0 give back temperature oversampling, pressure oversampling and mode |
| `Registers.ConfigFields` | adafruit_bmp280.py:286-294 | for legal codes `config` is below 256, bits 7..5 hold the standby code exactly in normal mode and are 0 otherwise, bits 4..2 the filter code (0 when disabled), bits 1..0 are 0 |
| `Calibration.UnpackWord` | adafruit_bmp280.py:377 | one `H` or `h` field: its value is in the field's range and is `lo + 256*hi` modulo 2^16 |
| `Calibration.Unpack` | adafruit_bmp280.py:377 | unpacking succeeds exactly on 24 bytes and yields 12 words, words 0 and 3 in [0, 65535], the rest in [-32768, 32767] |
| `Calibration.UnpackAt` | adafruit_bmp280.py:377 | word i of any 24-byte block is congruent to `b[2i] + 256*b[2i+1]` modulo 2^16 and lies in the unsigned 16-bit range at places 0 and 3 (`H`) and the signed range elsewhere (`h`), which together fix its value |
| `Calibration.Pack` | adafruit_bmp280.py:377 | the encoding of twelve words is exactly 24 bytes long |
| `Calibration.UnpackPackAt` | adafruit_bmp280.py:377 | each in-range word survives encoding then decoding |
| `Calibration.UnpackPack` | adafruit_bmp280.py:377 | decoding the encoding of 12 in-range words gives the words back |
| `Calibration.PackUnpack` | adafruit_bmp280.py:377 | encoding the words decoded from any 24-byte block gives the block back |
| `Calibration.TemperatureWords` | adafruit_bmp280.py:380 | `_temp_calib` is words 0..2: one unsigned and two signed words |
| `Calibration.PressureWords` | adafruit_bmp280.py:381 | `_pressure_calib` is words 3..11: one unsigned and eight signed words |
| `Transport.ByteMask` | adafruit_bmp280.py:463-472 | the I2C register byte and the value byte of a write are `x & 0xFF`: `x` modulo 256, `x` itself when below 256 |
| `Transport.SpiReadAddress` | adafruit_bmp280.py:531 | the SPI read address has bit 7 set and keeps the register's low 7 bits |
| `Transport.SpiWriteAddress` | adafruit_bmp280.py:541 | the SPI write address has bit 7 clear and equals the register's low 7 bits |
| `Transport.ReadFrame` | adafruit_bmp280.py:460-467 | a read is preceded by one address byte holding the register's low 7 bits: `register & 0xFF` on I2C, bit 7 set on SPI (lines 529-537) |
| `Transport.WriteFrame` | adafruit_bmp280.py:469-473 | a write is two bytes, the register byte (`& 0xFF` on I2C, bit 7 clear on SPI, lines 539-543) and `value & 0xFF` |
| `Transport.FrameShowsAccess` | adafruit_bmp280.py:460-473 | on either bus (SPI: lines 529-543) a read frame is one byte and a write frame two, and the first byte carries the register's low 7 bits |
| `Transport.FramesAppend` | adafruit_bmp280.py:460-473 | the frames of consecutive accesses are the frames of each, in order |
| `Transport.WireFollowsTrace` | adafruit_bmp280.py:460-473 | when the wire log matches the access log before and after, the bytes sent are exactly the frames of the accesses added |
| `Transport.SpiFramesDistinguishable` | adafruit_bmp280.py:529-543 | an SPI read frame never starts like a write frame, and both carry the same low 7 bits of the register |
| `Transport.Bus.constructor` | adafruit_bmp280.py:452-458 | a new bus has sent nothing, so its empty wire log matches its empty access log |
| `Transport.Bus.ReadRegister` | adafruit_bmp280.py:460-467 | a read sends one read frame and returns exactly `length` bytes of the device's answers, or fails and leaves the bus as it was; the wire log keeps matching the access log |
| `Transport.Bus.WriteRegisterByte` | adafruit_bmp280.py:469-473 | a write sends one write frame (`WriteFrame`): the register byte framed for the bus, then `value & 0xFF`, and records the access; the wire log keeps matching the access log |
| `Driver.ConfigWrites` | adafruit_bmp280.py:198-207 | `_write_config` issues three writes in normal mode and one otherwise, all of them to ctrl_meas or config |
| `Driver.ConfigWritesShape` | adafruit_bmp280.py:198-207 | outside normal mode `_write_config` writes `config` once; in normal mode it writes ctrl_meas with mode sleep, then `config`, then ctrl_meas with mode normal; every `config` byte written has bits 7..5 zero and the filter in bits 4..2 |
| `Driver.ConfigWritesIgnoreStandby` | adafruit_bmp280.py:232-239 | the bus traffic of a `config` rewrite does not depend on the standby code |
| `Driver.Measuring` | adafruit_bmp280.py:163 | `status & 0x08` is nonzero exactly when bit 3 of the status byte is set |
| `Driver.Poll` | adafruit_bmp280.py:163-164 | the polling loop stops at the first status byte with bit 3 (0x08) clear, every earlier one having it set, or runs out of answers when all have it set |
| `Driver.Burst` | adafruit_bmp280.py:394-400 | `_read24` succeeds exactly when three answers remain, uses three of them and yields a value below 2^24; on failure it issues nothing |
| `Driver.TemperatureExchange` | adafruit_bmp280.py:158-165 | a temperature read fails only with a transport error, and a successful one ends with the 3-byte burst of 0xFA and yields a value below 2^24 |
| `Driver.TemperatureReadInNormalMode` | adafruit_bmp280.py:158-165 | in normal mode a temperature read writes nothing and reads only the 3-byte burst |
| `Driver.TemperatureReadInForcedMode` | adafruit_bmp280.py:158-165 | outside normal mode a temperature read first writes ctrl_meas with mode forced (its only write); it succeeds exactly when a status byte with bit 3 clear arrives and three answers follow it, and then its accesses are exactly the forced write, one status read per status byte up to that one, and the burst; the temperature register is read at most once, last, and only on success |
| `Driver.PressureExchange` | adafruit_bmp280.py:330-340 | a pressure read fails only with a transport error, and a successful one ends with the 3-byte burst of 0xF7 and yields a value below 2^24 |
| `Driver.PressureReadRefreshesTemperature` | adafruit_bmp280.py:336-340 | a successful pressure read is a complete temperature read followed by the pressure burst |
| `Driver.ConnectExchange` | adafruit_bmp280.py:139-156 | whenever construction issues anything its first access is the chip-id read, and a successful one uses 25 answers and yields twelve in-range calibration words |
| `Driver.ConnectSequence` | adafruit_bmp280.py:139-156 | with no answer construction issues nothing; a chip id other than 0x58 fails with that id before any write; with id 0x58 and fewer than 25 answers it fails after the reset; with id 0x58 and 25 answers it succeeds, and a success issues exactly read 0xD0, write (0xE0, 0xB6), read 24 at 0x88, write (0xF4, 0x54), write (0xF5, 0x00) and decodes answers 1..24 |
| `Driver.Sensor.constructor` | adafruit_bmp280.py:145-149 | the defaults: x2 / x16 oversampling, filter disabled, standby 0.5 ms, sleep |
| `Driver.Sensor.Connect` | adafruit_bmp280.py:139-156 | construction issues exactly the accesses of `ConnectExchange` and sends exactly their frames, fails with its error, or yields a valid sensor with default settings, the decoded calibration, no reading yet and a sea-level pressure of 1013.25 hPa |
| `Driver.Sensor.Initialize` | adafruit_bmp280.py:150-153 | after the chip-id check: the soft reset, then either a transport error with nothing else issued, or the calibration read (stored as words 0..2 and 3..11), the ctrl_meas write and `_write_config`, with the fields unchanged |
| `Driver.Sensor.ReadByte` | adafruit_bmp280.py:390-392 | returns the single byte of a length-1 read, or the transport error with the bus unchanged |
| `Driver.Sensor.Read24` | adafruit_bmp280.py:394-400 | reads 3 bytes at the register and returns their big-endian value, as an integer where the code returns the same number as a float |
| `Driver.Sensor.GetStatus` | adafruit_bmp280.py:190-192 | one byte read of the status register |
| `Driver.Sensor.ReadConfig` | adafruit_bmp280.py:194-196 | one byte read of the config register |
| `Driver.Sensor.Reset` | adafruit_bmp280.py:178-181 | writes 0xB6 to the soft-reset register and nothing else, as one write frame on the wire |
| `Driver.Sensor.ReadCoefficients` | adafruit_bmp280.py:374-381 | one 24-byte read at 0x88, split into the three temperature and nine pressure words; on a transport error nothing changes |
| `Driver.Sensor.WriteCtrlMeas` | adafruit_bmp280.py:183-188 | writes the `ctrl_meas` byte of the current fields |
| `Driver.Sensor.WriteConfig` | adafruit_bmp280.py:198-207 | issues exactly `ConfigWrites` of the current settings, sends exactly their frames, and leaves every field as it was (mode ends normal again) |
| `Driver.Sensor.SetMode` | adafruit_bmp280.py:217-222 | an illegal mode fails and changes nothing; a legal one changes only the mode and writes ctrl_meas once |
| `Driver.Sensor.SetStandbyPeriod` | adafruit_bmp280.py:232-239 | an illegal code fails and changes nothing; the current code is a no-op without bus traffic; a new legal code changes only the standby field and rewrites config |
| `Driver.Sensor.SetOverscanTemperature` | adafruit_bmp280.py:249-254 | an illegal code fails and changes nothing; a legal one changes only that field and writes ctrl_meas once |
| `Driver.Sensor.SetOverscanPressure` | adafruit_bmp280.py:264-269 | an illegal code fails and changes nothing; a legal one changes only that field and writes ctrl_meas once |
| `Driver.Sensor.SetIirFilter` | adafruit_bmp280.py:279-284 | an illegal code fails and changes nothing; a legal one changes only the filter and always rewrites config |
| `Driver.Sensor.AwaitConversion` | adafruit_bmp280.py:163-164 | the polling loop reads the status register once per answer up to and including the first with bit 3 clear (`Poll`), or reads all answers and fails when none is clear |
| `Driver.Sensor.ReadTemperature` | adafruit_bmp280.py:158-165 | issues exactly the accesses of `TemperatureExchange` and sends their frames; leaves the mode forced outside normal mode; keeps the calibration and sea-level pressure; keeps the burst on success and leaves the reading unchanged on a transport error |
| `Driver.Sensor.ReadPressure` | adafruit_bmp280.py:330-340 | issues exactly the accesses of `PressureExchange` and sends their frames, returns the pressure burst, and keeps the calibration and sea-level pressure |

## Left out

- `_read24` and `_read_coefficients` produce floats (adafruit_bmp280.py:378
  and 396-399). The model keeps the integers. They are the same numbers,
  because every integer below 2^24 (each 16-bit word and each 24-bit burst)
  is exactly representable as a double.
- Temperature and pressure compensation (adafruit_bmp280.py:165-175 and
  341-359) are left out because they are floating-point formulas. This
  includes the division-by-zero guard that raises `ArithmeticError`.
  `t_fine` is represented by the 24-bit temperature burst it is computed
  from (`temperatureData`).
- `altitude`, its setter and any use of `sea_level_pressure` beyond its
  initial value are left out: they use `math.pow` with non-integer exponents.
- `measurement_time_typical` and `measurement_time_max` are left out because
  they are floating-point. Only their code-to-multiplier table is kept
  (`OverscanMultiplier`).
- The `sleep` calls after a reset and between polls are left out. There is
  no clock.
- The bus-device objects are not modelled. This covers their lock
  acquire/release and the I2C address and SPI baud rate passed to the two
  subclass constructors (adafruit_bmp280.py:452-458, 521-527). The two
  subclasses become one `Bus` class with a protocol field.
- Transport failures on writes are not modelled: writes always succeed.
  A failed read is modelled as leaving no trace on the bus, although a real
  bus may already have sent the address byte.
- The polling loop of adafruit_bmp280.py:163-164 has no bound. In the model
  it ends once the device's finite answer stream runs out, and that ending
  is a transport error.
- Register numbers and written values are non-negative integers. Python
  would also accept values such as `True` or `1.0` that compare equal to a
  legal code; the model has integers only.
- Driver.Sensor.ReadTemperature: stops at the 24-bit burst and does not
  compute `t_fine`, because the compensation is floating point.
- Driver.Sensor.ReadPressure: returns the 24-bit pressure burst rather than
  hectopascals, because the compensation is floating point.
- examples/main.py is not part of this model. It is a demonstration loop
  that only prints.
