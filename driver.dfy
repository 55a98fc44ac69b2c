/**
  The BMP280 register protocol driver: five configuration fields kept in
  step with the device's `ctrl_meas` and `config` registers, the start-up
  sequence, and the forced-mode measurement protocol.
 */
module Driver {
  import opened Bits
  import opened Results
  import opened Registers
  import opened Calibration
  import opened Transport

  datatype Error =
    | BusFailure                          // the transport raised
    | ChipNotFound(chipId: Byte)          // RuntimeError: no BMP280 answered
    | ModeNotSupported(mode: int)         // ValueError from the `mode` setter
    | StandbyNotSupported(standby: int)   // ValueError from `standby_period`
    | OverscanNotSupported(overscan: int) // ValueError from `overscan_*`
    | FilterNotSupported(filter: int)     // ValueError from `iir_filter`

  /** The driver's five configuration fields. */
  datatype Settings = Settings(
    mode: int,
    overscanTemperature: int,
    overscanPressure: int,
    iirFilter: int,
    standbyPeriod: int)
  {
    predicate Legal()
    {
      && IsMode(mode)
      && IsOverscan(overscanTemperature)
      && IsOverscan(overscanPressure)
      && IsIirFilter(iirFilter)
      && IsStandby(standbyPeriod)
    }
  }

  /** x2 temperature and x16 pressure oversampling, no filter, 0.5 ms standby, sleeping. */
  const DEFAULTS := Settings(MODE_SLEEP, OVERSCAN_X2, OVERSCAN_X16, IIR_FILTER_DISABLE, STANDBY_TC_0_5)

  /** Writing `ctrl_meas` for the given settings with `mode` in place of theirs. */
  function CtrlMeasWrite(s: Settings, mode: int): (a: Access)
    requires s.Legal() && IsMode(mode)
  {
    CtrlMeasFields(s.overscanTemperature, s.overscanPressure, mode);
    Write(REGISTER_CTRL_MEAS, CtrlMeas(s.overscanTemperature, s.overscanPressure, mode))
  }

  /** Writing `config` as computed from the given settings. */
  function ConfigWrite(s: Settings): (a: Access)
    requires s.Legal()
  {
    ConfigFields(s.mode, s.standbyPeriod, s.iirFilter);
    Write(REGISTER_CONFIG, Config(s.mode, s.standbyPeriod, s.iirFilter))
  }

  /**
    The accesses `_write_config` issues from settings `s`: in normal mode it
    first switches the device to sleep (the device ignores `config` writes
    while measuring), writes `config`, then switches back to normal. The
    `config` byte is computed after the switch, from the sleeping settings.
   */
  function ConfigWrites(s: Settings): (writes: seq<Access>)
    requires s.Legal()
    ensures |writes| == if s.mode == MODE_NORMAL then 3 else 1
    ensures forall a | a in writes :: a.Write? && (a.register == REGISTER_CTRL_MEAS || a.register == REGISTER_CONFIG)
  {
    if s.mode == MODE_NORMAL then
      var sleeping := s.(mode := MODE_SLEEP);
      [CtrlMeasWrite(s, MODE_SLEEP), ConfigWrite(sleeping), CtrlMeasWrite(s, MODE_NORMAL)]
    else
      [ConfigWrite(s)]
  }

  /**
    What `_write_config` does to the device: outside normal mode one write
    of `config`; in normal mode sleep, `config`, normal. Every `config` byte
    it writes carries the filter code in bits 4..2 and zero in bits 7..5:
    the standby code never reaches the device.
   */
  lemma ConfigWritesShape(s: Settings)
    requires s.Legal()
    ensures s.mode != MODE_NORMAL ==> ConfigWrites(s) == [Write(REGISTER_CONFIG, s.iirFilter * 4)]
    ensures s.mode == MODE_NORMAL ==>
      && |ConfigWrites(s)| == 3
      && ConfigWrites(s)[0].register == REGISTER_CTRL_MEAS
      && Field(ConfigWrites(s)[0].value, 0, 2) == MODE_SLEEP
      && ConfigWrites(s)[1] == Write(REGISTER_CONFIG, s.iirFilter * 4)
      && ConfigWrites(s)[2].register == REGISTER_CTRL_MEAS
      && Field(ConfigWrites(s)[2].value, 0, 2) == MODE_NORMAL
    ensures forall k | 0 <= k < |ConfigWrites(s)| && ConfigWrites(s)[k].register == REGISTER_CONFIG ::
      && Field(ConfigWrites(s)[k].value, 5, 3) == 0
      && Field(ConfigWrites(s)[k].value, 2, 3) == s.iirFilter
  {
    assert Pow2(2) == 4;
    if s.mode == MODE_NORMAL {
      ConfigFields(MODE_SLEEP, s.standbyPeriod, s.iirFilter);
      CtrlMeasFields(s.overscanTemperature, s.overscanPressure, MODE_SLEEP);
      CtrlMeasFields(s.overscanTemperature, s.overscanPressure, MODE_NORMAL);
      var config := Write(REGISTER_CONFIG, s.iirFilter * 4);
      assert Config(MODE_SLEEP, s.standbyPeriod, s.iirFilter) == s.iirFilter * 4;
      assert ConfigWrites(s) == [CtrlMeasWrite(s, MODE_SLEEP), config, CtrlMeasWrite(s, MODE_NORMAL)];
    } else {
      ConfigFields(s.mode, s.standbyPeriod, s.iirFilter);
      assert Config(s.mode, s.standbyPeriod, s.iirFilter) == s.iirFilter * 4;
      assert ConfigWrites(s) == [Write(REGISTER_CONFIG, s.iirFilter * 4)];
    }
  }

  /**
    Consequently the bus traffic of `_write_config` does not depend on the
    standby code at all, whatever the mode.
   */
  lemma ConfigWritesIgnoreStandby(s: Settings, standby: int)
    requires s.Legal() && IsStandby(standby)
    ensures ConfigWrites(s.(standbyPeriod := standby)) == ConfigWrites(s)
  {
  }

  /** The `status` register's measuring flag, `status & 0x08`: bit 3. */
  function Measuring(status: Byte): (m: bool)
    ensures m <==> Field(status, 3, 1) == 1
  {
    AndBit(status, 3);
    BitAnd(status, 0x08) != 0
  }

  /**
    The number of status reads the polling loop performs on the answers
    `statuses`: up to and including the first that reports the conversion
    done, or `None` when the answers run out first.
   */
  function Poll(statuses: seq<Byte>): (n: Option<nat>)
    ensures n.Some? ==>
      && 1 <= n.value <= |statuses|
      && !Measuring(statuses[n.value - 1])
      && forall j :: 0 <= j < n.value - 1 ==> Measuring(statuses[j])
    ensures n.None? ==> forall j :: 0 <= j < |statuses| ==> Measuring(statuses[j])
  {
    if statuses == [] then None
    else if !Measuring(statuses[0]) then Some(1)
    else match Poll(statuses[1..])
      case None => None
      case Some(k) => Some(k + 1)
  }

  /** `n` reads of the status register. */
  function StatusReads(n: nat): (polls: seq<Access>)
    ensures |polls| == n && forall j :: 0 <= j < n ==> polls[j] == Read(REGISTER_STATUS, 1)
  {
    if n == 0 then [] else StatusReads(n - 1) + [Read(REGISTER_STATUS, 1)]
  }

  /**
    The bus traffic of one protocol step, given the bytes the device will
    return: the accesses issued, how many returned bytes were used, and the
    result.
   */
  datatype Exchange<T> = Exchange(accesses: seq<Access>, consumed: nat, result: Result<T, Error>)

  /** `_read24`: a three-byte burst read of `register`, assembled most significant byte first. */
  function Burst(register: nat, rx: seq<Byte>): (e: Exchange<nat>)
    ensures e.consumed <= |rx|
    ensures e.result.Success? <==> |rx| >= 3
    ensures e.result.Success? ==> e.consumed == 3 && e.result.value < 0x100_0000
    ensures e.result.Failure? ==> e.accesses == [] && e.consumed == 0 && e.result.error == BusFailure
  {
    if |rx| < 3 then Exchange([], 0, Failure(BusFailure))
    else
      BurstBound(rx[..3]);
      Exchange([Read(register, 3)], 3, Success(BigEndian(rx[..3])))
  }

  /**
    `_read_temperature` up to the compensation: outside normal mode, set
    mode to forced and poll the status register until its measuring flag
    clears; then read the temperature burst.
   */
  function TemperatureExchange(s: Settings, rx: seq<Byte>): (e: Exchange<nat>)
    requires s.Legal()
    ensures e.consumed <= |rx|
    ensures e.result.Failure? ==> e.result.error == BusFailure
    ensures e.result.Success? ==>
      && e.consumed >= 3 && e.result.value < 0x100_0000
      && |e.accesses| >= 1 && e.accesses[|e.accesses| - 1] == Read(REGISTER_TEMPDATA, 3)
  {
    if s.mode == MODE_NORMAL then Burst(REGISTER_TEMPDATA, rx)
    else
      var force := CtrlMeasWrite(s, MODE_FORCE);
      match Poll(rx)
      case None => Exchange([force] + StatusReads(|rx|), |rx|, Failure(BusFailure))
      case Some(n) =>
        var data := Burst(REGISTER_TEMPDATA, rx[n..]);
        Exchange([force] + StatusReads(n) + data.accesses, n + data.consumed, data.result)
  }

  /** In normal mode a temperature read writes nothing: it only reads the burst. */
  lemma TemperatureReadInNormalMode(s: Settings, rx: seq<Byte>)
    requires s.Legal() && s.mode == MODE_NORMAL
    ensures var e := TemperatureExchange(s, rx);
      && (forall k :: 0 <= k < |e.accesses| ==> e.accesses[k].Read?)
      && (e.result.Success? <==> |rx| >= 3)
      && (e.result.Success? ==> e.accesses == [Read(REGISTER_TEMPDATA, 3)] && e.result.value < 0x100_0000)
  {
    if |rx| >= 3 {
      BurstBound(rx[..3]);
    }
  }

  /**
    Outside normal mode a temperature read first writes `ctrl_meas` with
    mode forced, and that is its only write; it reads the temperature
    register only after a status read whose measuring flag was clear, all
    earlier status reads having reported a conversion in progress.
    The proof is a case split on `Poll(rx)`, not an induction; induction is
    switched off so that the verifier does not add a hypothesis over `rx`,
    which only makes the proof more expensive.
   */
  lemma {:induction false} TemperatureReadInForcedMode(s: Settings, rx: seq<Byte>)
    requires s.Legal() && s.mode != MODE_NORMAL
    ensures var e := TemperatureExchange(s, rx);
      && |e.accesses| >= 1
      && e.accesses[0] == CtrlMeasWrite(s, MODE_FORCE)
      && Field(e.accesses[0].value, 0, 2) == MODE_FORCE
      && (forall k :: 1 <= k < |e.accesses| ==> e.accesses[k].Read?)
      && (e.result.Success? <==> Poll(rx).Some? && |rx| >= Poll(rx).value + 3)
      && (e.result.Success? ==>
            && e.consumed >= 4
            && e.consumed == Poll(rx).value + 3
            && e.accesses == [CtrlMeasWrite(s, MODE_FORCE)] + StatusReads(e.consumed - 3) + [Read(REGISTER_TEMPDATA, 3)]
            && !Measuring(rx[e.consumed - 4])
            && (forall j :: 0 <= j < e.consumed - 4 ==> Measuring(rx[j]))
            && e.result.value == BigEndian(rx[e.consumed - 3..e.consumed]))
      && (forall k :: 0 <= k < |e.accesses| && e.accesses[k] == Read(REGISTER_TEMPDATA, 3) ==>
            k == |e.accesses| - 1 && e.result.Success?)
  {
    CtrlMeasFields(s.overscanTemperature, s.overscanPressure, MODE_FORCE);
    var e := TemperatureExchange(s, rx);
    var force := CtrlMeasWrite(s, MODE_FORCE);
    match Poll(rx)
    case None =>
      assert e.accesses == [force] + StatusReads(|rx|);
    case Some(n) =>
      var data := Burst(REGISTER_TEMPDATA, rx[n..]);
      assert e.accesses == [force] + StatusReads(n) + data.accesses;
      if data.result.Success? {
        assert rx[n..][..3] == rx[n..n + 3];
      }
  }

  /**
    The `pressure` property up to the compensation: a full temperature read
    (it refreshes `t_fine`), then the pressure burst.
   */
  function PressureExchange(s: Settings, rx: seq<Byte>): (e: Exchange<nat>)
    requires s.Legal()
    ensures e.consumed <= |rx|
    ensures e.result.Failure? ==> e.result.error == BusFailure
    ensures e.result.Success? ==>
      && e.consumed >= 6 && e.result.value < 0x100_0000
      && |e.accesses| >= 2 && e.accesses[|e.accesses| - 1] == Read(REGISTER_PRESSUREDATA, 3)
  {
    var t := TemperatureExchange(s, rx);
    if t.result.Failure? then t
    else
      var data := Burst(REGISTER_PRESSUREDATA, rx[t.consumed..]);
      Exchange(t.accesses + data.accesses, t.consumed + data.consumed, data.result)
  }

  /** A pressure reading always comes after a complete temperature reading. */
  lemma PressureReadRefreshesTemperature(s: Settings, rx: seq<Byte>)
    requires s.Legal()
    ensures var e := PressureExchange(s, rx);
      var t := TemperatureExchange(s, rx);
      e.result.Success? ==>
        && t.result.Success?
        && e.accesses == t.accesses + [Read(REGISTER_PRESSUREDATA, 3)]
        && e.result.value == BigEndian(rx[t.consumed..t.consumed + 3])
        && e.result.value < 0x100_0000
  {
    var t := TemperatureExchange(s, rx);
    if t.result.Success? && |rx[t.consumed..]| >= 3 {
      assert rx[t.consumed..][..3] == rx[t.consumed..t.consumed + 3];
      BurstBound(rx[t.consumed..t.consumed + 3]);
    }
  }

  /**
    `__init__`: read the chip id; unless it is 0x58, stop. Otherwise soft
    reset, read the 24-byte calibration block, then write `ctrl_meas` and
    (through `_write_config`) `config` for the default settings.
   */
  function ConnectExchange(rx: seq<Byte>): (e: Exchange<seq<int>>)
    ensures e.consumed <= |rx|
    ensures e.result.Success? ==> WellFormed(e.result.value) && e.consumed == 1 + BLOCK_LENGTH
    ensures |e.accesses| >= 1 ==> e.accesses[0] == Read(REGISTER_CHIPID, 1)
  {
    if |rx| < 1 then Exchange([], 0, Failure(BusFailure))
    else if rx[0] != CHIP_ID then
      Exchange([Read(REGISTER_CHIPID, 1)], 1, Failure(ChipNotFound(rx[0])))
    else
      var reset := [Read(REGISTER_CHIPID, 1), Write(REGISTER_SOFTRESET, SOFTRESET_COMMAND)];
      if |rx| < 1 + BLOCK_LENGTH then Exchange(reset, 1, Failure(BusFailure))
      else
        var words := Unpack(rx[1..1 + BLOCK_LENGTH]).value;
        Exchange(reset + [Read(REGISTER_DIG_T1, BLOCK_LENGTH), CtrlMeasWrite(DEFAULTS, DEFAULTS.mode)]
                       + ConfigWrites(DEFAULTS),
                 1 + BLOCK_LENGTH, Success(words))
  }

  /**
    A wrong chip id stops construction before any register write. The right
    one with 25 answers always succeeds, and the writes are then exactly
    (0xE0, 0xB6), (0xF4, 0x54), (0xF5, 0x00), with the 24-byte calibration
    read at 0x88 between the first two. When the answers run out, the
    accesses stop at the failed read.
   */
  lemma ConnectSequence(rx: seq<Byte>)
    ensures var e := ConnectExchange(rx);
      && (|rx| == 0 ==> e == Exchange([], 0, Failure(BusFailure)))
      && (|rx| >= 1 && rx[0] != CHIP_ID ==>
            e.result == Failure(ChipNotFound(rx[0])) && forall k :: 0 <= k < |e.accesses| ==> e.accesses[k].Read?)
      && (1 <= |rx| < 25 && rx[0] == CHIP_ID ==>
            e.result == Failure(BusFailure) && e.accesses == [Read(0xD0, 1), Write(0xE0, 0xB6)])
      && (|rx| >= 25 && rx[0] == CHIP_ID ==> e.result.Success?)
      && (e.result.Success? ==>
            && |rx| >= 25 && rx[0] == CHIP_ID
            && e.accesses == [Read(0xD0, 1), Write(0xE0, 0xB6), Read(0x88, 24), Write(0xF4, 0x54), Write(0xF5, 0x00)]
            && e.result.value == Unpack(rx[1..25]).value)
  {
    assert Pow2(2) == 4 && Pow2(5) == 32;
  }

  class Sensor {
    const bus: Bus
    var mode: int
    var overscanTemperature: int
    var overscanPressure: int
    var iirFilter: int
    var standbyPeriod: int
    /** dig_T1..dig_T3, as integers; the code stores the same values as floats. */
    var temperatureCalibration: seq<int>
    /** dig_P1..dig_P9, as integers; the code stores the same values as floats. */
    var pressureCalibration: seq<int>
    /** The last temperature burst, from which `t_fine` is computed. */
    var temperatureData: Option<nat>
    /** Pressure at sea level in hPa, the reference for altitude. */
    var seaLevelPressure: real

    function Current(): Settings
      reads this
    {
      Settings(mode, overscanTemperature, overscanPressure, iirFilter, standbyPeriod)
    }

    /** The state the configuration setters never touch. */
    function Readings(): (seq<int>, seq<int>, Option<nat>, real)
      reads this
    {
      (temperatureCalibration, pressureCalibration, temperatureData, seaLevelPressure)
    }

    /** Legal settings, and a bus whose wire log matches its access log. */
    ghost predicate Valid()
      reads this, bus
    {
      Current().Legal() && bus.Valid()
    }

    /** The field values `__init__` starts from, before any bus access. */
    constructor (bus: Bus)
      requires bus.Valid()
      ensures this.bus == bus && Valid() && Current() == DEFAULTS
      ensures temperatureCalibration == [] && pressureCalibration == []
      ensures temperatureData == None && seaLevelPressure == 1013.25
    {
      this.bus := bus;
      iirFilter := IIR_FILTER_DISABLE;
      overscanTemperature := OVERSCAN_X2;
      overscanPressure := OVERSCAN_X16;
      standbyPeriod := STANDBY_TC_0_5;
      mode := MODE_SLEEP;
      temperatureCalibration := [];
      pressureCalibration := [];
      temperatureData := None;
      seaLevelPressure := 1013.25;
    }

    /**
      The whole of `__init__`: no sensor is returned when the chip id is
      wrong or the transport fails, and the bus has then seen exactly the
      accesses up to the failure.
     */
    static method Connect(bus: Bus) returns (r: Result<Sensor, Error>)
      requires bus.Valid()
      modifies bus
      ensures bus.Valid()
      ensures var e := ConnectExchange(old(bus.rx));
        && bus.trace == old(bus.trace) + e.accesses
        && bus.wire == old(bus.wire) + Frames(bus.protocol, e.accesses)
        && bus.rx == old(bus.rx)[e.consumed..]
        && (r.Failure? <==> e.result.Failure?)
        && (r.Failure? ==> r.error == e.result.error)
        && (r.Success? ==>
              && fresh(r.value) && r.value.bus == bus && r.value.Valid()
              && r.value.Current() == DEFAULTS
              && r.value.temperatureCalibration == TemperatureWords(e.result.value)
              && r.value.pressureCalibration == PressureWords(e.result.value)
              && r.value.temperatureData == None
              && r.value.seaLevelPressure == 1013.25)
    {
      ghost var rx0, trace0, wire0 := bus.rx, bus.trace, bus.wire;
      ghost var e := ConnectExchange(rx0);
      var s := new Sensor(bus);
      var chipId := s.ReadByte(REGISTER_CHIPID);
      if chipId.Failure? {
        return Failure(BusFailure);
      }
      if chipId.value != CHIP_ID {
        WireFollowsTrace(bus.protocol, wire0, trace0, bus.wire, bus.trace, e.accesses);
        return Failure(ChipNotFound(chipId.value));
      }
      assert bus.rx == rx0[1..];
      if |rx0| >= 1 + BLOCK_LENGTH {
        assert bus.rx[..BLOCK_LENGTH] == rx0[1..1 + BLOCK_LENGTH];
      }
      var initialized := s.Initialize();
      WireFollowsTrace(bus.protocol, wire0, trace0, bus.wire, bus.trace, e.accesses);
      if initialized.Fail? {
        return Failure(initialized.error);
      }
      return Success(s);
    }

    /**
      The rest of `__init__` once the chip id is right: soft reset, read the
      calibration block, then write `ctrl_meas` and `config` for the current
      settings.
     */
    method Initialize() returns (r: Outcome<Error>)
      requires Valid()
      modifies this, bus
      ensures Valid() && Current() == old(Current())
      ensures temperatureData == old(temperatureData) && seaLevelPressure == old(seaLevelPressure)
      ensures |old(bus.rx)| < BLOCK_LENGTH ==>
        && r == Fail(BusFailure)
        && bus.rx == old(bus.rx)
        && bus.trace == old(bus.trace) + [Write(REGISTER_SOFTRESET, SOFTRESET_COMMAND)]
      ensures |old(bus.rx)| >= BLOCK_LENGTH ==>
        && r == Pass
        && bus.rx == old(bus.rx)[BLOCK_LENGTH..]
        && temperatureCalibration == TemperatureWords(Unpack(old(bus.rx)[..BLOCK_LENGTH]).value)
        && pressureCalibration == PressureWords(Unpack(old(bus.rx)[..BLOCK_LENGTH]).value)
        && bus.trace == old(bus.trace) + [Write(REGISTER_SOFTRESET, SOFTRESET_COMMAND)]
                        + [Read(REGISTER_DIG_T1, BLOCK_LENGTH)] + [CtrlMeasWrite(old(Current()), old(mode))]
                        + ConfigWrites(old(Current()))
    {
      Reset();
      var coefficients := ReadCoefficients();
      if coefficients.Fail? {
        return coefficients;
      }
      WriteCtrlMeas();
      WriteConfig();
      r := Pass;
    }

    /** `_read_byte`: the one byte of a length-1 read. */
    method ReadByte(register: nat) returns (r: Result<Byte, Error>)
      requires bus.Valid()
      modifies bus
      ensures bus.Valid()
      ensures |old(bus.rx)| >= 1 ==>
        && r == Success(old(bus.rx)[0])
        && bus.rx == old(bus.rx)[1..]
        && bus.trace == old(bus.trace) + [Read(register, 1)]
      ensures |old(bus.rx)| < 1 ==> r == Failure(BusFailure) && unchanged(bus)
    {
      var bytes := bus.ReadRegister(register, 1);
      if bytes.None? {
        return Failure(BusFailure);
      }
      r := Success(bytes.value[0]);
    }

    /** `_read24`: a three-byte burst assembled by the accumulator loop. */
    method Read24(register: nat) returns (r: Result<nat, Error>)
      requires bus.Valid()
      modifies bus
      ensures bus.Valid()
      ensures var e := Burst(register, old(bus.rx));
        && r == e.result
        && bus.rx == old(bus.rx)[e.consumed..]
        && bus.trace == old(bus.trace) + e.accesses
    {
      var bytes := bus.ReadRegister(register, 3);
      if bytes.None? {
        return Failure(BusFailure);
      }
      var value := AssembleBigEndian(bytes.value);
      r := Success(value);
    }

    /** `_get_status` */
    method GetStatus() returns (r: Result<Byte, Error>)
      requires bus.Valid()
      modifies bus
      ensures bus.Valid()
      ensures |old(bus.rx)| >= 1 ==>
        && r == Success(old(bus.rx)[0])
        && bus.rx == old(bus.rx)[1..]
        && bus.trace == old(bus.trace) + [Read(REGISTER_STATUS, 1)]
      ensures |old(bus.rx)| < 1 ==> r == Failure(BusFailure) && unchanged(bus)
    {
      r := ReadByte(REGISTER_STATUS);
    }

    /** `_read_config` */
    method ReadConfig() returns (r: Result<Byte, Error>)
      requires bus.Valid()
      modifies bus
      ensures bus.Valid()
      ensures |old(bus.rx)| >= 1 ==>
        && r == Success(old(bus.rx)[0])
        && bus.rx == old(bus.rx)[1..]
        && bus.trace == old(bus.trace) + [Read(REGISTER_CONFIG, 1)]
      ensures |old(bus.rx)| < 1 ==> r == Failure(BusFailure) && unchanged(bus)
    {
      r := ReadByte(REGISTER_CONFIG);
    }

    /** `_reset`: the soft-reset command (the 4 ms wait that follows is not modelled). */
    method Reset()
      requires bus.Valid()
      modifies bus
      ensures bus.Valid()
      ensures bus.rx == old(bus.rx)
      ensures bus.trace == old(bus.trace) + [Write(REGISTER_SOFTRESET, SOFTRESET_COMMAND)]
      ensures bus.wire == old(bus.wire) + [WriteFrame(bus.protocol, REGISTER_SOFTRESET, SOFTRESET_COMMAND)]
    {
      bus.WriteRegisterByte(REGISTER_SOFTRESET, SOFTRESET_COMMAND);
    }

    /** `_read_coefficients`: one 24-byte read at dig_T1, split into dig_T* and dig_P*. */
    method ReadCoefficients() returns (r: Outcome<Error>)
      requires bus.Valid()
      modifies this, bus
      ensures bus.Valid()
      ensures Current() == old(Current())
      ensures temperatureData == old(temperatureData) && seaLevelPressure == old(seaLevelPressure)
      ensures |old(bus.rx)| >= BLOCK_LENGTH ==>
        && r == Pass
        && temperatureCalibration == TemperatureWords(Unpack(old(bus.rx)[..BLOCK_LENGTH]).value)
        && pressureCalibration == PressureWords(Unpack(old(bus.rx)[..BLOCK_LENGTH]).value)
        && bus.rx == old(bus.rx)[BLOCK_LENGTH..]
        && bus.trace == old(bus.trace) + [Read(REGISTER_DIG_T1, BLOCK_LENGTH)]
      ensures |old(bus.rx)| < BLOCK_LENGTH ==> r == Fail(BusFailure) && unchanged(this) && unchanged(bus)
    {
      var block := bus.ReadRegister(REGISTER_DIG_T1, BLOCK_LENGTH);
      if block.None? {
        return Fail(BusFailure);
      }
      var words := Unpack(block.value).value;
      temperatureCalibration := TemperatureWords(words);
      pressureCalibration := PressureWords(words);
      r := Pass;
    }

    /** `_write_ctrl_meas` */
    method WriteCtrlMeas()
      requires Valid()
      modifies bus
      ensures Valid()
      ensures bus.rx == old(bus.rx)
      ensures bus.trace == old(bus.trace) + [CtrlMeasWrite(Current(), mode)]
    {
      CtrlMeasFields(overscanTemperature, overscanPressure, mode);
      bus.WriteRegisterByte(REGISTER_CTRL_MEAS, CtrlMeas(overscanTemperature, overscanPressure, mode));
    }

    /** `_write_config`: sleep, write `config`, restore normal, when in normal mode. */
    method WriteConfig()
      requires Valid()
      modifies this, bus
      ensures Valid() && Current() == old(Current()) && Readings() == old(Readings())
      ensures bus.rx == old(bus.rx)
      ensures bus.trace == old(bus.trace) + ConfigWrites(old(Current()))
      ensures bus.wire == old(bus.wire) + Frames(bus.protocol, ConfigWrites(old(Current())))
    {
      FramesAppend(bus.protocol, bus.trace, ConfigWrites(Current()));
      var normalFlag := false;
      if mode == MODE_NORMAL {
        normalFlag := true;
        var sleep := SetMode(MODE_SLEEP);
      }
      ConfigFields(mode, standbyPeriod, iirFilter);
      bus.WriteRegisterByte(REGISTER_CONFIG, Config(mode, standbyPeriod, iirFilter));
      if normalFlag {
        var normal := SetMode(MODE_NORMAL);
      }
    }

    /** The `mode` setter. */
    method SetMode(value: int) returns (r: Outcome<Error>)
      requires Valid()
      modifies this, bus
      ensures Valid() && Readings() == old(Readings())
      ensures r == if IsMode(value) then Pass else Fail(ModeNotSupported(value))
      ensures r.Fail? ==> unchanged(this) && unchanged(bus)
      ensures r.Pass? ==>
        && Current() == old(Current()).(mode := value)
        && bus.rx == old(bus.rx)
        && bus.trace == old(bus.trace) + [CtrlMeasWrite(Current(), value)]
    {
      if !IsMode(value) {
        return Fail(ModeNotSupported(value));
      }
      mode := value;
      WriteCtrlMeas();
      r := Pass;
    }

    /** The `standby_period` setter: re-setting the current code writes nothing. */
    method SetStandbyPeriod(value: int) returns (r: Outcome<Error>)
      requires Valid()
      modifies this, bus
      ensures Valid() && Readings() == old(Readings())
      ensures r == if IsStandby(value) then Pass else Fail(StandbyNotSupported(value))
      ensures r.Fail? || value == old(standbyPeriod) ==> unchanged(this) && unchanged(bus)
      ensures r.Pass? && value != old(standbyPeriod) ==>
        && Current() == old(Current()).(standbyPeriod := value)
        && bus.rx == old(bus.rx)
        && bus.trace == old(bus.trace) + ConfigWrites(Current())
    {
      if !IsStandby(value) {
        return Fail(StandbyNotSupported(value));
      }
      if standbyPeriod == value {
        return Pass;
      }
      standbyPeriod := value;
      WriteConfig();
      r := Pass;
    }

    /** The `overscan_temperature` setter. */
    method SetOverscanTemperature(value: int) returns (r: Outcome<Error>)
      requires Valid()
      modifies this, bus
      ensures Valid() && Readings() == old(Readings())
      ensures r == if IsOverscan(value) then Pass else Fail(OverscanNotSupported(value))
      ensures r.Fail? ==> unchanged(this) && unchanged(bus)
      ensures r.Pass? ==>
        && Current() == old(Current()).(overscanTemperature := value)
        && bus.rx == old(bus.rx)
        && bus.trace == old(bus.trace) + [CtrlMeasWrite(Current(), mode)]
    {
      if !IsOverscan(value) {
        return Fail(OverscanNotSupported(value));
      }
      overscanTemperature := value;
      WriteCtrlMeas();
      r := Pass;
    }

    /** The `overscan_pressure` setter. */
    method SetOverscanPressure(value: int) returns (r: Outcome<Error>)
      requires Valid()
      modifies this, bus
      ensures Valid() && Readings() == old(Readings())
      ensures r == if IsOverscan(value) then Pass else Fail(OverscanNotSupported(value))
      ensures r.Fail? ==> unchanged(this) && unchanged(bus)
      ensures r.Pass? ==>
        && Current() == old(Current()).(overscanPressure := value)
        && bus.rx == old(bus.rx)
        && bus.trace == old(bus.trace) + [CtrlMeasWrite(Current(), mode)]
    {
      if !IsOverscan(value) {
        return Fail(OverscanNotSupported(value));
      }
      overscanPressure := value;
      WriteCtrlMeas();
      r := Pass;
    }

    /** The `iir_filter` setter: it rewrites `config` even when the code is unchanged. */
    method SetIirFilter(value: int) returns (r: Outcome<Error>)
      requires Valid()
      modifies this, bus
      ensures Valid() && Readings() == old(Readings())
      ensures r == if IsIirFilter(value) then Pass else Fail(FilterNotSupported(value))
      ensures r.Fail? ==> unchanged(this) && unchanged(bus)
      ensures r.Pass? ==>
        && Current() == old(Current()).(iirFilter := value)
        && bus.rx == old(bus.rx)
        && bus.trace == old(bus.trace) + ConfigWrites(Current())
    {
      if !IsIirFilter(value) {
        return Fail(FilterNotSupported(value));
      }
      iirFilter := value;
      WriteConfig();
      r := Pass;
    }

    /**
      The polling loop of `_read_temperature`: read the status register until
      its measuring flag clears. The loop ends when the device's answers run
      out, which is a transport error.
     */
    method AwaitConversion() returns (r: Outcome<Error>)
      requires bus.Valid()
      modifies bus
      ensures bus.Valid()
      ensures Poll(old(bus.rx)).None? ==>
        && r == Fail(BusFailure)
        && bus.rx == []
        && bus.trace == old(bus.trace) + StatusReads(|old(bus.rx)|)
      ensures Poll(old(bus.rx)).Some? ==>
        && r == Pass
        && bus.rx == old(bus.rx)[Poll(old(bus.rx)).value..]
        && bus.trace == old(bus.trace) + StatusReads(Poll(old(bus.rx)).value)
    {
      ghost var rx0 := bus.rx;
      ghost var polled: nat := 0;
      while true
        invariant bus.Valid()
        invariant polled <= |rx0| && bus.rx == rx0[polled..]
        invariant bus.trace == old(bus.trace) + StatusReads(polled)
        invariant forall j :: 0 <= j < polled ==> Measuring(rx0[j])
        decreases |bus.rx|
      {
        var status := GetStatus();
        if status.Failure? {
          assert Poll(rx0).None?;
          return Fail(BusFailure);
        }
        assert status.value == rx0[polled];
        polled := polled + 1;
        if !Measuring(status.value) {
          assert Poll(rx0) == Some(polled);
          return Pass;
        }
      }
    }

    /**
      `_read_temperature` up to the compensation: on success the burst is
      kept in `temperatureData`; when the transport fails it is left as it
      was. Outside normal mode the mode is left at forced.
     */
    method ReadTemperature() returns (r: Outcome<Error>)
      requires Valid()
      modifies this, bus
      ensures Valid()
      ensures old(mode) == MODE_NORMAL ==> Current() == old(Current())
      ensures old(mode) != MODE_NORMAL ==> Current() == old(Current()).(mode := MODE_FORCE)
      ensures temperatureCalibration == old(temperatureCalibration)
      ensures pressureCalibration == old(pressureCalibration)
      ensures seaLevelPressure == old(seaLevelPressure)
      ensures var e := TemperatureExchange(old(Current()), old(bus.rx));
        && bus.trace == old(bus.trace) + e.accesses
        && bus.wire == old(bus.wire) + Frames(bus.protocol, e.accesses)
        && bus.rx == old(bus.rx)[e.consumed..]
        && r == (if e.result.Success? then Pass else Fail(e.result.error))
        && temperatureData == (if e.result.Success? then Some(e.result.value) else old(temperatureData))
    {
      FramesAppend(bus.protocol, bus.trace, TemperatureExchange(Current(), bus.rx).accesses);
      if mode != MODE_NORMAL {
        var forced := SetMode(MODE_FORCE);
        var done := AwaitConversion();
        if done.Fail? {
          return done;
        }
      }
      var raw := Read24(REGISTER_TEMPDATA);
      if raw.Failure? {
        return Fail(raw.error);
      }
      temperatureData := Some(raw.value);
      r := Pass;
    }

    /**
      The `pressure` property up to the compensation: a temperature read,
      then the pressure burst, which is returned.
     */
    method ReadPressure() returns (r: Result<nat, Error>)
      requires Valid()
      modifies this, bus
      ensures Valid()
      ensures old(mode) == MODE_NORMAL ==> Current() == old(Current())
      ensures old(mode) != MODE_NORMAL ==> Current() == old(Current()).(mode := MODE_FORCE)
      ensures temperatureCalibration == old(temperatureCalibration)
      ensures pressureCalibration == old(pressureCalibration)
      ensures seaLevelPressure == old(seaLevelPressure)
      ensures var e := PressureExchange(old(Current()), old(bus.rx));
        var t := TemperatureExchange(old(Current()), old(bus.rx));
        && bus.trace == old(bus.trace) + e.accesses
        && bus.wire == old(bus.wire) + Frames(bus.protocol, e.accesses)
        && bus.rx == old(bus.rx)[e.consumed..]
        && r == e.result
        && temperatureData == (if t.result.Success? then Some(t.result.value) else old(temperatureData))
    {
      FramesAppend(bus.protocol, bus.trace, PressureExchange(Current(), bus.rx).accesses);
      var t := ReadTemperature();
      if t.Fail? {
        return Failure(t.error);
      }
      r := Read24(REGISTER_PRESSUREDATA);
    }
  }
}
