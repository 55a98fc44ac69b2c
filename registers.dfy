/**
  The BMP280's register map, the legal codes of each configuration field,
  and the two control bytes the driver composes from them.
 */
module Registers {
  import opened Bits

  const CHIP_ID := 0x58

  const REGISTER_CHIPID := 0xD0
  const REGISTER_DIG_T1 := 0x88
  const REGISTER_SOFTRESET := 0xE0
  const REGISTER_STATUS := 0xF3
  const REGISTER_CTRL_MEAS := 0xF4
  const REGISTER_CONFIG := 0xF5
  const REGISTER_PRESSUREDATA := 0xF7
  const REGISTER_TEMPDATA := 0xFA

  /** The byte that, written to the soft-reset register, resets the device. */
  const SOFTRESET_COMMAND := 0xB6

  const IIR_FILTER_DISABLE := 0x00
  const IIR_FILTER_X2 := 0x01
  const IIR_FILTER_X4 := 0x02
  const IIR_FILTER_X8 := 0x03
  const IIR_FILTER_X16 := 0x04

  const IIR_FILTERS: seq<int> :=
    [IIR_FILTER_DISABLE, IIR_FILTER_X2, IIR_FILTER_X4, IIR_FILTER_X8, IIR_FILTER_X16]

  const OVERSCAN_DISABLE := 0x00
  const OVERSCAN_X1 := 0x01
  const OVERSCAN_X2 := 0x02
  const OVERSCAN_X4 := 0x03
  const OVERSCAN_X8 := 0x04
  const OVERSCAN_X16 := 0x05

  /** Oversampling code to the number of samples averaged (0: channel off). */
  const OVERSCANS: map<int, nat> :=
    map[OVERSCAN_DISABLE := 0, OVERSCAN_X1 := 1, OVERSCAN_X2 := 2,
        OVERSCAN_X4 := 4, OVERSCAN_X8 := 8, OVERSCAN_X16 := 16]

  const MODE_SLEEP := 0x00
  const MODE_FORCE := 0x01
  const MODE_NORMAL := 0x03

  const MODES: seq<int> := [MODE_SLEEP, MODE_FORCE, MODE_NORMAL]

  /** Standby codes; the names give the period in milliseconds. */
  const STANDBY_TC_0_5 := 0x00
  const STANDBY_TC_10 := 0x06
  const STANDBY_TC_20 := 0x07
  const STANDBY_TC_62_5 := 0x01
  const STANDBY_TC_125 := 0x02
  const STANDBY_TC_250 := 0x03
  const STANDBY_TC_500 := 0x04
  const STANDBY_TC_1000 := 0x05

  const STANDBY_TCS: seq<int> :=
    [STANDBY_TC_0_5, STANDBY_TC_10, STANDBY_TC_20, STANDBY_TC_62_5,
     STANDBY_TC_125, STANDBY_TC_250, STANDBY_TC_500, STANDBY_TC_1000]

  /** Membership in the legal sets, stated as the ranges they amount to (see `LegalCodes`). */
  predicate IsMode(v: int) { 0 <= v <= 3 && v != 2 }
  predicate IsOverscan(v: int) { 0 <= v <= 5 }
  predicate IsIirFilter(v: int) { 0 <= v <= 4 }
  predicate IsStandby(v: int) { 0 <= v <= 7 }

  /** The ranges are exactly the codes the driver's tuples and table list. */
  lemma LegalCodes(v: int)
    ensures IsMode(v) <==> v in MODES
    ensures IsOverscan(v) <==> v in OVERSCANS
    ensures IsIirFilter(v) <==> v in IIR_FILTERS
    ensures IsStandby(v) <==> v in STANDBY_TCS
  {
  }

  /** Oversampling code `c > 0` averages `2^(c-1)` samples; code 0 switches the channel off. */
  lemma OverscanMultiplier(code: int)
    requires IsOverscan(code)
    ensures OVERSCANS[code] == if code == OVERSCAN_DISABLE then 0 else Pow2(code - 1)
  {
    assert Pow2(4) == 16;
  }

  /** The `ctrl_meas` byte: `(overscan_t << 5) + (overscan_p << 2) + mode`. */
  function CtrlMeas(overscanTemperature: int, overscanPressure: int, mode: int): (r: int)
    ensures IsOverscan(overscanTemperature) && IsOverscan(overscanPressure) && IsMode(mode) ==> 0 <= r < 256
  {
    overscanTemperature * Pow2(5) + overscanPressure * Pow2(2) + mode
  }

  /**
    The `config` byte: the standby code in bits 7..5 only in normal mode,
    the filter code in bits 4..2 only when the filter is enabled.
   */
  function Config(mode: int, standby: int, filter: int): (r: int)
    ensures IsStandby(standby) && IsIirFilter(filter) ==> 0 <= r < 256 && r % 4 == 0
    ensures mode != MODE_NORMAL && IsIirFilter(filter) ==> r < 32
  {
    (if mode == MODE_NORMAL then standby * Pow2(5) else 0)
    + (if filter != 0 then filter * Pow2(2) else 0)
  }

  /** Three fields of widths 3, 3 and 2 packed into one byte read back from their bit ranges. */
  lemma PackedFields(high: int, middle: int, low: int)
    requires 0 <= high < 8 && 0 <= middle < 8 && 0 <= low < 4
    ensures 0 <= high * 32 + middle * 4 + low < 256
    ensures Field(high * 32 + middle * 4 + low, 5, 3) == high
    ensures Field(high * 32 + middle * 4 + low, 2, 3) == middle
    ensures Field(high * 32 + middle * 4 + low, 0, 2) == low
  {
    assert Pow2(0) == 1 && Pow2(2) == 4 && Pow2(3) == 8 && Pow2(5) == 32;
    var r := high * 32 + middle * 4 + low;
    DivModUnique(r, 32, high, middle * 4 + low);
    DivModUnique(high, 8, 0, high);
    DivModUnique(r, 4, high * 8 + middle, low);
    DivModUnique(high * 8 + middle, 8, high, middle);
    DivModUnique(r, 1, r, 0);
    DivModUnique(low, 4, 0, low);
  }

  /**
    For legal codes the `ctrl_meas` byte fits in a byte, and each of the
    three codes is read back from its own bit range.
   */
  lemma CtrlMeasFields(overscanTemperature: int, overscanPressure: int, mode: int)
    requires IsOverscan(overscanTemperature) && IsOverscan(overscanPressure) && IsMode(mode)
    ensures 0 <= CtrlMeas(overscanTemperature, overscanPressure, mode) < 256
    ensures Field(CtrlMeas(overscanTemperature, overscanPressure, mode), 5, 3) == overscanTemperature
    ensures Field(CtrlMeas(overscanTemperature, overscanPressure, mode), 2, 3) == overscanPressure
    ensures Field(CtrlMeas(overscanTemperature, overscanPressure, mode), 0, 2) == mode
  {
    assert Pow2(2) == 4 && Pow2(5) == 32;
    PackedFields(overscanTemperature, overscanPressure, mode);
  }

  /**
    For legal codes the `config` byte fits in a byte; bits 7..5 carry the
    standby code exactly when the mode is normal (and are zero otherwise),
    bits 4..2 carry the filter code (zero when it is disabled), and bits
    1..0 are always zero.
   */
  lemma ConfigFields(mode: int, standby: int, filter: int)
    requires IsMode(mode) && IsStandby(standby) && IsIirFilter(filter)
    ensures 0 <= Config(mode, standby, filter) < 256
    ensures Field(Config(mode, standby, filter), 5, 3) == if mode == MODE_NORMAL then standby else 0
    ensures Field(Config(mode, standby, filter), 2, 3) == filter
    ensures Field(Config(mode, standby, filter), 0, 2) == 0
  {
    assert Pow2(2) == 4 && Pow2(5) == 32;
    PackedFields(if mode == MODE_NORMAL then standby else 0, filter, 0);
  }
}
