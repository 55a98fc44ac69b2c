/**
  The two bus transports. Each frames a register access differently; the
  `Bus` class stands for the transport object the driver holds: it sends
  frames, answers reads from the bytes the device will return, and keeps
  the order of register accesses for the driver's contracts to speak of.
 */
module Transport {
  import opened Bits
  import opened Results

  datatype Protocol = I2C | SPI

  /** One register access as the driver issues it. */
  datatype Access = Read(register: nat, length: nat) | Write(register: nat, value: nat)

  /**
    `x & 0xFF`: the byte the transports put on the wire for a register
    number on I2C and for the value of a write on either bus.
   */
  function ByteMask(x: nat): (b: Byte)
    ensures b == x % 256 && b % 128 == x % 128
    ensures x < 256 ==> b == x
  {
    AndByteMask(x);
    DivModUnique(x, 128, 2 * (x / 256) + (x % 256) / 128, (x % 256) % 128);
    BitAnd(x, 0xFF)
  }

  /** The address byte of an SPI read frame: `(register | 0x80) & 0xFF`. */
  function SpiReadAddress(register: nat): (a: Byte)
    ensures Field(a, 7, 1) == 1
    ensures a % 128 == register % 128
  {
    OrBit(register, 7);
    AndByteMask(BitOr(register, 0x80));
    assert Pow2(7) == 128 && Pow2(8) == 256;
    DivModUnique(BitAnd(BitOr(register, 0x80), 0xFF), 128, 1, register % 128);
    DivModUnique(1, 2, 0, 1);
    BitAnd(BitOr(register, 0x80), 0xFF)
  }

  /** The address byte of an SPI write frame: `register & 0x7F`. */
  function SpiWriteAddress(register: nat): (a: Byte)
    ensures Field(a, 7, 1) == 0
    ensures a == register % 128
  {
    AndLowMask(register, 7);
    assert Pow2(7) == 128;
    DivModUnique(register % 128, 128, 0, register % 128);
    DivModUnique(0, 2, 0, 0);
    BitAnd(register, 0x7F)
  }

  /**
    The bytes written to select a register before reading it: one byte that
    carries the register's low seven bits, on SPI with bit 7 set to mark a read.
   */
  function ReadFrame(protocol: Protocol, register: nat): (f: seq<Byte>)
    ensures |f| == 1 && f[0] % 128 == register % 128
    ensures protocol == I2C ==> f[0] == register % 256
    ensures protocol == SPI ==> Field(f[0], 7, 1) == 1
  {
    match protocol
    case I2C => [ByteMask(register)]
    case SPI => [SpiReadAddress(register)]
  }

  /**
    The bytes written to store one value into a register: the register byte
    (on SPI with bit 7 clear) followed by the value's low byte.
   */
  function WriteFrame(protocol: Protocol, register: nat, value: nat): (f: seq<Byte>)
    ensures |f| == 2 && f[0] % 128 == register % 128 && f[1] == value % 256
    ensures protocol == I2C ==> f[0] == register % 256
    ensures protocol == SPI ==> Field(f[0], 7, 1) == 0
  {
    var data := ByteMask(value);
    match protocol
    case I2C => [ByteMask(register), data]
    case SPI => [SpiWriteAddress(register), data]
  }

  /** The frame that carries one register access. */
  function Frame(protocol: Protocol, a: Access): seq<Byte>
  {
    match a
    case Read(register, _) => ReadFrame(protocol, register)
    case Write(register, value) => WriteFrame(protocol, register, value)
  }

  /** The frames that carry a sequence of register accesses, one per access, in order. */
  function Frames(protocol: Protocol, accesses: seq<Access>): seq<seq<Byte>>
  {
    seq(|accesses|, i requires 0 <= i < |accesses| => Frame(protocol, accesses[i]))
  }

  /** The frames of consecutive accesses are the frames of each part, in order. */
  lemma FramesAppend(protocol: Protocol, first: seq<Access>, second: seq<Access>)
    ensures Frames(protocol, first + second) == Frames(protocol, first) + Frames(protocol, second)
  {
    var whole := Frames(protocol, first + second);
    forall i | 0 <= i < |whole|
      ensures whole[i] == (Frames(protocol, first) + Frames(protocol, second))[i]
    {
      if i >= |first| {
        assert (first + second)[i] == second[i - |first|];
      }
    }
  }

  /** A wire log that matches its access log keeps matching as accesses are appended. */
  lemma WireFollowsTrace(protocol: Protocol, wire0: seq<seq<Byte>>, trace0: seq<Access>,
                         wire: seq<seq<Byte>>, trace: seq<Access>, accesses: seq<Access>)
    requires wire0 == Frames(protocol, trace0) && wire == Frames(protocol, trace)
    requires trace == trace0 + accesses
    ensures wire == wire0 + Frames(protocol, accesses)
  {
    FramesAppend(protocol, trace0, accesses);
  }

  /**
    The wire shows every access for what it is: a read is one byte and a
    write two on either bus, and the first byte carries the register's low
    seven bits.
   */
  lemma FrameShowsAccess(protocol: Protocol, a: Access)
    ensures |Frame(protocol, a)| == if a.Read? then 1 else 2
    ensures Frame(protocol, a)[0] % 128 == a.register % 128
    ensures a.Write? ==> Frame(protocol, a)[1] == a.value % 256
  {
  }

  /**
    On SPI the first byte of a frame tells the device whether it is a read
    or a write, and both kinds carry the register's low seven bits.
   */
  lemma SpiFramesDistinguishable(register: nat, other: nat, value: nat)
    ensures ReadFrame(SPI, register)[0] != WriteFrame(SPI, other, value)[0]
    ensures ReadFrame(SPI, register)[0] % 128 == WriteFrame(SPI, register, value)[0]
  {
    var r := ReadFrame(SPI, register)[0];
    var w := WriteFrame(SPI, other, value)[0];
    assert Field(r, 7, 1) == 1 && Field(w, 7, 1) == 0;
  }

  class Bus {
    const protocol: Protocol
    /** The bytes the device will return to the next reads, in order. */
    var rx: seq<Byte>
    /** Every frame written on the bus so far. */
    var wire: seq<seq<Byte>>
    /** Every completed register access so far, in order. */
    ghost var trace: seq<Access>

    /** The frames on the wire are exactly those of the accesses, in order. */
    ghost predicate Valid()
      reads this
    {
      wire == Frames(protocol, trace)
    }

    constructor (protocol: Protocol, rx: seq<Byte>)
      ensures Valid()
      ensures this.protocol == protocol && this.rx == rx
      ensures wire == [] && trace == []
    {
      this.protocol := protocol;
      this.rx := rx;
      wire := [];
      trace := [];
    }

    /**
      `_read_register`: select `register`, then read `length` bytes. When the
      device has fewer bytes to give the transport raises (`None`), and the
      bus is left as it was.
     */
    method ReadRegister(register: nat, length: nat) returns (r: Option<seq<Byte>>)
      requires Valid()
      modifies this
      ensures Valid()
      ensures r.Some? <==> length <= |old(rx)|
      ensures r.Some? ==> && r.value == old(rx)[..length]
                          && rx == old(rx)[length..]
                          && wire == old(wire) + [ReadFrame(protocol, register)]
                          && trace == old(trace) + [Read(register, length)]
      ensures r.None? ==> unchanged(this)
    {
      if length > |rx| {
        return None;
      }
      FramesAppend(protocol, trace, [Read(register, length)]);
      wire := wire + [ReadFrame(protocol, register)];
      r := Some(rx[..length]);
      rx := rx[length..];
      trace := trace + [Read(register, length)];
    }

    /** `_write_register_byte`: store `value & 0xFF` into `register`. */
    method WriteRegisterByte(register: nat, value: nat)
      requires Valid()
      modifies this
      ensures Valid()
      ensures rx == old(rx)
      ensures wire == old(wire) + [WriteFrame(protocol, register, value)]
      ensures trace == old(trace) + [Write(register, value)]
    {
      FramesAppend(protocol, trace, [Write(register, value)]);
      wire := wire + [WriteFrame(protocol, register, value)];
      trace := trace + [Write(register, value)];
    }
  }
}
