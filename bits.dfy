/**
  Integer bit manipulation as the driver performs it on Python integers:
  masks (`&`), flags (`|`), shifts and the assembly of multi-byte values.
  Everything is over unbounded naturals, so no width is implied except
  where a mask states one.
 */
module Bits {

  /** One byte on the bus. */
  type Byte = x: int | 0 <= x < 256

  function Pow2(k: nat): (r: nat)
    ensures r >= 1
  {
    if k == 0 then 1 else 2 * Pow2(k - 1)
  }

  /** The `width` bits of `x` starting at bit `lo`, that is bits `lo + width - 1 .. lo`. */
  function Field(x: nat, lo: nat, width: nat): nat
  {
    (x / Pow2(lo)) % Pow2(width)
  }

  /** `a & b` on non-negative integers, one bit at a time. */
  function BitAnd(a: nat, b: nat): nat
  {
    if a == 0 || b == 0 then 0
    else 2 * BitAnd(a / 2, b / 2) + (if a % 2 == 1 && b % 2 == 1 then 1 else 0)
  }

  /** `a | b` on non-negative integers, one bit at a time. */
  function BitOr(a: nat, b: nat): nat
    decreases a + b
  {
    if a == 0 then b
    else if b == 0 then a
    else 2 * BitOr(a / 2, b / 2) + (if a % 2 == 1 || b % 2 == 1 then 1 else 0)
  }

  lemma MulNonNegative(m: int, a: int)
    requires m >= 0 && a >= 0
    ensures m * a >= 0
  {}

  /** Quotient and remainder are the only pair that reassembles `x`. */
  lemma DivModUnique(x: int, m: int, q: int, r: int)
    requires m > 0 && 0 <= r < m && x == m * q + r
    ensures x / m == q && x % m == r
  {
    var q', r' := x / m, x % m;
    assert x == m * q' + r' && 0 <= r' < m;
    if q' > q {
      MulNonNegative(m, q' - q - 1);
      assert false;
    } else if q' < q {
      MulNonNegative(m, q - q' - 1);
      assert false;
    }
  }

  /** Splitting off the lowest bit commutes with reduction modulo an even modulus. */
  lemma ModDouble(x: nat, p: nat)
    requires p >= 1
    ensures x % (2 * p) == 2 * ((x / 2) % p) + x % 2
  {
    var h := x / 2;
    var q := h / p;
    var s := h % p;
    DivModUnique(h, p, q, s);
    assert x == 2 * h + x % 2;
    assert x == (2 * p) * q + (2 * s + x % 2);
    DivModUnique(x, 2 * p, q, 2 * s + x % 2);
  }

  /** Halving, then dividing by `p`, is dividing by `2p`. */
  lemma DivHalf(x: nat, p: nat)
    requires p >= 1
    ensures (x / 2) / p == x / (2 * p)
  {
    var h := x / 2;
    var q := h / p;
    var s := h % p;
    DivModUnique(h, p, q, s);
    assert x == (2 * p) * q + (2 * s + x % 2);
    DivModUnique(x, 2 * p, q, 2 * s + x % 2);
  }

  /** Masking with `2^k` keeps bit `k` alone: `x & 2^k` is nonzero exactly when bit `k` is set. */
  lemma {:induction false} AndBit(x: nat, k: nat)
    ensures BitAnd(x, Pow2(k)) == Pow2(k) * Field(x, k, 1)
  {
    if x == 0 {
      DivModUnique(0, Pow2(k), 0, 0);
      DivModUnique(0, Pow2(1), 0, 0);
    } else if k == 0 {
      assert BitAnd(x, 1) == 2 * BitAnd(x / 2, 0) + x % 2;
    } else {
      assert Pow2(k) / 2 == Pow2(k - 1) && Pow2(k) % 2 == 0;
      assert BitAnd(x, Pow2(k)) == 2 * BitAnd(x / 2, Pow2(k - 1));
      AndBit(x / 2, k - 1);
      DivHalf(x, Pow2(k - 1));
      assert Field(x / 2, k - 1, 1) == Field(x, k, 1);
    }
  }

  /** Masking with `2^k - 1` keeps exactly the low `k` bits. */
  lemma {:induction false} AndLowMask(x: nat, k: nat)
    ensures BitAnd(x, Pow2(k) - 1) == x % Pow2(k)
  {
    if k == 0 {
      assert BitAnd(x, 0) == 0;
    } else if x == 0 {
      DivModUnique(0, Pow2(k), 0, 0);
    } else {
      var half := Pow2(k - 1);
      var m := Pow2(k) - 1;
      assert m == 2 * half - 1;
      assert m % 2 == 1 && m / 2 == half - 1;
      var low := BitAnd(x / 2, half - 1);
      assert BitAnd(x, m) == 2 * low + x % 2;
      AndLowMask(x / 2, k - 1);
      assert low == (x / 2) % half;
      ModDouble(x, half);
    }
  }

  /** `x & 0xFF` is `x` reduced to one byte. */
  lemma AndByteMask(x: nat)
    ensures BitAnd(x, 0xFF) == x % 256
  {
    AndLowMask(x, 8);
    assert Pow2(8) == 256;
  }

  /** The arithmetic of one step of `OrBit`, with `y` standing for `(x / 2) | half`. */
  lemma OrBitStep(x: nat, half: nat, y: nat)
    requires half >= 1
    requires y % (2 * half) == half + (x / 2) % half
    ensures (2 * y + x % 2) % (4 * half) == 2 * half + x % (2 * half)
  {
    var z := 2 * y + x % 2;
    ModDouble(z, 2 * half);
    assert z / 2 == y && z % 2 == x % 2;
    ModDouble(x, half);
  }

  /** Or-ing in bit `k`, the cases that need no induction. */
  lemma OrBitBase(x: nat, k: nat)
    requires k == 0 || x == 0
    ensures BitOr(x, Pow2(k)) % Pow2(k + 1) == Pow2(k) + x % Pow2(k)
  {
    var p := Pow2(k);
    assert Pow2(k + 1) == 2 * p;
    if k == 0 {
      if x > 0 {
        assert BitOr(x, 1) == 2 * BitOr(x / 2, 0) + 1;
      }
    } else {
      assert BitOr(0, p) == p;
      DivModUnique(0, p, 0, 0);
      DivModUnique(p, 2 * p, 0, p);
    }
  }

  /** Or-ing in bit `k` sets that bit and leaves the bits below it alone. */
  lemma {:induction false} OrBit(x: nat, k: nat)
    ensures BitOr(x, Pow2(k)) % Pow2(k + 1) == Pow2(k) + x % Pow2(k)
  {
    if k == 0 || x == 0 {
      OrBitBase(x, k);
    } else {
      var half := Pow2(k - 1);
      assert Pow2(k) == 2 * half && Pow2(k + 1) == 4 * half;
      var y := BitOr(x / 2, half);
      assert BitOr(x, 2 * half) == 2 * y + x % 2;
      OrBit(x / 2, k - 1);
      OrBitStep(x, half, y);
    }
  }

  /** The number a byte string denotes when read most significant byte first. */
  function BigEndian(bs: seq<Byte>): nat
  {
    if bs == [] then 0 else BigEndian(bs[..|bs| - 1]) * 256 + bs[|bs| - 1]
  }

  lemma {:induction false} Pow2Add(a: nat, b: nat)
    ensures Pow2(a + b) == Pow2(a) * Pow2(b)
  {
    if a > 0 {
      Pow2Add(a - 1, b);
    }
  }

  /** `n` bytes denote a number below `2^(8n)`. */
  lemma {:induction false} BigEndianBound(bs: seq<Byte>)
    ensures BigEndian(bs) < Pow2(8 * |bs|)
  {
    if bs != [] {
      var front := bs[..|bs| - 1];
      BigEndianBound(front);
      Pow2Add(8 * |front|, 8);
      assert Pow2(8) == 256;
      assert BigEndian(bs) <= (Pow2(8 * |front|) - 1) * 256 + 255;
    }
  }

  /** Three bytes read most significant first: `b0 * 65536 + b1 * 256 + b2`, below `2^24`. */
  lemma BigEndian3(b0: Byte, b1: Byte, b2: Byte)
    ensures BigEndian([b0, b1, b2]) == b0 * 65536 + b1 * 256 + b2
    ensures BigEndian([b0, b1, b2]) < 0x100_0000
  {
    assert [b0][..0] == [];
    assert BigEndian([b0]) == b0;
    assert [b0, b1][..1] == [b0];
    assert BigEndian([b0, b1]) == b0 * 256 + b1;
    assert [b0, b1, b2][..2] == [b0, b1];
  }

  /** A three-byte burst denotes a number below `2^24`. */
  lemma BurstBound(bs: seq<Byte>)
    requires |bs| == 3
    ensures BigEndian(bs) < 0x100_0000
  {
    assert bs == [bs[0], bs[1], bs[2]];
    BigEndian3(bs[0], bs[1], bs[2]);
  }

  /**
    The accumulator loop that assembles a burst read: for each byte,
    `ret *= 256.0; ret += float(b & 0xFF)`. The code accumulates in a
    float; the model keeps the integer, which the float holds exactly
    below 2^53.
   */
  method AssembleBigEndian(bs: seq<Byte>) returns (ret: nat)
    ensures ret == BigEndian(bs)
    ensures ret < Pow2(8 * |bs|)
  {
    ret := 0;
    for i := 0 to |bs|
      invariant ret == BigEndian(bs[..i])
    {
      assert bs[..i + 1][..i] == bs[..i];
      AndByteMask(bs[i]);
      ret := ret * 256;
      ret := ret + BitAnd(bs[i], 0xFF);
    }
    assert bs[..|bs|] == bs;
    BigEndianBound(bs);
  }
}
