/**
  The 24-byte factory calibration block: twelve little-endian 16-bit words
  in the layout `<HhhHhhhhhhhh`, dig_T1..dig_T3 followed by dig_P1..dig_P9.
 */
module Calibration {
  import opened Bits
  import opened Results

  const WORDS := 12
  const BLOCK_LENGTH := 2 * WORDS

  /** Per word: `true` for a signed `h`, `false` for an unsigned `H`. */
  const SIGNED: seq<bool> :=
    [false, true, true, false, true, true, true, true, true, true, true, true]

  /** The values a 16-bit word of the given signedness can hold. */
  predicate InRange(signed: bool, w: int)
  {
    if signed then -0x8000 <= w < 0x8000 else 0 <= w < 0x1_0000
  }

  /** Twelve words, each within the range its place in the layout allows. */
  predicate WellFormed(words: seq<int>)
  {
    |words| == WORDS && forall i :: 0 <= i < WORDS ==> InRange(SIGNED[i], words[i])
  }

  /** One little-endian word: `lo + 256 * hi`, read as two's complement when signed. */
  function UnpackWord(lo: Byte, hi: Byte, signed: bool): (w: int)
    ensures InRange(signed, w)
    ensures w % 0x1_0000 == lo + 256 * hi
  {
    var raw := lo + 256 * hi;
    if signed && raw >= 0x8000 then raw - 0x1_0000 else raw
  }

  /** The low byte of a word's 16-bit two's-complement encoding. */
  function LowByte(w: int): Byte
  {
    (w % 0x1_0000) % 256
  }

  /** The high byte of a word's 16-bit two's-complement encoding. */
  function HighByte(w: int): Byte
  {
    (w % 0x1_0000) / 256
  }

  /**
    `struct.unpack("<HhhHhhhhhhhh", block)`: twelve words, or `None` (the
    struct error) when the block is not exactly 24 bytes long.
   */
  function Unpack(block: seq<Byte>): (r: Option<seq<int>>)
    ensures r.Some? <==> |block| == BLOCK_LENGTH
    ensures r.Some? ==> WellFormed(r.value)
  {
    if |block| != BLOCK_LENGTH then None
    else Some(seq(WORDS, i requires 0 <= i < WORDS => UnpackWord(block[2 * i], block[2 * i + 1], SIGNED[i])))
  }

  /** The inverse direction: the 24 bytes a device holding these words returns. */
  function Pack(words: seq<int>): (block: seq<Byte>)
    requires |words| == WORDS
    ensures |block| == BLOCK_LENGTH
  {
    seq(BLOCK_LENGTH, j requires 0 <= j < BLOCK_LENGTH =>
      if j % 2 == 0 then LowByte(words[j / 2]) else HighByte(words[j / 2]))
  }

  /** Decoding the encoding of a word gives the word back. */
  lemma UnpackPackWord(w: int, signed: bool)
    requires InRange(signed, w)
    ensures UnpackWord(LowByte(w), HighByte(w), signed) == w
  {
    var u := w % 0x1_0000;
    assert LowByte(w) + 256 * HighByte(w) == u;
    if w < 0 {
      DivModUnique(w, 0x1_0000, -1, w + 0x1_0000);
    } else {
      DivModUnique(w, 0x1_0000, 0, w);
    }
  }

  /** Word `i` of a decoded block is decoded from bytes `2i` and `2i + 1`. */
  lemma UnpackIndex(block: seq<Byte>, i: int)
    requires |block| == BLOCK_LENGTH && 0 <= i < WORDS
    ensures Unpack(block).value[i] == UnpackWord(block[2 * i], block[2 * i + 1], SIGNED[i])
  {
  }

  /** Bytes `2i` and `2i + 1` of a packed block are the low and high bytes of word `i`. */
  lemma PackIndex(words: seq<int>, i: int)
    requires |words| == WORDS && 0 <= i < WORDS
    ensures Pack(words)[2 * i] == LowByte(words[i]) && Pack(words)[2 * i + 1] == HighByte(words[i])
  {
    DivModUnique(2 * i, 2, i, 0);
    DivModUnique(2 * i + 1, 2, i, 1);
  }

  /** Word `i` of the block packed from well-formed words decodes to word `i`. */
  lemma UnpackPackAt(words: seq<int>, i: int)
    requires WellFormed(words) && 0 <= i < WORDS
    ensures Unpack(Pack(words)).value[i] == words[i]
  {
    UnpackIndex(Pack(words), i);
    PackIndex(words, i);
    UnpackPackWord(words[i], SIGNED[i]);
  }

  /** Unpacking the block that holds twelve well-formed words gives those words. */
  lemma UnpackPack(words: seq<int>)
    requires WellFormed(words)
    ensures Unpack(Pack(words)) == Some(words)
  {
    var r := Unpack(Pack(words)).value;
    forall i | 0 <= i < WORDS
      ensures r[i] == words[i]
    {
      UnpackPackAt(words, i);
    }
    assert r == words;
  }

  /** Packing the words of any 24-byte block gives the block back. */
  lemma PackUnpack(block: seq<Byte>)
    requires |block| == BLOCK_LENGTH
    ensures Pack(Unpack(block).value) == block
  {
    var words := Unpack(block).value;
    var again := Pack(words);
    forall j | 0 <= j < BLOCK_LENGTH
      ensures again[j] == block[j]
    {
      var i := j / 2;
      var w := words[i];
      var lo, hi := block[2 * i], block[2 * i + 1];
      assert w == UnpackWord(lo, hi, SIGNED[i]);
      assert w % 0x1_0000 == lo as int + 256 * hi as int;
      DivModUnique(lo as int + 256 * hi as int, 256, hi, lo);
    }
    assert again == block;
  }

  /** dig_T1..dig_T3: the first three words. */
  function TemperatureWords(words: seq<int>): (t: seq<int>)
    requires WellFormed(words)
    ensures |t| == 3 && 0 <= t[0] < 0x1_0000
    ensures forall i :: 1 <= i < 3 ==> -0x8000 <= t[i] < 0x8000
  {
    words[..3]
  }

  /** dig_P1..dig_P9: the remaining nine words. */
  function PressureWords(words: seq<int>): (p: seq<int>)
    requires WellFormed(words)
    ensures |p| == 9 && 0 <= p[0] < 0x1_0000
    ensures forall i :: 1 <= i < 9 ==> -0x8000 <= p[i] < 0x8000
  {
    words[3..]
  }

  /**
    Word `i` of a block is the word whose 16-bit encoding is bytes `2i`
    (low) and `2i + 1` (high), taken in the range of an unsigned word at
    places 0 and 3 and of a signed word everywhere else.
   */
  lemma UnpackAt(block: seq<Byte>, i: int)
    requires |block| == BLOCK_LENGTH && 0 <= i < WORDS
    ensures Unpack(block).value[i] % 0x1_0000 == block[2 * i] as int + 256 * block[2 * i + 1] as int
    ensures InRange(i != 0 && i != 3, Unpack(block).value[i])
  {
    UnpackIndex(block, i);
  }
}
