/** What the checksum kernels return, bit by bit, from the words they read: generic shift registers, started
    from the complement of the seed and fed the eight low bits of each word. */
module Checksums {
  import opened WordOps
  import opened Words
  import opened Crc
  import Lfsr

  /** The message bits of the input words, low bit first. */
  function LowFirst(input: seq<u32>): (s: seq<bool>)
    ensures |s| == 8 * |input|
  {
    if input == [] then [] else Bits(input[0])[..8] + LowFirst(input[1..])
  }

  /** The message bits of the input words, high bit of each byte first. */
  function HighFirst(input: seq<u32>): (s: seq<bool>)
    ensures |s| == 8 * |input|
  {
    if input == [] then [] else Reversed(Bits(input[0])[..8]) + HighFirst(input[1..])
  }

  // ---------------------------------------------------------------- four bits at a time

  function LowNibble(x: u32): (s: seq<bool>)
    ensures |s| == 4
  {
    [Odd(x), Odd1(x), Odd2(x), Odd3(x)]
  }

  function TopNibble(h: u16): (s: seq<bool>)
    ensures |s| == 4
  {
    [Top16(h), Top1(h), Top2(h), Top3(h)]
  }

  lemma LsbStep(x: u32, n: nat)
    requires n > 0
    ensures Lsb(x, n) == [Odd(x)] + Lsb(Half(x), n - 1)
  {
  }

  lemma MsbStep(h: u16, n: nat)
    requires n > 0
    ensures Msb16(h, n) == [Top16(h)] + Msb16(Double16(h), n - 1)
  {
  }

  lemma LsbNibble(x: u32, n: nat)
    requires n >= 4
    ensures Lsb(x, n) == LowNibble(x) + Lsb(Right4(x), n - 4)
  {
    hide Odd, Half, Lsb;
    LsbStep(x, n);
    LsbStep(Half(x), n - 1);
    LsbStep(Half(Half(x)), n - 2);
    LsbStep(Half(Half(Half(x))), n - 3);
  }

  lemma MsbNibble(h: u16, n: nat)
    requires n >= 4
    ensures Msb16(h, n) == TopNibble(h) + Msb16(Left4(h), n - 4)
  {
    hide Top16, Double16, Msb16;
    MsbStep(h, n);
    MsbStep(Double16(h), n - 1);
    MsbStep(Double16(Double16(h)), n - 2);
    MsbStep(Double16(Double16(Double16(h))), n - 3);
  }

  lemma EightLow(x: u32, n: nat)
    requires n >= 8
    ensures Lsb(x, n) == LowNibble(x) + LowNibble(Right4(x)) + Lsb(Right4(Right4(x)), n - 8)
  {
    hide LowNibble, Lsb, Right4;
    LsbNibble(x, n);
    LsbNibble(Right4(x), n - 4);
  }

  lemma EightTop(h: u16, n: nat)
    requires n >= 8
    ensures Msb16(h, n) == TopNibble(h) + TopNibble(Left4(h)) + Msb16(Left4(Left4(h)), n - 8)
  {
    hide TopNibble, Msb16, Left4;
    MsbNibble(h, n);
    MsbNibble(Left4(h), n - 4);
  }

  lemma Nothing(x: u32, h: u16)
    ensures Lsb(x, 0) == [] && Msb16(h, 0) == []
  {
  }

  lemma FacingReversed(h: u16, x: u32)
    requires Facing(h, x)
    ensures TopNibble(h) == Reversed(LowNibble(x))
  {
    hide Top16, Top1, Top2, Top3, Odd, Odd1, Odd2, Odd3;
  }

  lemma JoinReversed(a: seq<bool>, b: seq<bool>)
    ensures Reversed(a + b) == Reversed(b) + Reversed(a)
  {
  }

  /** Two facing bytes. */
  lemma EightReversed(h: u16, x: u32, n: nat, m: nat)
    requires n >= 8 && m >= 8 && Facing(h, Right4(x)) && Facing(Left4(h), x)
    ensures Msb16(h, n)[..8] == Reversed(Lsb(x, m)[..8])
    ensures Msb16(h, n)[8..] == Msb16(Left4(Left4(h)), n - 8) && Lsb(x, m)[8..] == Lsb(Right4(Right4(x)), m - 8)
  {
    hide Facing, LowNibble, TopNibble, Lsb, Msb16, Right4, Left4;
    EightTop(h, n);
    EightLow(x, m);
    FacingReversed(h, Right4(x));
    FacingReversed(Left4(h), x);
    JoinReversed(LowNibble(x), LowNibble(Right4(x)));
  }

  lemma SixteenReversed(top: seq<bool>, middle: seq<bool>, low: seq<bool>)
    requires |top| == 16 && |middle| == 24 && |low| == 32 && low[8..] == middle
    requires top[..8] == Reversed(middle[..8]) && top[8..] == Reversed(low[..8])
    ensures top == Reversed(low[..16])
  {
    assert low[..16] == low[..8] + middle[..8];
    JoinReversed(low[..8], middle[..8]);
    assert top == top[..8] + top[8..];
  }

  /** The low half of a word, read from its top, is its sixteen low bits in reverse. */
  lemma HalfwordBits(x: u32)
    ensures Msb16(Truncate16(x), 16) == Reversed(Bits(x)[..16])
  {
    hide Facing, Lsb, Msb16, Right4, Left4, Truncate16;
    var h := Truncate16(x);
    var (g, y) := (Left4(Left4(h)), Right4(Right4(x)));
    TruncateFaces0(x);
    TruncateFaces1(x);
    TruncateFaces2(x);
    TruncateFaces3(x);
    EightReversed(h, y, 16, 24);
    EightReversed(g, x, 8, 32);
    assert Msb16(g, 8)[..8] == Msb16(g, 8);
    SixteenReversed(Msb16(h, 16), Lsb(y, 24), Bits(x));
  }

  lemma ByteBits(b: u8)
    ensures Msb16(HighByte16(b), 8) == Reversed(Lsb(LowByte(b), 8))
  {
    hide Facing, Lsb, Msb16, Right4, Left4, HighByte16, LowByte;
    HighByteFaces(b);
    EightReversed(HighByte16(b), LowByte(b), 8, 8);
  }

  /** Sixteen ones. */
  lemma OnesBits()
    ensures Msb16(0xffff, 16) == Complement(Zeros(16))
  {
    hide Msb16, Top16, Top1, Top2, Top3, Left4;
    OnesTop();
    EightTop(0xffff, 16);
    EightTop(0xff00, 8);
    Nothing(0, Left4(Left4(0xff00)));
  }

  lemma InvertHalfword(x: u16)
    ensures Msb16(Invert16(x), 16) == Complement(Msb16(x, 16))
  {
    InvertTop(x);
    hide Msb16, Invert16, IsXor16;
    Msb16Xor(x, 0xffff, Invert16(x), 16);
    OnesBits();
  }

  // ---------------------------------------------------------------- messages

  lemma {:induction false} LowBits(input: seq<u32>)
    ensures BitsLow(LowBytes(input)) == LowFirst(input)
  {
    if input != [] {
      LowBits(input[1..]);
      assert LowBytes(input)[1..] == LowBytes(input[1..]);
      LowByteOfBits(input[0]);
      LsbAdd(input[0], 8, 24);
      hide Lsb, Truncate, LowByte;
      assert Bits(input[0])[..8] == Lsb(input[0], 8);
    }
  }

  lemma {:induction false} HighBits(input: seq<u32>)
    ensures BitsHigh(LowBytes(input)) == HighFirst(input)
  {
    if input != [] {
      HighBits(input[1..]);
      assert LowBytes(input)[1..] == LowBytes(input[1..]);
      ByteBits(Truncate(input[0]));
      LowByteOfBits(input[0]);
      LsbAdd(input[0], 8, 24);
      hide Lsb, Msb16, Truncate, LowByte, HighByte16;
      assert Bits(input[0])[..8] == Lsb(input[0], 8);
    }
  }

  // ---------------------------------------------------------------- the two checksums

  /** CRC-32: the register of 0xedb88320, started from the complement of the seed's bits and fed the bits of
      the input, complemented at the end. */
  lemma Crc32Feeds(seed: u32, input: seq<u32>)
    ensures Bits(Crc32(seed, LowBytes(input)))
            == Complement(Lfsr.Feed(Bits(0xedb8_8320), Complement(Bits(seed)), LowFirst(input)))
  {
    LowBits(input);
    hide Lsb, Invert, Register32, BitsLow, Lfsr.Feed;
    var message := LowBytes(input);
    InvertBits(seed);
    Register32Is(Invert(seed), message);
    InvertBits(Register32(Invert(seed), message));
  }

  /** CRC-16: the register of x^16 + x^12 + x^5 + 1, listed from its top, started from the complement of the
      seed's sixteen low bits and fed the bits of the input, each byte from its high bit. */
  lemma Crc16Feeds(seed: u32, input: seq<u32>)
    ensures Msb16(Crc16(seed, LowBytes(input)), 16)
            == Lfsr.Feed([false, false, false, true, false, false, false, false,
                          false, false, true, false, false, false, false, true],
                         Complement(Reversed(Bits(seed)[..16])), HighFirst(input))
  {
    HighBits(input);
    hide Lsb, Msb16, Invert16, Truncate16, Register16, BitsHigh, Lfsr.Feed;
    var message := LowBytes(input);
    HalfwordBits(seed);
    InvertHalfword(Truncate16(seed));
    Register16Is(Invert16(Truncate16(seed)), message);
    Polynomial16();
  }
}
