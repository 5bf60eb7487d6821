/** The corpus's CRC-32 and CRC-16 kernels, on messages of any length. */
module Crc {
  import opened WordOps
  import opened Words
  import opened BitLoops
  import Lfsr

  const POLYNOMIAL_32: u32 := 0xedb8_8320
  const POLYNOMIAL_32_LEFT: u32 := 0x04c1_1db7
  const POLYNOMIAL_16: u16 := 0x1021

  // ---------------------------------------------------------------- the registers

  function Steps32(crc: u32, n: nat): u32
    decreases n
  {
    if n == 0 then crc else Steps32(Crc32Step(crc), n - 1)
  }

  function StepsLeft(p: u32, crc: u32, n: nat): u32
    decreases n
  {
    if n == 0 then crc else StepsLeft(p, LeftStep(p, crc), n - 1)
  }

  function Steps16(crc: u16, n: nat): u16
    decreases n
  {
    if n == 0 then crc else Steps16(Crc16Step(crc), n - 1)
  }

  /** The CRC-32 register after a message. */
  function Register32(crc: u32, message: seq<u8>): u32
    decreases |message|
  {
    if message == [] then crc else Register32(Steps32(AddLow(crc, message[0]), 8), message[1..])
  }

  /** A 32-bit left-shifting register after a message. */
  function RegisterLeft(p: u32, crc: u32, message: seq<u8>): u32
    decreases |message|
  {
    if message == [] then crc else RegisterLeft(p, StepsLeft(p, AddHigh(crc, message[0]), 8), message[1..])
  }

  /** The CRC-16 register after a message. */
  function Register16(crc: u16, message: seq<u8>): u16
    decreases |message|
  {
    if message == [] then crc else Register16(Steps16(AddHigh16(crc, message[0]), 8), message[1..])
  }

  // ---------------------------------------------------------------- messages as bits

  /** The bits of a message in the order in which a right-shifting register meets them. */
  function BitsLow(message: seq<u8>): (s: seq<bool>)
    ensures |s| == 8 * |message|
  {
    if message == [] then [] else Lsb(LowByte(message[0]), 8) + BitsLow(message[1..])
  }

  /** The bits of a message in the order in which a left-shifting register meets them. */
  function BitsHigh(message: seq<u8>): (s: seq<bool>)
    ensures |s| == 8 * |message|
  {
    if message == [] then [] else Msb16(HighByte16(message[0]), 8) + BitsHigh(message[1..])
  }

  // ---------------------------------------------------------------- the kernels are shift registers

  lemma Step32Is(crc: u32)
    ensures Bits(Crc32Step(crc)) == Lfsr.Step(Bits(POLYNOMIAL_32), Bits(crc))
  {
    ShiftRight(crc);
    assert Bits(crc)[0] == Odd(crc);
    if Odd(crc) {
      Crc32OddStep(crc);
      LsbXor(Half(crc), POLYNOMIAL_32, Crc32Step(crc), 32);
    } else {
      Crc32EvenStep(crc);
    }
  }

  lemma {:induction false} Steps32Is(crc: u32, n: nat)
    ensures Bits(Steps32(crc, n)) == Lfsr.Steps(Bits(POLYNOMIAL_32), Bits(crc), n)
    decreases n
  {
    hide Crc32Step, Bits;
    if n != 0 {
      Step32Is(crc);
      Steps32Is(Crc32Step(crc), n - 1);
    }
  }

  lemma StepLeftIs(p: u32, crc: u32)
    ensures Msb(LeftStep(p, crc), 32) == Lfsr.Step(Msb(p, 32), Msb(crc, 32))
  {
    ShiftLeft(crc);
    LeftStepIs(p, crc);
    assert Msb(crc, 32)[0] == Top(crc);
    if Top(crc) {
      MsbXor(Double(crc), p, LeftStep(p, crc), 32);
    }
  }

  lemma {:induction false} StepsLeftIs(p: u32, crc: u32, n: nat)
    ensures Msb(StepsLeft(p, crc, n), 32) == Lfsr.Steps(Msb(p, 32), Msb(crc, 32), n)
    decreases n
  {
    hide LeftStep, Msb;
    if n != 0 {
      StepLeftIs(p, crc);
      StepsLeftIs(p, LeftStep(p, crc), n - 1);
    }
  }

  lemma Step16Is(crc: u16)
    ensures Msb16(Crc16Step(crc), 16) == Lfsr.Step(Msb16(POLYNOMIAL_16, 16), Msb16(crc, 16))
  {
    ShiftLeft16(crc);
    Crc16StepIs(crc);
    assert Msb16(crc, 16)[0] == Top16(crc);
    if Top16(crc) {
      Msb16Xor(Double16(crc), POLYNOMIAL_16, Crc16Step(crc), 16);
    }
  }

  lemma {:induction false} Steps16Is(crc: u16, n: nat)
    ensures Msb16(Steps16(crc, n), 16) == Lfsr.Steps(Msb16(POLYNOMIAL_16, 16), Msb16(crc, 16), n)
    decreases n
  {
    hide Crc16Step, Msb16;
    if n != 0 {
      Step16Is(crc);
      Steps16Is(Crc16Step(crc), n - 1);
    }
  }

  // A byte is eight bits followed by zeros, so adding it at once and stepping eight times is
  // feeding it bit by bit.

  lemma LowByteBits(b: u8)
    ensures Bits(LowByte(b)) == Lfsr.Pad(Lsb(LowByte(b), 8), 32)
  {
    var x := LowByte(b);
    assert Right(0xff, 8) == 0;
    BytesFit(b);
    CoversNothing(Right(x, 8), 0);
    hide Right, Covers, Lsb;
    CoversRight(0xff, x, 8);
    LsbAdd(x, 8, 24);
    ZeroWord(24);
  }

  lemma HighByteBits(b: u8)
    ensures Msb(HighByte(b), 32) == Lfsr.Pad(Msb(HighByte(b), 8), 32)
  {
    var x := HighByte(b);
    assert Left(0xff00_0000, 8) == 0;
    BytesFit(b);
    CoversNothing(Left(x, 8), 0);
    hide Left, Covers, Msb;
    CoversLeft(0xff00_0000, x, 8);
    MsbAdd(x, 8, 24);
    ZeroWord(24);
  }

  lemma HighByte16Bits(b: u8)
    ensures Msb16(HighByte16(b), 16) == Lfsr.Pad(Msb16(HighByte16(b), 8), 16)
  {
    var x := HighByte16(b);
    assert Left16(0xff00, 8) == 0;
    BytesFit(b);
    CoversNothing(0, Left16(x, 8));
    hide Left16, Covers16, Msb16;
    CoversLeft16(0xff00, x, 8);
    Msb16Add(x, 8, 8);
    ZeroWord(8);
  }

  lemma Byte32Is(crc: u32, b: u8)
    ensures Bits(Steps32(AddLow(crc, b), 8)) ==
            Lfsr.Feed(Bits(POLYNOMIAL_32), Bits(crc), Lsb(LowByte(b), 8))
  {
    hide Steps32, Bits, Lfsr.Steps, Lfsr.Feed;
    var x := LowByte(b);
    var z := crc ^ x;
    assert Bits(z) == Xor(Bits(crc), Bits(x)) by {
      XorBits(crc, x, z);
    }
    LowByteBits(b);
    Steps32Is(z, 8);
    Lfsr.FeedAtOnce(Bits(POLYNOMIAL_32), Bits(crc), Lsb(x, 8));
  }

  lemma XorBits(x: u32, y: u32, z: u32)
    requires z == x ^ y
    ensures Bits(z) == Xor(Bits(x), Bits(y)) && Msb(z, 32) == Xor(Msb(x, 32), Msb(y, 32))
  {
    LsbXor(x, y, z, 32);
    MsbXor(x, y, z, 32);
  }

  lemma XorBits16(x: u16, y: u16, z: u16)
    requires z == x ^ y
    ensures Msb16(z, 16) == Xor(Msb16(x, 16), Msb16(y, 16))
  {
    Msb16Xor(x, y, z, 16);
  }

  lemma ByteLeftIs(p: u32, crc: u32, b: u8)
    ensures Msb(StepsLeft(p, AddHigh(crc, b), 8), 32) ==
            Lfsr.Feed(Msb(p, 32), Msb(crc, 32), Msb(HighByte(b), 8))
  {
    hide StepsLeft, Msb, Lfsr.Steps, Lfsr.Feed;
    var x := HighByte(b);
    var z := crc ^ x;
    XorBits(crc, x, z);
    HighByteBits(b);
    StepsLeftIs(p, z, 8);
    Lfsr.FeedAtOnce(Msb(p, 32), Msb(crc, 32), Msb(x, 8));
  }

  lemma Byte16Is(crc: u16, b: u8)
    ensures Msb16(Steps16(AddHigh16(crc, b), 8), 16) ==
            Lfsr.Feed(Msb16(POLYNOMIAL_16, 16), Msb16(crc, 16), Msb16(HighByte16(b), 8))
  {
    hide Steps16, Msb16, Lfsr.Steps, Lfsr.Feed;
    var x := HighByte16(b);
    var z := crc ^ x;
    XorBits16(crc, x, z);
    HighByte16Bits(b);
    Steps16Is(z, 8);
    Lfsr.FeedAtOnce(Msb16(POLYNOMIAL_16, 16), Msb16(crc, 16), Msb16(x, 8));
  }

  /** The byte-wise CRC-32 kernel is the bit-serial shift register of its polynomial. */
  lemma {:induction false} Register32Is(crc: u32, message: seq<u8>)
    ensures Bits(Register32(crc, message)) ==
            Lfsr.Feed(Bits(POLYNOMIAL_32), Bits(crc), BitsLow(message))
    decreases |message|
  {
    hide Steps32, Bits, Lsb, Lfsr.Step, LowByte, AddLow;
    var p := Bits(POLYNOMIAL_32);
    if message != [] {
      var next := Steps32(AddLow(crc, message[0]), 8);
      Byte32Is(crc, message[0]);
      Register32Is(next, message[1..]);
      Lfsr.FeedConcat(p, Bits(crc), Lsb(LowByte(message[0]), 8), BitsLow(message[1..]));
    }
  }

  lemma {:induction false} RegisterLeftIs(p: u32, crc: u32, message: seq<u8>, bits: seq<bool>)
    requires |bits| == 8 * |message|
    requires forall j :: 0 <= j < |message| ==> bits[8 * j..8 * j + 8] == Msb(HighByte(message[j]), 8)
    ensures Msb(RegisterLeft(p, crc, message), 32) == Lfsr.Feed(Msb(p, 32), Msb(crc, 32), bits)
    decreases |message|
  {
    hide StepsLeft, Msb, Lfsr.Step, HighByte, AddHigh;
    if message != [] {
      var next := StepsLeft(p, AddHigh(crc, message[0]), 8);
      ByteLeftIs(p, crc, message[0]);
      assert bits[8 * 0..8 * 0 + 8] == Msb(HighByte(message[0]), 8);
      forall j | 0 <= j < |message| - 1
        ensures bits[8..][8 * j..8 * j + 8] == Msb(HighByte(message[1..][j]), 8)
      {
        assert bits[8..][8 * j..8 * j + 8] == bits[8 * (j + 1)..8 * (j + 1) + 8];
      }
      RegisterLeftIs(p, next, message[1..], bits[8..]);
      Lfsr.FeedConcat(Msb(p, 32), Msb(crc, 32), bits[..8], bits[8..]);
      assert bits == bits[..8] + bits[8..];
    }
  }

  /** So is the CRC-16 kernel, read from the other end. */
  lemma {:induction false} Register16Is(crc: u16, message: seq<u8>)
    ensures Msb16(Register16(crc, message), 16) ==
            Lfsr.Feed(Msb16(POLYNOMIAL_16, 16), Msb16(crc, 16), BitsHigh(message))
    decreases |message|
  {
    hide Steps16, Msb16, Lfsr.Step, HighByte16, AddHigh16;
    var p := Msb16(POLYNOMIAL_16, 16);
    if message != [] {
      var next := Steps16(AddHigh16(crc, message[0]), 8);
      Byte16Is(crc, message[0]);
      Register16Is(next, message[1..]);
      Lfsr.FeedConcat(p, Msb16(crc, 16), Msb16(HighByte16(message[0]), 8), BitsHigh(message[1..]));
    }
  }

  // ---------------------------------------------------------------- the kernels

  /** The CRC-32 kernel's value: the algorithm of section 8 of RFC 1952 with a seeded start. */
  function Crc32(seed: u32, message: seq<u8>): u32 {
    Invert(Register32(Invert(seed), message))
  }

  function Crc16(seed: u32, message: seq<u8>): u16 {
    Register16(Invert16(Truncate16(seed)), message)
  }

  /** The low bytes of the words that a kernel reads. */
  function LowBytes(input: seq<u32>): (s: seq<u8>)
    ensures |s| == |input|
    ensures forall i :: 0 <= i < |s| ==> s[i] == Truncate(input[i])
  {
    seq(|input|, i requires 0 <= i < |input| => Truncate(input[i]))
  }

  /** The kernel's inner loop: eight bit-steps. */
  method EightSteps32(start: u32) returns (crc: u32)
    ensures crc == Steps32(start, 8)
  {
    crc := start;
    var bit := 0;
    while bit < 8
      invariant 0 <= bit <= 8
      invariant Steps32(crc, 8 - bit) == Steps32(start, 8)
    {
      crc := (crc >> 1) ^ (0xedb8_8320 & (0 - (crc & 1)));
      bit := bit + 1;
    }
  }

  method EightSteps16(start: u16) returns (crc: u16)
    ensures crc == Steps16(start, 8)
  {
    crc := start;
    var bit := 0;
    while bit < 8
      invariant 0 <= bit <= 8
      invariant Steps16(crc, 8 - bit) == Steps16(start, 8)
    {
      crc := if crc & 0x8000 != 0 then (crc << 1) ^ 0x1021 else crc << 1;
      bit := bit + 1;
    }
  }

  lemma NextByte(message: seq<u8>, i: nat, crc32: u32, crc16: u16)
    requires i < |message|
    ensures Register32(crc32, message[i..]) ==
            Register32(Steps32(AddLow(crc32, message[i]), 8), message[i + 1..])
    ensures Register16(crc16, message[i..]) ==
            Register16(Steps16(AddHigh16(crc16, message[i]), 8), message[i + 1..])
  {
    hide Steps32, Steps16, AddLow, AddHigh16;
    assert message[i..][1..] == message[i + 1..];
  }

  /** The CRC-32 kernel of the corpus on the first `length` words of its input. */
  method Kernel32(input: seq<u32>, length: nat, seed: u32) returns (result: u32)
    requires length <= |input|
    ensures result == Crc32(seed, LowBytes(input[..length]))
  {
    ghost var message := LowBytes(input[..length]);
    var crc: u32 := 0xffff_ffff ^ seed;
    InvertInjective(seed, seed);
    hide Invert, Register32, Register16, Steps32, Steps16, AddLow, AddHigh16, Truncate;
    var i := 0;
    while i < length
      invariant 0 <= i <= length
      invariant Register32(crc, message[i..]) == Register32(Invert(seed), message)
    {
      NextByte(message, i, crc, 0);
      crc := AddLow(crc, Truncate(input[i]));
      crc := EightSteps32(crc);
      i := i + 1;
    }
    RegisterDone(crc, 0, message);
    result := Invert(crc);
  }

  lemma RegisterDone(crc32: u32, crc16: u16, message: seq<u8>)
    ensures Register32(crc32, message[|message|..]) == crc32
    ensures Register16(crc16, message[|message|..]) == crc16
  {}

  /** The CRC-16 kernel of the corpus. */
  method Kernel16(input: seq<u32>, length: nat, seed: u32) returns (result: u16)
    requires length <= |input|
    ensures result == Crc16(seed, LowBytes(input[..length]))
  {
    ghost var message := LowBytes(input[..length]);
    var crc: u16 := Invert16(Truncate16(seed));
    hide Invert16, Truncate16, Register32, Register16, Steps32, Steps16, AddLow, AddHigh16, Truncate;
    var i := 0;
    while i < length
      invariant 0 <= i <= length
      invariant Register16(crc, message[i..]) == Register16(Invert16(Truncate16(seed)), message)
    {
      NextByte(message, i, 0, crc);
      crc := AddHigh16(crc, Truncate(input[i]));
      crc := EightSteps16(crc);
      i := i + 1;
    }
    RegisterDone(0, crc, message);
    result := crc;
  }

  // ---------------------------------------------------------------- what the kernels detect

  lemma Polynomials()
    ensures Bits(POLYNOMIAL_32)[31]
  {
    DoubleBits(POLYNOMIAL_32);
    assert Top(POLYNOMIAL_32);
  }

  lemma Polynomial16Nibbles()
    ensures Msb16(0x1021, 4) == [false, false, false, true] && Left16(0x1021, 4) == 0x0210
    ensures Msb16(0x0210, 4) == [false, false, false, false] && Left16(0x0210, 4) == 0x2100
    ensures Msb16(0x2100, 4) == [false, false, true, false] && Left16(0x2100, 4) == 0x1000
    ensures Msb16(0x1000, 4) == [false, false, false, true]
  {}

  lemma Polynomial16()
    ensures Msb16(POLYNOMIAL_16, 16) == [
      false, false, false, true, false, false, false, false,
      false, false, true, false, false, false, false, true]
  {
    Polynomial16Nibbles();
    hide Msb16, Left16;
    Msb16Add(0x1021, 4, 12);
    Msb16Add(0x0210, 4, 8);
    Msb16Add(0x2100, 4, 4);
  }

  // ---------------------------------------------------------------- the mirror machine

  lemma {:induction false} ReverseStepsAdd(source: u32, reversed: u32, m: nat, n: nat)
    ensures ReverseSteps(source, reversed, m + n) ==
            ReverseSteps(Right(source, m), ReverseSteps(source, reversed, m), n)
    decreases m
  {
    hide Odd, Half, ShiftIn;
    if m != 0 {
      ReverseStepsAdd(Half(source), ShiftIn(reversed, Odd(source)), m - 1, n);
    }
  }

  lemma MirrorQuarters()
    ensures Right(0xedb8_8320, 8) == 0xed_b883 && ReverseSteps(0xedb8_8320, 0, 8) == 0x04
    ensures Right(0xed_b883, 8) == 0xedb8 && ReverseSteps(0xed_b883, 0x04, 8) == 0x04c1
  {
    MirrorFirst();
    MirrorSecond();
  }

  lemma MirrorFirst()
    ensures Right(0xedb8_8320, 8) == 0xed_b883 && ReverseSteps(0xedb8_8320, 0, 8) == 0x04
  {
    assert ReverseSteps(0xedb8_8320, 0, 4) == 0 && Right(0xedb8_8320, 4) == 0xedb_8832;
    assert ReverseSteps(0xedb_8832, 0, 4) == 0x04 && Right(0xedb_8832, 4) == 0xed_b883;
    ReverseStepsAdd(0xedb8_8320, 0, 4, 4);
    RightAdd(0xedb8_8320, 4, 4);
  }

  lemma MirrorSecond()
    ensures Right(0xed_b883, 8) == 0xedb8 && ReverseSteps(0xed_b883, 0x04, 8) == 0x04c1
  {
    assert ReverseSteps(0xed_b883, 0x04, 4) == 0x4c && Right(0xed_b883, 4) == 0xe_db88;
    assert ReverseSteps(0xe_db88, 0x4c, 4) == 0x04c1 && Right(0xe_db88, 4) == 0xedb8;
    ReverseStepsAdd(0xed_b883, 0x04, 4, 4);
    RightAdd(0xed_b883, 4, 4);
  }

  lemma MirrorThird()
    ensures Right(0xedb8, 8) == 0xed && ReverseSteps(0xedb8, 0x04c1, 8) == 0x04_c11d
  {
    assert ReverseSteps(0xedb8, 0x04c1, 4) == 0x4c11 && Right(0xedb8, 4) == 0xedb;
    assert ReverseSteps(0xedb, 0x4c11, 4) == 0x04_c11d;
    ReverseStepsAdd(0xedb8, 0x04c1, 4, 4);
  }

  lemma MirrorLast()
    ensures ReverseSteps(0xed, 0x04_c11d, 8) == 0x04c1_1db7
  {
    assert ReverseSteps(0xed, 0x04_c11d, 4) == 0x4c_11db && Right(0xed, 4) == 0xe;
    assert ReverseSteps(0xe, 0x4c_11db, 4) == 0x04c1_1db7;
    ReverseStepsAdd(0xed, 0x04_c11d, 4, 4);
  }

  lemma PolynomialsMirror()
    ensures ReverseBits(POLYNOMIAL_32) == POLYNOMIAL_32_LEFT
  {
    MirrorQuarters();
    MirrorThird();
    MirrorLast();
    hide ReverseSteps, Right;
    ReverseStepsAdd(0xedb8_8320, 0, 8, 24);
    ReverseStepsAdd(0xed_b883, 0x04, 8, 16);
    ReverseStepsAdd(0xedb8, 0x04c1, 8, 8);
  }

  /** A byte with its bits reversed, by the corpus's own loop. */
  function ReverseByte(b: u8): u8 {
    TopByte(ReverseBits(LowByte(b)))
  }

  function ReverseBytes(message: seq<u8>): (s: seq<u8>)
    ensures |s| == |message|
    ensures forall i :: 0 <= i < |message| ==> s[i] == ReverseByte(message[i])
  {
    seq(|message|, i requires 0 <= i < |message| => ReverseByte(message[i]))
  }

  lemma LeftTwo(x: u32)
    ensures Left(x, 2) == x << 2
  {
    DoubleTwice(x);
    hide Double;
    assert Left(x, 2) == Double(Double(x));
  }

  lemma LeftFour(x: u32)
    ensures Left(x, 4) == x << 4
  {
    hide Left;
    var y, z := x << 2, x << 4;
    assert y << 2 == z;
    LeftTwo(x);
    LeftTwo(y);
    LeftAdd(x, 2, 2);
  }

  lemma LeftEight(x: u32)
    ensures Left(x, 8) == x << 8
  {
    hide Left;
    var y, z := x << 4, x << 8;
    assert y << 4 == z;
    LeftFour(x);
    LeftFour(y);
    LeftAdd(x, 4, 4);
  }

  lemma OnlyTopByte(y: u32)
    requires Msb(y, 32)[8..] == Zeros(24)
    ensures HighByte(TopByte(y)) == y
  {
    hide Left, Msb, HighByte, TopByte;
    MsbAdd(y, 8, 24);
    assert Msb(Left(y, 8), 24) == Msb(y, 32)[8..];
    ZeroWord(24);
    LeftAdd(y, 8, 24);
    Exhausted(y);
    LeftZero(24);
    MsbSplit(Left(y, 8), 0, 24);
    LeftEight(y);
    TopByteOnly(y);
  }

  lemma {:induction false} LeftZero(n: nat)
    ensures Left(0, n) == 0
  {
    if n != 0 {
      assert Double(0) == 0;
      LeftZero(n - 1);
    }
  }

  lemma MirrorByte(b: u8)
    ensures Msb(HighByte(ReverseByte(b)), 8) == Lsb(LowByte(b), 8)
  {
    hide Msb, Lsb, ReverseBits, LowByte, HighByte, TopByte;
    var x := LowByte(b);
    var y := ReverseBits(x);
    ReverseIsMsb(x);
    LowByteBits(b);
    assert Msb(y, 32)[8..] == Zeros(24);
    OnlyTopByte(y);
    MsbAdd(y, 8, 24);
    assert Msb(y, 8) == Msb(y, 32)[..8];
  }

  lemma {:induction false} BitsLowAt(message: seq<u8>, j: nat)
    requires j < |message|
    ensures BitsLow(message)[8 * j..8 * j + 8] == Lsb(LowByte(message[j]), 8)
  {
    hide Lsb, LowByte;
    if j > 0 {
      BitsLowAt(message[1..], j - 1);
      var rest := BitsLow(message[1..]);
      assert BitsLow(message) == Lsb(LowByte(message[0]), 8) + rest;
      assert BitsLow(message)[8 * j..8 * j + 8] == rest[8 * (j - 1)..8 * (j - 1) + 8];
    }
  }

  /** Bit reversal turns the right-shifting CRC-32 register into the left-shifting register of the
      CRC-16 kernel's shape, with the mirrored polynomial, on the mirrored bytes. */
  lemma Crc32Mirror(crc: u32, message: seq<u8>)
    ensures ReverseBits(Register32(crc, message)) ==
            RegisterLeft(POLYNOMIAL_32_LEFT, ReverseBits(crc), ReverseBytes(message))
  {
    hide ReverseBits, Msb, Lsb, BitsLow, Register32, RegisterLeft, HighByte, LowByte, ReverseByte, Lfsr.Feed;
    var bits := BitsLow(message);
    var mirrored := ReverseBytes(message);
    forall j | 0 <= j < |mirrored|
      ensures bits[8 * j..8 * j + 8] == Msb(HighByte(mirrored[j]), 8)
    {
      BitsLowAt(message, j);
      MirrorByte(message[j]);
    }
    PolynomialsMirror();
    ReverseIsMsb(POLYNOMIAL_32);
    ReverseIsMsb(crc);
    ReverseIsMsb(Register32(crc, message));
    Register32Is(crc, message);
    RegisterLeftIs(POLYNOMIAL_32_LEFT, ReverseBits(crc), mirrored, bits);
    BitsDetermine(ReverseBits(Register32(crc, message)),
                  RegisterLeft(POLYNOMIAL_32_LEFT, ReverseBits(crc), mirrored));
  }

  // ---------------------------------------------------------------- what the kernels tell apart

  lemma Crc32SeedInjective(seed: u32, other: u32, message: seq<u8>)
    requires Crc32(seed, message) == Crc32(other, message)
    ensures seed == other
  {
    hide Invert, Register32, Lsb, BitsLow, Lfsr.Feed;
    var a, b := Invert(seed), Invert(other);
    InvertInjective(Register32(a, message), Register32(b, message));
    Register32Is(a, message);
    Register32Is(b, message);
    Polynomials();
    Lfsr.FeedInjective(Bits(POLYNOMIAL_32), Bits(a), Bits(b), BitsLow(message));
    BitsDetermine(a, b);
    InvertInjective(seed, other);
  }

  /** The CRC-16 kernel sees only the low half of its seed, and all of it. */
  lemma Crc16SeedInjective(seed: u32, other: u32, message: seq<u8>)
    ensures Crc16(seed, message) == Crc16(other, message) <==> Truncate16(seed) == Truncate16(other)
  {
    hide Invert16, Truncate16, Register16, Msb16, BitsHigh, Lfsr.Feed;
    var a, b := Invert16(Truncate16(seed)), Invert16(Truncate16(other));
    if Register16(a, message) == Register16(b, message) {
      Register16Is(a, message);
      Register16Is(b, message);
      Polynomial16();
      Lfsr.FeedInjective(Msb16(POLYNOMIAL_16, 16), Msb16(a, 16), Msb16(b, 16), BitsHigh(message));
      BitsDetermine16(a, b);
      InvertInjective16(Truncate16(seed), Truncate16(other));
    }
  }

  /** `a` and `b` differ only inside `width` consecutive places that start at `start`. */
  predicate DifferWithin<T(==)>(a: seq<T>, b: seq<T>, start: nat, width: nat) {
    && |a| == |b|
    && forall i :: 0 <= i < |a| && !(start <= i < start + width) ==> a[i] == b[i]
  }

  lemma WindowDetected(p: seq<bool>, r: seq<bool>, a: seq<bool>, b: seq<bool>, start: nat)
    requires |p| == |r| > 0 && p[|p| - 1]
    requires DifferWithin(a, b, start, |p|) && a != b
    ensures Lfsr.Feed(p, r, a) != Lfsr.Feed(p, r, b)
  {
    var lo := if start < |a| then start else |a|;
    var hi := if start + |p| < |a| then start + |p| else |a|;
    assert a == a[..lo] + a[lo..hi] + a[hi..];
    assert b == b[..lo] + b[lo..hi] + b[hi..];
    assert a[..lo] == b[..lo] && a[hi..] == b[hi..];
    Lfsr.BurstDetected(p, r, a[..lo], a[lo..hi], b[lo..hi], a[hi..]);
  }

  /** Two messages of one length whose bits differ only inside 32 consecutive places, at any
      offset, never share a CRC-32. */
  lemma Crc32DetectsBursts(seed: u32, message: seq<u8>, other: seq<u8>, start: nat)
    requires |message| == |other|
    requires DifferWithin(BitsLow(message), BitsLow(other), start, 32)
    requires message != other
    ensures Crc32(seed, message) != Crc32(seed, other)
  {
    hide Invert, Register32, Lsb, BitsLow, Lfsr.Feed;
    var crc := Invert(seed);
    if BitsLow(message) == BitsLow(other) {
      BitsLowInjective(message, other);
    }
    Register32Is(crc, message);
    Register32Is(crc, other);
    Polynomials();
    WindowDetected(Bits(POLYNOMIAL_32), Bits(crc), BitsLow(message), BitsLow(other), start);
    InvertInjective(Register32(crc, message), Register32(crc, other));
  }

  lemma Crc16DetectsBursts(seed: u32, message: seq<u8>, other: seq<u8>, start: nat)
    requires |message| == |other|
    requires DifferWithin(BitsHigh(message), BitsHigh(other), start, 16)
    requires message != other
    ensures Crc16(seed, message) != Crc16(seed, other)
  {
    hide Invert16, Truncate16, Register16, Msb16, BitsHigh, Lfsr.Feed;
    var crc := Invert16(Truncate16(seed));
    if BitsHigh(message) == BitsHigh(other) {
      BitsHighInjective(message, other);
    }
    Register16Is(crc, message);
    Register16Is(crc, other);
    Polynomial16();
    WindowDetected(Msb16(POLYNOMIAL_16, 16), Msb16(crc, 16), BitsHigh(message), BitsHigh(other), start);
  }

  lemma {:induction false} BitsLowInjective(message: seq<u8>, other: seq<u8>)
    requires |message| == |other| && BitsLow(message) == BitsLow(other)
    ensures message == other
  {
    hide Lsb, LowByte;
    if message != [] {
      var a, b := Lsb(LowByte(message[0]), 8), Lsb(LowByte(other[0]), 8);
      assert a == BitsLow(message)[..8] && b == BitsLow(other)[..8];
      assert BitsLow(message[1..]) == BitsLow(message)[8..] && BitsLow(other[1..]) == BitsLow(other)[8..];
      LowByteBits(message[0]);
      LowByteBits(other[0]);
      assert a == b;
      BitsDetermine(LowByte(message[0]), LowByte(other[0]));
      BytePlacesInjective(message[0], other[0]);
      BitsLowInjective(message[1..], other[1..]);
      assert message == [message[0]] + message[1..] && other == [other[0]] + other[1..];
    }
  }

  lemma {:induction false} BitsHighInjective(message: seq<u8>, other: seq<u8>)
    requires |message| == |other| && BitsHigh(message) == BitsHigh(other)
    ensures message == other
  {
    hide Msb16, HighByte16;
    if message != [] {
      var a, b := Msb16(HighByte16(message[0]), 8), Msb16(HighByte16(other[0]), 8);
      assert a == BitsHigh(message)[..8] && b == BitsHigh(other)[..8];
      assert BitsHigh(message[1..]) == BitsHigh(message)[8..] && BitsHigh(other[1..]) == BitsHigh(other)[8..];
      HighByte16Bits(message[0]);
      HighByte16Bits(other[0]);
      assert a == b;
      BitsDetermine16(HighByte16(message[0]), HighByte16(other[0]));
      BytePlacesInjective(message[0], other[0]);
      BitsHighInjective(message[1..], other[1..]);
      assert message == [message[0]] + message[1..] && other == [other[0]] + other[1..];
    }
  }

  lemma {:induction false} BitsHighAt(message: seq<u8>, j: nat)
    requires j < |message|
    ensures BitsHigh(message)[8 * j..8 * j + 8] == Msb16(HighByte16(message[j]), 8)
  {
    hide Msb16, HighByte16;
    if j > 0 {
      BitsHighAt(message[1..], j - 1);
      var rest := BitsHigh(message[1..]);
      assert BitsHigh(message) == Msb16(HighByte16(message[0]), 8) + rest;
      assert BitsHigh(message)[8 * j..8 * j + 8] == rest[8 * (j - 1)..8 * (j - 1) + 8];
    }
  }

  /** A window of bytes is a window of bits. */
  lemma ByteWindow(message: seq<u8>, other: seq<u8>, start: nat, width: nat)
    requires DifferWithin(message, other, start, width)
    ensures DifferWithin(BitsLow(message), BitsLow(other), 8 * start, 8 * width)
    ensures DifferWithin(BitsHigh(message), BitsHigh(other), 8 * start, 8 * width)
  {
    hide Lsb, Msb16, LowByte, HighByte16, BitsLow, BitsHigh;
    forall i | 0 <= i < 8 * |message| && !(8 * start <= i < 8 * start + 8 * width)
      ensures BitsLow(message)[i] == BitsLow(other)[i]
      ensures BitsHigh(message)[i] == BitsHigh(other)[i]
    {
      var j, t := i / 8, i % 8;
      BitsLowAt(message, j);
      BitsLowAt(other, j);
      BitsHighAt(message, j);
      BitsHighAt(other, j);
      assert BitsLow(message)[i] == BitsLow(message)[8 * j..8 * j + 8][t];
      assert BitsLow(other)[i] == BitsLow(other)[8 * j..8 * j + 8][t];
      assert BitsHigh(message)[i] == BitsHigh(message)[8 * j..8 * j + 8][t];
      assert BitsHigh(other)[i] == BitsHigh(other)[8 * j..8 * j + 8][t];
    }
  }

  /** Damage confined to four consecutive bytes always changes the CRC-32. */
  lemma Crc32DetectsFourBytes(seed: u32, message: seq<u8>, other: seq<u8>, start: nat)
    requires DifferWithin(message, other, start, 4) && message != other
    ensures Crc32(seed, message) != Crc32(seed, other)
  {
    ByteWindow(message, other, start, 4);
    Crc32DetectsBursts(seed, message, other, 8 * start);
  }

  /** Damage confined to two consecutive bytes always changes the CRC-16. */
  lemma Crc16DetectsTwoBytes(seed: u32, message: seq<u8>, other: seq<u8>, start: nat)
    requires DifferWithin(message, other, start, 2) && message != other
    ensures Crc16(seed, message) != Crc16(seed, other)
  {
    ByteWindow(message, other, start, 2);
    Crc16DetectsBursts(seed, message, other, 8 * start);
  }

  /** The CRC-16 polynomial is divisible by x + 1, so the CRC carries the parity of the message:
      any odd number of bit errors is detected, wherever the errors are, and even between messages
      of different lengths. */
  lemma Crc16DetectsOddErrors(seed: u32, message: seq<u8>, other: seq<u8>)
    requires Lfsr.OddWeight(BitsHigh(message)) != Lfsr.OddWeight(BitsHigh(other))
    ensures Crc16(seed, message) != Crc16(seed, other)
  {
    hide Invert16, Truncate16, Register16, Msb16, BitsHigh, Lfsr.Feed;
    var crc := Invert16(Truncate16(seed));
    var p := Msb16(POLYNOMIAL_16, 16);
    Register16Is(crc, message);
    Register16Is(crc, other);
    Polynomial16Odd();
    Lfsr.FeedParity(p, Msb16(crc, 16), BitsHigh(message));
    Lfsr.FeedParity(p, Msb16(crc, 16), BitsHigh(other));
  }

  lemma Polynomial16Odd()
    ensures Lfsr.OddWeight(Msb16(POLYNOMIAL_16, 16))
  {
    hide Msb16;
    Polynomial16();
    var a, b := [false, false, false, true, false, false, false, false],
                [false, false, true, false, false, false, false, true];
    assert Weight(a) == 1 && Weight(b) == 2;
    assert Msb16(POLYNOMIAL_16, 16) == a + b;
    WeightConcat(a, b);
  }

  // ---------------------------------------------------------------- residues

  lemma ClearByte(z: u32)
    requires z & 0xf == 0 && (z >> 4) & 0xf == 0
    ensures Lsb(z, 8) == Zeros(8)
  {
    hide Lsb;
    var y := z >> 4;
    EvenNibble(z, y, 8);
    EvenNibble(y, y >> 4, 4);
    EmptyLsb(y >> 4);
    assert Zeros(4) + (Zeros(4) + []) == Zeros(8);
  }

  lemma LowByteOfBits(x: u32)
    ensures Lsb(LowByte(Truncate(x)), 8) == Lsb(x, 8)
  {
    var y, z := LowByte(Truncate(x)), ClearLow8(x);
    ByteSplits(x);
    ClearByte(z);
    hide IsXor, LowByte, Truncate, ClearLow8, Lsb;
    LsbXor(y, z, x, 8);
  }

  lemma EmptyLsb(x: u32)
    ensures Lsb(x, 0) == []
  {}

  /** The bytes of a word, low byte first. */
  function LittleEndian(x: u32): (s: seq<u8>)
    ensures |s| == 4
  {
    var x1 := DropByte(x);
    var x2 := DropByte(x1);
    [Truncate(x), Truncate(x1), Truncate(x2), Truncate(DropByte(x2))]
  }

  lemma LittleEndianBits(x: u32)
    ensures BitsLow(LittleEndian(x)) == Bits(x)
  {
    hide Lsb, LowByte, Truncate, DropByte;
    var x1 := DropByte(x);
    var x2 := DropByte(x1);
    var x3 := DropByte(x2);
    PeelByte(x, 32);
    PeelByte(x1, 24);
    PeelByte(x2, 16);
    PeelByte(x3, 8);
    EmptyLsb(DropByte(x3));
    FourBytes(Truncate(x), Truncate(x1), Truncate(x2), Truncate(x3));
  }

  lemma PeelByte(x: u32, n: nat)
    requires n >= 8
    ensures Lsb(x, n) == Lsb(LowByte(Truncate(x)), 8) + Lsb(DropByte(x), n - 8)
  {
    hide Lsb, Right, LowByte, Truncate;
    LsbAdd(x, 8, n - 8);
    RightEight(x);
    LowByteOfBits(x);
  }

  lemma FourBytes(a: u8, b: u8, c: u8, d: u8)
    ensures BitsLow([a, b, c, d]) ==
            Lsb(LowByte(a), 8) + (Lsb(LowByte(b), 8) + (Lsb(LowByte(c), 8) + (Lsb(LowByte(d), 8) + [])))
  {
    hide Lsb, LowByte;
    assert [a, b, c, d][1..] == [b, c, d];
    assert [b, c, d][1..] == [c, d];
    assert [c, d][1..] == [d];
    assert [d][1..] == [];
    assert BitsLow([d]) == Lsb(LowByte(d), 8) + [];
    assert BitsLow([c, d]) == Lsb(LowByte(c), 8) + BitsLow([d]);
    assert BitsLow([b, c, d]) == Lsb(LowByte(b), 8) + BitsLow([c, d]);
  }

  lemma OnesNibble(x: u32, y: u32, n: nat)
    requires x & 0xf == 0xf && y == x >> 4 && n >= 4
    ensures Lsb(x, n) == Complement(Zeros(4)) + Lsb(y, n - 4)
  {
    OddQuad(x);
    RightFour(x);
    LsbAdd(x, 4, n - 4);
    OddLsb(x);
  }

  lemma OddLsb(x: u32)
    requires Odd(x) && Odd(Half(x)) && Odd(Half(Half(x))) && Odd(Half(Half(Half(x))))
    ensures Lsb(x, 4) == Complement(Zeros(4))
  {
    hide Odd, Half;
    assert Lsb(x, 4) == [true] + Lsb(Half(x), 3);
    assert Lsb(Half(x), 3) == [true] + Lsb(Half(Half(x)), 2);
    assert Lsb(Half(Half(x)), 2) == [true, true];
  }

  lemma AllOnesBits()
    ensures Bits(0xffff_ffff) == Complement(Zeros(32))
  {
    hide Lsb;
    OnesNibble(0xffff_ffff, 0xfff_ffff, 32);
    OnesNibble(0xfff_ffff, 0xff_ffff, 28);
    OnesNibble(0xff_ffff, 0xf_ffff, 24);
    OnesNibble(0xf_ffff, 0xffff, 20);
    OnesNibble(0xffff, 0xfff, 16);
    OnesNibble(0xfff, 0xff, 12);
    OnesNibble(0xff, 0xf, 8);
    OnesNibble(0xf, 0, 4);
    EmptyLsb(0);
  }

  lemma {:induction false} Steps32Add(crc: u32, m: nat, n: nat)
    ensures Steps32(crc, m + n) == Steps32(Steps32(crc, m), n)
    decreases m
  {
    hide Crc32Step;
    if m != 0 {
      Steps32Add(Crc32Step(crc), m - 1, n);
    }
  }

  lemma ResidueSteps()
    ensures Steps32(0xffff_ffff, 32) == 0xdebb_20e3
  {
    assert Steps32(0xffff_ffff, 8) == 0x2dfd_1072;
    assert Steps32(0x2dfd_1072, 8) == 0xbe26_ed00;
    assert Steps32(0xbe26_ed00, 8) == 0x00be_26ed;
    assert Steps32(0x00be_26ed, 8) == 0xdebb_20e3;
    Steps32Add(0xffff_ffff, 8, 24);
    Steps32Add(0x2dfd_1072, 8, 16);
    Steps32Add(0xbe26_ed00, 8, 8);
  }

  lemma InvertBits(x: u32)
    ensures Bits(Invert(x)) == Complement(Bits(x))
  {
    var ones: u32 := 0xffff_ffff;
    XorBits(x, ones, Invert(x));
    hide Invert, Lsb;
    AllOnesBits();
  }

  /** Appending the returned CRC-32, low byte first, leaves every register at one fixed residue. */
  lemma Crc32Residue(seed: u32, message: seq<u8>)
    ensures Register32(Invert(seed), message + LittleEndian(Crc32(seed, message))) == 0xdebb_20e3
  {
    var crc, p := Register32(Invert(seed), message), Bits(POLYNOMIAL_32);
    var tail := LittleEndian(Crc32(seed, message));
    hide Invert, Register32, Steps32, Lsb, BitsLow, LittleEndian, Lfsr.Feed, Lfsr.Steps;
    Register32Concat(Invert(seed), message, tail);
    LittleEndianBits(Invert(crc));
    InvertBits(crc);
    Register32Is(crc, tail);
    Lfsr.FeedComplement(p, Bits(crc));
    AllOnesBits();
    Steps32Is(0xffff_ffff, 32);
    ResidueSteps();
    BitsDetermine(Register32(crc, tail), 0xdebb_20e3);
  }

  lemma {:induction false} Register32Concat(crc: u32, a: seq<u8>, b: seq<u8>)
    ensures Register32(crc, a + b) == Register32(Register32(crc, a), b)
    decreases |a|
  {
    hide Steps32, AddLow;
    if a == [] {
      assert a + b == b;
    } else {
      assert (a + b)[1..] == a[1..] + b;
      Register32Concat(Steps32(AddLow(crc, a[0]), 8), a[1..], b);
    }
  }

  lemma {:induction false} Register16Concat(crc: u16, a: seq<u8>, b: seq<u8>)
    ensures Register16(crc, a + b) == Register16(Register16(crc, a), b)
    decreases |a|
  {
    hide Steps16, AddHigh16;
    if a == [] {
      assert a + b == b;
    } else {
      assert (a + b)[1..] == a[1..] + b;
      Register16Concat(Steps16(AddHigh16(crc, a[0]), 8), a[1..], b);
    }
  }

  lemma EightSteps(x: u16)
    requires x & 0xff00 == 0
    ensures Steps16(x, 8) == x << 8 && Steps16(0, 8) == 0
  {
    EightZeroSteps(x);
    hide Crc16Step;
    assert Steps16(x, 8) == Steps16(x << 2, 6) == Steps16(x << 4, 4) == Steps16(x << 6, 2);
    assert Steps16(0, 8) == Steps16(0, 4);
  }

  /** Appending the CRC-16, high byte first, clears every register. */
  lemma Crc16Residue(seed: u32, message: seq<u8>)
    ensures var crc := Crc16(seed, message);
      Register16(Invert16(Truncate16(seed)), message + [High8(crc), Low8(crc)]) == 0
  {
    var crc := Crc16(seed, message);
    var tail := [High8(crc), Low8(crc)];
    var low := crc & 0xff;
    LowHalf(crc);
    HighHalfCancels(crc);
    hide Invert16, Truncate16, Steps16, AddHigh16, High8, Low8;
    Register16Concat(Invert16(Truncate16(seed)), message, tail);
    EightSteps(low);
    assert Register16(crc, tail) == Register16(Steps16(low, 8), [Low8(crc)]) by {
      assert tail[1..] == [Low8(crc)];
    }
    assert Register16(low << 8, [Low8(crc)]) == Register16(Steps16(0, 8), []);
  }

  // ---------------------------------------------------------------- linearity

  function XorBytes(a: seq<u8>, b: seq<u8>): (c: seq<u8>)
    requires |a| == |b|
    ensures |c| == |a|
  {
    seq(|a|, i requires 0 <= i < |a| => AddBytes(a[i], b[i]))
  }

  lemma {:induction false} BitsLowXor(a: seq<u8>, b: seq<u8>)
    requires |a| == |b|
    ensures BitsLow(XorBytes(a, b)) == Xor(BitsLow(a), BitsLow(b))
  {
    hide Lsb, LowByte, AddBytes, IsXor;
    if a != [] {
      var c := XorBytes(a, b);
      assert c[1..] == XorBytes(a[1..], b[1..]);
      BitsLowXor(a[1..], b[1..]);
      AddBytesIsXor(a[0], b[0]);
      LsbXor(LowByte(a[0]), LowByte(b[0]), LowByte(c[0]), 8);
      hide XorBytes;
      XorJoins(Lsb(LowByte(a[0]), 8), BitsLow(a[1..]), Lsb(LowByte(b[0]), 8), BitsLow(b[1..]));
    }
  }

  lemma XorJoins(a: seq<bool>, s: seq<bool>, b: seq<bool>, t: seq<bool>)
    requires |a| == |b| && |s| == |t|
    ensures Xor(a + s, b + t) == Xor(a, b) + Xor(s, t)
  {
  }

  /** The CRC-32 register is linear over GF(2) in seed and message together. */
  lemma Register32Linear(x: u32, y: u32, a: seq<u8>, b: seq<u8>)
    requires |a| == |b|
    ensures Register32(x ^ y, XorBytes(a, b)) == Register32(x, a) ^ Register32(y, b)
  {
    hide Register32, Lsb, BitsLow, XorBytes, Lfsr.Feed;
    var z := x ^ y;
    var left, right := Register32(x, a), Register32(y, b);
    var sum := left ^ right;
    XorBits(x, y, z);
    XorBits(left, right, sum);
    BitsLowXor(a, b);
    Register32Is(x, a);
    Register32Is(y, b);
    Register32Is(z, XorBytes(a, b));
    Lfsr.FeedLinear(Bits(POLYNOMIAL_32), Bits(x), Bits(y), BitsLow(a), BitsLow(b));
    BitsDetermine(Register32(z, XorBytes(a, b)), sum);
  }
}
