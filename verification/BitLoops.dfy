/** The bit-twiddling loops of the corpus: reversal, population count, and the Gray cascade. */
module BitLoops {
  import opened WordOps
  import opened Words
  import opened Numbers
  import opened Unsigned
  import opened Rotations

  // ---------------------------------------------------------------- reversal

  /** `n` turns of the reversal loop. */
  function ReverseSteps(source: u32, reversed: u32, n: nat): u32
    decreases n
  {
    if n == 0 then reversed else ReverseSteps(Half(source), ShiftIn(reversed, Odd(source)), n - 1)
  }

  function ReverseBits(x: u32): u32 {
    ReverseSteps(x, 0, 32)
  }

  lemma ZeroNibble(x: u32, y: u32, n: nat)
    requires x & 0xf000_0000 == 0 && y == x << 4 && n >= 4
    ensures Msb(x, n) == Zeros(4) + Msb(y, n - 4)
  {
    var two := x << 2;
    ZeroPair(x, two, n);
    assert two & 0xc000_0000 == 0 && y == two << 2;
    ZeroPair(two, y, n - 2);
    assert Zeros(2) + Zeros(2) == Zeros(4);
  }

  lemma ZeroPair(x: u32, y: u32, n: nat)
    requires x & 0xc000_0000 == 0 && y == x << 2 && n >= 2
    ensures Msb(x, n) == Zeros(2) + Msb(y, n - 2)
  {
    ZeroPairs(x);
    assert Zeros(2) == [false, false];
  }

  lemma LastTwo()
    ensures Msb(0x4000_0000, 2) == [false, true]
  {
    LastPair();
    hide Top, Double;
    assert Msb(0x4000_0000, 2) == [false] + Msb(0x8000_0000, 1);
  }

  lemma LastBit()
    ensures Msb(1, 32) == Zeros(31) + [true]
  {
    hide Msb;
    ZeroNibble(1, 0x10, 32);
    ZeroNibble(0x10, 0x100, 28);
    ZeroNibble(0x100, 0x1000, 24);
    ZeroNibble(0x1000, 0x1_0000, 20);
    ZeroNibble(0x1_0000, 0x10_0000, 16);
    ZeroNibble(0x10_0000, 0x100_0000, 12);
    ZeroNibble(0x100_0000, 0x1000_0000, 8);
    ZeroPair(0x1000_0000, 0x4000_0000, 4);
    LastTwo();
  }

  lemma ShiftInLeft(x: u32, bit: bool)
    ensures Msb(ShiftIn(x, bit), 32) == Msb(x, 32)[1..] + [bit]
  {
    hide Double, ShiftIn, IsXor, Msb;
    var last: u32 := if bit then 1 else 0;
    ShiftInIsXor(x, bit);
    MsbXor(Double(x), last, ShiftIn(x, bit), 32);
    ShiftLeft(x);
    assert Msb(last, 32) == Zeros(31) + [bit] by {
      LastBit();
      ZeroWord(32);
      assert Zeros(32) == Zeros(31) + [false];
    }
  }

  /** After `n` turns the `n` low bits of the source, in order, have entered from the right. */
  lemma {:induction false} ReverseStepsBits(source: u32, reversed: u32, n: nat)
    requires n <= 32
    ensures Msb(ReverseSteps(source, reversed, n), 32) == Msb(reversed, 32)[n..] + Lsb(source, n)
    decreases n
  {
    hide Odd, Half, ShiftIn, Msb;
    if n != 0 {
      ShiftInLeft(reversed, Odd(source));
      ReverseStepsBits(Half(source), ShiftIn(reversed, Odd(source)), n - 1);
      var was := Msb(reversed, 32);
      assert (was[1..] + [Odd(source)])[n - 1..] == was[n..] + [Odd(source)];
      assert Lsb(source, n) == [Odd(source)] + Lsb(Half(source), n - 1);
    }
  }

  lemma ReverseIsMsb(x: u32)
    ensures Msb(ReverseBits(x), 32) == Lsb(x, 32)
  {
    ReverseStepsBits(x, 0, 32);
  }

  /** The reversal maps bit i to bit 31 - i. */
  lemma ReverseMapsBits(x: u32)
    ensures Bits(ReverseBits(x)) == Reversed(Bits(x))
  {
    var y := ReverseBits(x);
    ReverseIsMsb(x);
    MsbReversesLsb(y);
    var b := Bits(y);
    assert Reversed(b) == Bits(x);
    assert b == Reversed(Reversed(b));
  }

  lemma ReverseInvolution(x: u32)
    ensures ReverseBits(ReverseBits(x)) == x
  {
    var y := ReverseBits(x);
    ReverseMapsBits(x);
    ReverseMapsBits(y);
    assert Reversed(Reversed(Bits(x))) == Bits(x);
    BitsDetermine(ReverseBits(y), x);
  }

  lemma TurnPrinted(source: u32, reversed: u32)
    ensures Shl(reversed, 1) | (source & 1) == (reversed << 1) | (source & 1) && Shr(source, 1) == source >> 1
  {}

  /** The corpus's reversal loop. */
  method ReverseLoop(x: u32) returns (reversed: u32)
    ensures reversed == ReverseBits(x)
    ensures Bits(reversed) == Reversed(Bits(x))
  {
    var source: u32 := x;
    reversed := 0;
    var i := 0;
    while i < 32
      invariant 0 <= i <= 32
      invariant ReverseSteps(source, reversed, 32 - i) == ReverseBits(x)
    {
      TurnOfReversal(source, reversed);
      TurnPrinted(source, reversed);
      reversed := Shl(reversed, 1) | (source & 1);
      source := Shr(source, 1);
      i := i + 1;
    }
    ReverseMapsBits(x);
  }

  // ---------------------------------------------------------------- population count

  function PopCount(x: u32): nat {
    Weight(Bits(x))
  }

  lemma {:induction false} ClearLowestDropsOne(x: u32, n: nat)
    requires Weight(Lsb(x, n)) > 0
    ensures Weight(Lsb(x, n)) == Weight(Lsb(ClearLowest(x), n)) + 1
    decreases n
  {
    hide Odd, Half, ClearLowest;
    if n != 0 {
      var y := ClearLowest(x);
      if Odd(x) {
        ClearLowestOdd(x);
      } else {
        ClearLowestEven(x);
        ClearLowestDropsOne(Half(x), n - 1);
      }
    }
  }

  lemma {:induction false} WeightZero(s: seq<bool>)
    ensures Weight(s) == 0 <==> s == Zeros(|s|)
  {
    if s != [] {
      WeightZero(s[1..]);
      assert Zeros(|s|)[1..] == Zeros(|s| - 1);
      if s[1..] == Zeros(|s| - 1) && !s[0] {
        assert s == [s[0]] + s[1..] == Zeros(|s|);
      }
    }
  }

  lemma PopCountZero(x: u32)
    ensures PopCount(x) == 0 <==> x == 0
  {
    WeightZero(Bits(x));
    ZeroWord(32);
    if PopCount(x) == 0 {
      BitsDetermine(x, 0);
    }
  }

  lemma PopCountBound(x: u32)
    ensures PopCount(x) <= 32
  {
    WeightBound(Bits(x));
  }

  lemma PopCountTurn(x: u32)
    requires x != 0
    ensures PopCount(x) == PopCount(ClearLowest(x)) + 1
  {
    PopCountZero(x);
    ClearLowestDropsOne(x, 32);
  }

  /** The corpus's population count: it makes one turn per one bit and counts the turns. */
  method PopCountLoop(x: u32) returns (count: u32, turns: nat)
    ensures turns == PopCount(x) <= 32 && count == Word(turns)
  {
    hide PopCount, Word, Nat;
    PopCountBound(x);
    var bits: u32 := x;
    count, turns := Word(0), 0;
    while bits != 0
      invariant PopCount(bits) + turns == PopCount(x)
      invariant turns <= PopCount(x) <= 32 && count == Word(turns)
      decreases PopCount(bits)
    {
      PopCountTurn(bits);
      bits := bits & (bits - 1);
      NatWord(turns);
      NatWord(1);
      count, turns := Add(count, Word(1)), turns + 1;
    }
    PopCountZero(bits);
  }

  lemma ReverseKeepsPopCount(x: u32)
    ensures PopCount(ReverseBits(x)) == PopCount(x)
  {
    ReverseMapsBits(x);
    WeightReversed(Bits(x));
  }

  // ---------------------------------------------------------------- Gray code, at any width

  /** Adds to each bit the bit `k` places above it: `x ^ (x >> k)` on a vector of any width. */
  function XorAbove(s: seq<bool>, k: nat): (t: seq<bool>)
    ensures |t| == |s|
    ensures forall i :: 0 <= i < |s| ==> t[i] == (s[i] != (i + k < |s| && s[i + k]))
  {
    seq(|s|, i requires 0 <= i < |s| => s[i] != (i + k < |s| && s[i + k]))
  }

  function GrayEncode(s: seq<bool>): (t: seq<bool>)
    ensures |t| == |s|
  {
    XorAbove(s, 1)
  }

  /** The decoding cascade: `rounds` additions at doubling distances. */
  function Cascade(s: seq<bool>, k: nat, rounds: nat): (t: seq<bool>)
    ensures |t| == |s|
    decreases rounds
  {
    if rounds == 0 then s else Cascade(XorAbove(s, k), 2 * k, rounds - 1)
  }

  lemma Telescope(s: seq<bool>, k: nat)
    ensures XorAbove(XorAbove(s, k), k) == XorAbove(s, 2 * k)
  {}

  lemma DoublePow2(k: nat, rounds: nat)
    requires rounds > 0
    ensures k * Pow2(rounds) == 2 * k * Pow2(rounds - 1)
  {}

  lemma {:induction false} CascadeTelescopes(s: seq<bool>, k: nat, rounds: nat)
    ensures Cascade(XorAbove(s, k), k, rounds) == XorAbove(s, k * Pow2(rounds))
    decreases rounds
  {
    if rounds != 0 {
      Telescope(s, k);
      CascadeTelescopes(s, 2 * k, rounds - 1);
      DoublePow2(k, rounds);
    }
  }

  lemma NothingAbove(s: seq<bool>, k: nat)
    requires |s| <= k
    ensures XorAbove(s, k) == s
  {}

  /** At every width up to 2 to the number of rounds, the cascade inverts the Gray encoding. */
  lemma GrayRoundTrip(s: seq<bool>, rounds: nat)
    requires |s| <= Pow2(rounds)
    ensures Cascade(GrayEncode(s), 1, rounds) == s
  {
    hide Cascade, XorAbove, Pow2;
    CascadeTelescopes(s, 1, rounds);
    NothingAbove(s, Pow2(rounds));
  }

  // The 32-bit instance: `x ^ (x >> k)` for the five distances of the corpus's cascade.

  lemma RightTwo(x: u32)
    ensures Right(x, 2) == x >> 2
  {
    EvenPairs(x);
    hide Half;
    assert Right(x, 2) == Half(Half(x));
  }

  lemma RightFour(x: u32)
    ensures Right(x, 4) == x >> 4
  {
    hide Right;
    var y, z := x >> 2, x >> 4;
    assert y >> 2 == z;
    RightTwo(x);
    RightTwo(y);
    RightAdd(x, 2, 2);
  }

  lemma RightEight(x: u32)
    ensures Right(x, 8) == x >> 8
  {
    hide Right;
    var y, z := x >> 4, x >> 8;
    assert y >> 4 == z;
    RightFour(x);
    RightFour(y);
    RightAdd(x, 4, 4);
  }

  lemma RightSixteen(x: u32)
    ensures Right(x, 16) == x >> 16
  {
    hide Right;
    var y, z := x >> 8, x >> 16;
    assert y >> 8 == z;
    RightEight(x);
    RightEight(y);
    RightAdd(x, 8, 8);
  }

  lemma RightBits(x: u32, k: nat)
    requires k <= 32
    ensures Bits(Right(x, k)) == Bits(x)[k..] + Zeros(k)
  {
    hide Right, Lsb;
    LsbAdd(x, k, 32);
    LsbAdd(x, 32, k);
    Exhausted(x);
    ZeroWord(k);
    assert Bits(Right(x, k)) == (Lsb(x, k) + Lsb(Right(x, k), 32))[k..];
    assert Lsb(x, k) + Lsb(Right(x, k), 32) == Bits(x) + Zeros(k);
  }

  lemma XorShiftBits(x: u32, shifted: u32, z: u32, k: nat)
    requires k <= 32 && shifted == Right(x, k) && IsXor(x, shifted, z)
    ensures Bits(z) == XorAbove(Bits(x), k)
  {
    hide Right, Lsb, IsXor;
    RightBits(x, k);
    LsbXor(x, shifted, z, 32);
  }

  /** The Gray form of the corpus, encoding and cascade. */
  function GrayCascade(x: u32): u32 {
    Ripple16(Ripple8(Ripple4(Ripple2(Ripple1(Ripple1(x))))))
  }

  lemma RippleBits(x: u32)
    ensures Bits(Ripple1(x)) == XorAbove(Bits(x), 1)
    ensures Bits(Ripple2(x)) == XorAbove(Bits(x), 2)
    ensures Bits(Ripple4(x)) == XorAbove(Bits(x), 4)
    ensures Bits(Ripple8(x)) == XorAbove(Bits(x), 8)
    ensures Bits(Ripple16(x)) == XorAbove(Bits(x), 16)
  {
    hide Bits, XorAbove;
    assert Right(x, 1) == x >> 1;
    RightTwo(x);
    RightFour(x);
    RightEight(x);
    RightSixteen(x);
    hide Right;
    XorShiftBits(x, x >> 1, Ripple1(x), 1);
    XorShiftBits(x, x >> 2, Ripple2(x), 2);
    XorShiftBits(x, x >> 4, Ripple4(x), 4);
    XorShiftBits(x, x >> 8, Ripple8(x), 8);
    XorShiftBits(x, x >> 16, Ripple16(x), 16);
  }

  lemma FiveRounds(s: seq<bool>)
    ensures Cascade(s, 1, 5) ==
            XorAbove(XorAbove(XorAbove(XorAbove(XorAbove(s, 1), 2), 4), 8), 16)
  {
    assert Cascade(s, 1, 5) == Cascade(XorAbove(XorAbove(s, 1), 2), 4, 3);
  }

  /** The 32-bit cascade is the five-round instance and therefore the identity. */
  lemma GrayCascadeIdentity(x: u32)
    ensures Bits(GrayCascade(x)) == Cascade(GrayEncode(Bits(x)), 1, 5)
    ensures GrayCascade(x) == x
  {
    hide Bits, XorAbove, Cascade, Ripple1, Ripple2, Ripple4, Ripple8, Ripple16;
    var gray0 := Ripple1(x);
    var gray1 := Ripple1(gray0);
    var gray2 := Ripple2(gray1);
    var gray4 := Ripple4(gray2);
    var gray8 := Ripple8(gray4);
    RippleBits(x);
    RippleBits(gray0);
    RippleBits(gray1);
    RippleBits(gray2);
    RippleBits(gray4);
    RippleBits(gray8);
    FiveRounds(GrayEncode(Bits(x)));
    assert |Bits(x)| <= Pow2(5) by {
      assert Pow2(5) == 32;
    }
    GrayRoundTrip(Bits(x), 5);
    SameBits(GrayCascade(x), x);
  }

  lemma SameBits(x: u32, y: u32)
    requires Bits(x) == Bits(y)
    ensures x == y
  {
    BitsDetermine(x, y);
  }
}
