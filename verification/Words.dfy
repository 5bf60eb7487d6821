/** Fixed-width words as vectors over GF(2).
    The corpus computes on C's `u32`, `u16` and `u8`; every law about shifts, reversals and
    polynomial registers is stated on the vector of bits that a word stands for. */
module Words {
  import opened WordOps

  // ---------------------------------------------------------------- bit vectors of any length

  function Xor(a: seq<bool>, b: seq<bool>): (c: seq<bool>)
    requires |a| == |b|
    ensures |c| == |a|
    ensures forall i :: 0 <= i < |a| ==> c[i] == (a[i] != b[i])
  {
    seq(|a|, i requires 0 <= i < |a| => a[i] != b[i])
  }

  function Zeros(n: nat): (z: seq<bool>)
    ensures |z| == n && forall i :: 0 <= i < n ==> !z[i]
  {
    seq(n, i => false)
  }

  function Complement(a: seq<bool>): (c: seq<bool>)
    ensures |c| == |a| && forall i :: 0 <= i < |a| ==> c[i] == !a[i]
  {
    seq(|a|, i requires 0 <= i < |a| => !a[i])
  }

  function Reversed<T>(s: seq<T>): (r: seq<T>)
    ensures |r| == |s|
    ensures forall i :: 0 <= i < |s| ==> r[i] == s[|s| - 1 - i]
  {
    seq(|s|, i requires 0 <= i < |s| => s[|s| - 1 - i])
  }

  /** The number of one bits. */
  function Weight(s: seq<bool>): nat {
    if s == [] then 0 else (if s[0] then 1 else 0) + Weight(s[1..])
  }

  lemma {:induction false} WeightConcat(a: seq<bool>, b: seq<bool>)
    ensures Weight(a + b) == Weight(a) + Weight(b)
  {
    if a == [] {
      assert a + b == b;
    } else {
      WeightConcat(a[1..], b);
      assert (a + b)[1..] == a[1..] + b;
    }
  }

  lemma {:induction false} WeightBound(s: seq<bool>)
    ensures Weight(s) <= |s|
  {
    if s != [] {
      WeightBound(s[1..]);
    }
  }

  lemma {:induction false} WeightReversed(s: seq<bool>)
    ensures Weight(Reversed(s)) == Weight(s)
  {
    if s != [] {
      WeightReversed(s[1..]);
      assert Reversed(s) == Reversed(s[1..]) + [s[0]];
      WeightConcat(Reversed(s[1..]), [s[0]]);
    }
  }

  // ---------------------------------------------------------------- words to bit vectors

  /** The `n` low bits of a word, bit 0 first: the order in which a right shift releases them. */
  function Lsb(x: u32, n: nat): (s: seq<bool>)
    ensures |s| == n
    decreases n
  {
    if n == 0 then [] else [Odd(x)] + Lsb(Half(x), n - 1)
  }

  /** The `n` high bits of a word, bit 31 first: the order in which a left shift releases them. */
  function Msb(x: u32, n: nat): (s: seq<bool>)
    ensures |s| == n
    decreases n
  {
    if n == 0 then [] else [Top(x)] + Msb(Double(x), n - 1)
  }

  /** The `n` high bits of a halfword, bit 15 first. */
  function Msb16(x: u16, n: nat): (s: seq<bool>)
    ensures |s| == n
    decreases n
  {
    if n == 0 then [] else [Top16(x)] + Msb16(Double16(x), n - 1)
  }

  /** A word's bits, bit 0 first. */
  function Bits(x: u32): (s: seq<bool>)
    ensures |s| == 32
  {
    Lsb(x, 32)
  }

  // ---------------------------------------------------------------- exclusive or

  lemma XorCons(a: bool, s: seq<bool>, b: bool, t: seq<bool>)
    requires |s| == |t|
    ensures Xor([a] + s, [b] + t) == [a != b] + Xor(s, t)
  {}

  lemma {:induction false} LsbXor(x: u32, y: u32, z: u32, n: nat)
    requires IsXor(x, y, z)
    ensures Lsb(z, n) == Xor(Lsb(x, n), Lsb(y, n))
    decreases n
  {
    hide IsXor, Odd, Half;
    if n != 0 {
      XorRight(x, y, z);
      LsbXor(Half(x), Half(y), Half(z), n - 1);
      XorCons(Odd(x), Lsb(Half(x), n - 1), Odd(y), Lsb(Half(y), n - 1));
    }
  }

  lemma {:induction false} MsbXor(x: u32, y: u32, z: u32, n: nat)
    requires IsXor(x, y, z)
    ensures Msb(z, n) == Xor(Msb(x, n), Msb(y, n))
    decreases n
  {
    hide IsXor, Top, Double;
    if n != 0 {
      XorLeft(x, y, z);
      MsbXor(Double(x), Double(y), Double(z), n - 1);
      XorCons(Top(x), Msb(Double(x), n - 1), Top(y), Msb(Double(y), n - 1));
    }
  }

  lemma {:induction false} Msb16Xor(x: u16, y: u16, z: u16, n: nat)
    requires IsXor16(x, y, z)
    ensures Msb16(z, n) == Xor(Msb16(x, n), Msb16(y, n))
    decreases n
  {
    hide IsXor16, Top16, Double16;
    if n != 0 {
      XorLeft16(x, y, z);
      Msb16Xor(Double16(x), Double16(y), Double16(z), n - 1);
      XorCons(Top16(x), Msb16(Double16(x), n - 1), Top16(y), Msb16(Double16(y), n - 1));
    }
  }

  // ---------------------------------------------------------------- the bits determine the word

  /** What `n` shifts leave of a word. */
  function Right(x: u32, n: nat): u32 decreases n { if n == 0 then x else Right(Half(x), n - 1) }

  function Left(x: u32, n: nat): u32 decreases n { if n == 0 then x else Left(Double(x), n - 1) }

  function Left16(x: u16, n: nat): u16 decreases n { if n == 0 then x else Left16(Double16(x), n - 1) }

  lemma {:induction false} LsbSplit(x: u32, y: u32, n: nat)
    requires Lsb(x, n) == Lsb(y, n) && Right(x, n) == Right(y, n)
    ensures x == y
    decreases n
  {
    hide Odd, Half;
    if n != 0 {
      assert Lsb(x, n)[0] == Odd(x) && Lsb(x, n)[1..] == Lsb(Half(x), n - 1);
      assert Lsb(y, n)[0] == Odd(y) && Lsb(y, n)[1..] == Lsb(Half(y), n - 1);
      LsbSplit(Half(x), Half(y), n - 1);
      SplitRight(x, y);
    }
  }

  lemma {:induction false} MsbSplit(x: u32, y: u32, n: nat)
    requires Msb(x, n) == Msb(y, n) && Left(x, n) == Left(y, n)
    ensures x == y
    decreases n
  {
    hide Top, Double;
    if n != 0 {
      assert Msb(x, n)[0] == Top(x) && Msb(x, n)[1..] == Msb(Double(x), n - 1);
      assert Msb(y, n)[0] == Top(y) && Msb(y, n)[1..] == Msb(Double(y), n - 1);
      MsbSplit(Double(x), Double(y), n - 1);
      SplitLeft(x, y);
    }
  }

  lemma {:induction false} Msb16Split(x: u16, y: u16, n: nat)
    requires Msb16(x, n) == Msb16(y, n) && Left16(x, n) == Left16(y, n)
    ensures x == y
    decreases n
  {
    hide Top16, Double16;
    if n != 0 {
      assert Msb16(x, n)[0] == Top16(x) && Msb16(x, n)[1..] == Msb16(Double16(x), n - 1);
      assert Msb16(y, n)[0] == Top16(y) && Msb16(y, n)[1..] == Msb16(Double16(y), n - 1);
      Msb16Split(Double16(x), Double16(y), n - 1);
      SplitLeft16(x, y);
    }
  }

  // Shifting a word by its own width leaves nothing: the all-ones word covers every other and
  // keeps covering it as both are shifted.

  lemma {:induction false} CoversRight(m: u32, x: u32, n: nat)
    requires Covers(m, x)
    ensures Covers(Right(m, n), Right(x, n))
    decreases n
  {
    hide Covers, Half, Double;
    if n != 0 {
      CoversShift(m, x);
      CoversRight(Half(m), Half(x), n - 1);
    }
  }

  lemma {:induction false} CoversLeft(m: u32, x: u32, n: nat)
    requires Covers(m, x)
    ensures Covers(Left(m, n), Left(x, n))
    decreases n
  {
    hide Covers, Half, Double;
    if n != 0 {
      CoversShift(m, x);
      CoversLeft(Double(m), Double(x), n - 1);
    }
  }

  lemma {:induction false} CoversLeft16(m: u16, x: u16, n: nat)
    requires Covers16(m, x)
    ensures Covers16(Left16(m, n), Left16(x, n))
    decreases n
  {
    hide Covers16, Double16;
    if n != 0 {
      CoversShift16(m, x);
      CoversLeft16(Double16(m), Double16(x), n - 1);
    }
  }

  lemma {:induction false} RightAdd(x: u32, m: nat, n: nat)
    ensures Right(x, m + n) == Right(Right(x, m), n)
    decreases m
  {
    hide Half;
    if m != 0 {
      RightAdd(Half(x), m - 1, n);
    }
  }

  lemma {:induction false} LeftAdd(x: u32, m: nat, n: nat)
    ensures Left(x, m + n) == Left(Left(x, m), n)
    decreases m
  {
    hide Double;
    if m != 0 {
      LeftAdd(Double(x), m - 1, n);
    }
  }

  lemma AllOnesRight()
    ensures Right(0xffff_ffff, 32) == 0
  {
    assert Right(0xffff_ffff, 8) == 0xff_ffff;
    assert Right(0xff_ffff, 8) == 0xffff;
    assert Right(0xffff, 8) == 0xff;
    assert Right(0xff, 8) == 0;
    RightAdd(0xffff_ffff, 8, 24);
    RightAdd(0xff_ffff, 8, 16);
    RightAdd(0xffff, 8, 8);
  }

  lemma AllOnesLeft()
    ensures Left(0xffff_ffff, 32) == 0
  {
    assert Left(0xffff_ffff, 8) == 0xffff_ff00;
    assert Left(0xffff_ff00, 8) == 0xffff_0000;
    assert Left(0xffff_0000, 8) == 0xff00_0000;
    assert Left(0xff00_0000, 8) == 0;
    LeftAdd(0xffff_ffff, 8, 24);
    LeftAdd(0xffff_ff00, 8, 16);
    LeftAdd(0xffff_0000, 8, 8);
  }

  lemma AllOnesLeft16()
    ensures Left16(0xffff, 16) == 0
  {
    assert Left16(0xffff, 16) == Left16(0xfff0, 12);
    assert Left16(0xfff0, 12) == Left16(0xff00, 8);
    assert Left16(0xff00, 8) == Left16(0xf000, 4);
  }

  lemma Exhausted(x: u32)
    ensures Right(x, 32) == 0 && Left(x, 32) == 0
  {
    AllOnesRight();
    AllOnesLeft();
    assert Covers(0xffff_ffff, x);
    CoversRight(0xffff_ffff, x, 32);
    CoversLeft(0xffff_ffff, x, 32);
  }

  lemma Exhausted16(x: u16)
    ensures Left16(x, 16) == 0
  {
    AllOnesLeft16();
    assert Covers16(0xffff, x);
    CoversLeft16(0xffff, x, 16);
  }

  /** Two words with the same bits are the same word, whichever end the bits are read from. */
  lemma BitsDetermine(x: u32, y: u32)
    requires Lsb(x, 32) == Lsb(y, 32) || Msb(x, 32) == Msb(y, 32)
    ensures x == y
  {
    Exhausted(x);
    Exhausted(y);
    if Lsb(x, 32) == Lsb(y, 32) {
      LsbSplit(x, y, 32);
    } else {
      MsbSplit(x, y, 32);
    }
  }

  lemma BitsDetermine16(x: u16, y: u16)
    requires Msb16(x, 16) == Msb16(y, 16)
    ensures x == y
  {
    Exhausted16(x);
    Exhausted16(y);
    Msb16Split(x, y, 16);
  }

  // ---------------------------------------------------------------- shifting the bit vector

  lemma {:induction false} LsbAdd(x: u32, m: nat, n: nat)
    ensures Lsb(x, m + n) == Lsb(x, m) + Lsb(Right(x, m), n)
    decreases m
  {
    hide Odd, Half;
    if m != 0 {
      LsbAdd(Half(x), m - 1, n);
    }
  }

  lemma {:induction false} MsbAdd(x: u32, m: nat, n: nat)
    ensures Msb(x, m + n) == Msb(x, m) + Msb(Left(x, m), n)
    decreases m
  {
    hide Top, Double;
    if m != 0 {
      MsbAdd(Double(x), m - 1, n);
    }
  }

  lemma {:induction false} Msb16Add(x: u16, m: nat, n: nat)
    ensures Msb16(x, m + n) == Msb16(x, m) + Msb16(Left16(x, m), n)
    decreases m
  {
    hide Top16, Double16;
    if m != 0 {
      Msb16Add(Double16(x), m - 1, n);
    }
  }

  lemma {:induction false} ZeroWord(n: nat)
    ensures Lsb(0, n) == Msb(0, n) == Msb16(0, n) == Zeros(n)
  {
    if n != 0 {
      ZeroWord(n - 1);
      assert Half(0) == 0 && Double(0) == 0 && Double16(0) == 0;
      assert !Odd(0) && !Top(0) && !Top16(0);
      assert Zeros(n) == [false] + Zeros(n - 1);
    }
  }

  lemma LsbEnds(x: u32, n: nat)
    ensures [Odd(x)] + Lsb(Half(x), n) == Lsb(x, n) + Lsb(Right(x, n), 1)
  {
    hide Odd, Half;
    LsbAdd(x, n, 1);
    assert Lsb(x, n + 1) == [Odd(x)] + Lsb(Half(x), n);
  }

  /** A right shift drops the first bit and lets a zero in at the top. */
  lemma ShiftRight(x: u32)
    ensures Lsb(Half(x), 32) == Lsb(x, 32)[1..] + [false]
  {
    hide Odd, Half, Lsb;
    var s, t := Lsb(x, 32), Lsb(Half(x), 32);
    assert [Odd(x)] + t == s + [false] by {
      LsbEnds(x, 32);
      Exhausted(x);
      ZeroWord(1);
    }
    assert t == ([Odd(x)] + t)[1..] == (s + [false])[1..];
  }

  lemma MsbEnds(x: u32, n: nat)
    ensures [Top(x)] + Msb(Double(x), n) == Msb(x, n) + Msb(Left(x, n), 1)
  {
    hide Top, Double;
    MsbAdd(x, n, 1);
    assert Msb(x, n + 1) == [Top(x)] + Msb(Double(x), n);
  }

  lemma ShiftLeft(x: u32)
    ensures Msb(Double(x), 32) == Msb(x, 32)[1..] + [false]
  {
    hide Top, Double, Msb;
    var s, t := Msb(x, 32), Msb(Double(x), 32);
    assert [Top(x)] + t == s + [false] by {
      MsbEnds(x, 32);
      Exhausted(x);
      ZeroWord(1);
    }
    assert t == ([Top(x)] + t)[1..] == (s + [false])[1..];
  }

  lemma Msb16Ends(x: u16, n: nat)
    ensures [Top16(x)] + Msb16(Double16(x), n) == Msb16(x, n) + Msb16(Left16(x, n), 1)
  {
    hide Top16, Double16;
    Msb16Add(x, n, 1);
    assert Msb16(x, n + 1) == [Top16(x)] + Msb16(Double16(x), n);
  }

  lemma ShiftLeft16(x: u16)
    ensures Msb16(Double16(x), 16) == Msb16(x, 16)[1..] + [false]
  {
    hide Top16, Double16, Msb16;
    var s, t := Msb16(x, 16), Msb16(Double16(x), 16);
    assert [Top16(x)] + t == s + [false] by {
      Msb16Ends(x, 16);
      Exhausted16(x);
      ZeroWord(1);
    }
    assert t == ([Top16(x)] + t)[1..] == (s + [false])[1..];
  }

  // ---------------------------------------------------------------- reading from the other end

  lemma EvenPair(x: u32, y: u32, n: nat)
    requires x & 3 == 0 && y == x >> 2 && n >= 2
    ensures Lsb(x, n) == Zeros(2) + Lsb(y, n - 2)
  {
    EvenPairs(x);
    hide Odd, Half;
    assert Zeros(2) == [false, false];
    assert Lsb(x, n) == [false] + Lsb(Half(x), n - 1);
  }

  lemma EvenNibble(x: u32, y: u32, n: nat)
    requires x & 0xf == 0 && y == x >> 4 && n >= 4
    ensures Lsb(x, n) == Zeros(4) + Lsb(y, n - 4)
  {
    hide Lsb;
    var two := x >> 2;
    assert x & 3 == 0 && two & 3 == 0 && y == two >> 2;
    EvenPair(x, two, n);
    EvenPair(two, y, n - 2);
    assert Zeros(2) + Zeros(2) == Zeros(4);
  }

  lemma TopBitLast()
    ensures Lsb(0x8000_0000, 32) == Zeros(31) + [true]
  {
    hide Lsb;
    EvenNibble(0x8000_0000, 0x800_0000, 32);
    EvenNibble(0x800_0000, 0x80_0000, 28);
    EvenNibble(0x80_0000, 0x8_0000, 24);
    EvenNibble(0x8_0000, 0x8000, 20);
    EvenNibble(0x8000, 0x800, 16);
    EvenNibble(0x800, 0x80, 12);
    EvenNibble(0x80, 8, 8);
    EvenPair(8, 2, 4);
    OneInTwo();
  }

  lemma OneInTwo()
    ensures Lsb(2, 2) == [false, true]
  {
    LastThree();
    hide Odd, Half;
    assert Lsb(2, 2) == [false] + Lsb(1, 1);
  }

  lemma TopPartBits(x: u32)
    ensures Lsb(TopPart(x), 32) == Zeros(31) + [Top(x)]
  {
    TopPartIs(x);
    hide Lsb, Top, TopPart;
    TopBitLast();
    ZeroWord(32);
    assert Zeros(32) == Zeros(31) + [false];
  }

  lemma DoubleStarts(x: u32)
    ensures Lsb(Double(x), 32) == [false] + Lsb(Half(Double(x)), 32)[..31]
  {
    DoubleIsEven(x);
    hide Odd, Half, Double;
    ShiftRight(Double(x));
    var d, t := Lsb(Double(x), 32), Lsb(Half(Double(x)), 32);
    assert d[0] == false;
    assert t[..31] == d[1..];
  }

  lemma XorLast(b: seq<bool>, t: seq<bool>, top: bool)
    requires |b| == |t| == 32 && !t[31]
    requires b == Xor(t, Zeros(31) + [top])
    ensures b[31] == top && b[..31] == t[..31]
  {}

  /** A word and its left shift, both read from bit 0. */
  lemma DoubleBits(x: u32)
    ensures Lsb(Double(x), 32) == [false] + Lsb(x, 32)[..31]
    ensures Lsb(x, 32)[31] == Top(x)
  {
    var trimmed, top := Half(Double(x)), TopPart(x);
    TopSplits(x);
    hide Odd, Half, Double, IsXor, Top, TopPart, Lsb;
    LsbXor(trimmed, top, x, 32);
    TopPartBits(x);
    DoubleStarts(x);
    ShiftRight(Double(x));
    XorLast(Lsb(x, 32), Lsb(trimmed, 32), Top(x));
  }

  lemma ReversedShift(s: seq<bool>, n: nat)
    requires |s| == 32 && 0 < n <= 32
    ensures Reversed(s)[..n] == [s[31]] + Reversed([false] + s[..31])[..n - 1]
  {}

  lemma {:induction false} MsbPrefix(x: u32, n: nat)
    requires n <= 32
    ensures Msb(x, n) == Reversed(Lsb(x, 32))[..n]
    decreases n
  {
    hide Top, Double, Lsb, Reversed;
    if n != 0 {
      MsbPrefix(Double(x), n - 1);
      DoubleBits(x);
      ReversedShift(Lsb(x, 32), n);
      assert Msb(x, n) == [Top(x)] + Msb(Double(x), n - 1);
    }
  }

  /** The two readings of a word are reverses of each other. */
  lemma MsbReversesLsb(x: u32)
    ensures Msb(x, 32) == Reversed(Bits(x))
  {
    MsbPrefix(x, 32);
  }
}
