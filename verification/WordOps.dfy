/** C's word types and the shifts the corpus applies to them, one named operation each, with the
    facts that the solver's bit-vector theory settles on its own. Later modules reason with these
    facts and never look inside the operations. */
module WordOps {

  type u32 = bv32
  type u16 = bv16
  type u8 = bv8

  predicate Odd(x: u32) { x & 1 != 0 }

  predicate Top(x: u32) { x & 0x8000_0000 != 0 }

  predicate Top16(x: u16) { x & 0x8000 != 0 }

  function Half(x: u32): u32 { x >> 1 }

  function Double(x: u32): u32 { x << 1 }

  function Double16(x: u16): u16 { x << 1 }

  function Xored(x: u32, y: u32): u32 { x ^ y }

  predicate IsXor(x: u32, y: u32, z: u32) { z == x ^ y }

  predicate IsXor16(x: u16, y: u16, z: u16) { z == x ^ y }

  predicate Covers(m: u32, x: u32) { x & m == x }

  predicate Covers16(m: u16, x: u16) { x & m == x }

  /** One turn of the reversal loop on its accumulator. */
  function ShiftIn(x: u32, bit: bool): u32 { if bit then (x << 1) | 1 else x << 1 }

  lemma XorRight(x: u32, y: u32, z: u32)
    requires IsXor(x, y, z)
    ensures IsXor(Half(x), Half(y), Half(z))
    ensures Odd(z) <==> Odd(x) != Odd(y)
  {}

  lemma XorLeft(x: u32, y: u32, z: u32)
    requires IsXor(x, y, z)
    ensures IsXor(Double(x), Double(y), Double(z))
    ensures Top(z) <==> Top(x) != Top(y)
  {}

  lemma XorLeft16(x: u16, y: u16, z: u16)
    requires IsXor16(x, y, z)
    ensures IsXor16(Double16(x), Double16(y), Double16(z))
    ensures Top16(z) <==> Top16(x) != Top16(y)
  {}

  lemma SplitRight(x: u32, y: u32)
    requires Odd(x) == Odd(y) && Half(x) == Half(y)
    ensures x == y
  {}

  lemma SplitLeft(x: u32, y: u32)
    requires Top(x) == Top(y) && Double(x) == Double(y)
    ensures x == y
  {}

  lemma SplitLeft16(x: u16, y: u16)
    requires Top16(x) == Top16(y) && Double16(x) == Double16(y)
    ensures x == y
  {}

  lemma CoversShift(m: u32, x: u32)
    requires Covers(m, x)
    ensures Covers(Half(m), Half(x)) && Covers(Double(m), Double(x))
  {}

  lemma CoversShift16(m: u16, x: u16)
    requires Covers16(m, x)
    ensures Covers16(Double16(m), Double16(x))
  {}

  lemma ShiftInIsXor(x: u32, bit: bool)
    ensures IsXor(Double(x), if bit then 1 else 0, ShiftIn(x, bit))
  {
    if bit {
      assert (x << 1) | 1 == (x << 1) ^ 1;
    } else {
      assert (x << 1) ^ 0 == x << 1;
    }
  }

  lemma LastPair()
    ensures !Top(0x4000_0000) && Double(0x4000_0000) == 0x8000_0000 && Top(0x8000_0000)
  {}

  lemma ZeroPairs(x: u32)
    ensures x & 0xc000_0000 == 0 ==> !Top(x) && !Top(Double(x))
    ensures Double(Double(x)) == x << 2
  {}

  /** The word's top bit alone. */
  function TopPart(x: u32): u32 { x & 0x8000_0000 }

  lemma TopPartIs(x: u32)
    ensures TopPart(x) == if Top(x) then 0x8000_0000 else 0
  {
    if x & 0x8000_0000 != 0 {
      assert x & 0x8000_0000 == 0x8000_0000;
    }
  }

  lemma TopRaw(x: u32)
    ensures (x << 1) >> 1 == x ^ (x & 0x8000_0000)
    ensures x == ((x << 1) >> 1) ^ (x & 0x8000_0000)
  {}

  lemma TopSplits(x: u32)
    ensures IsXor(x, TopPart(x), Half(Double(x)))
    ensures IsXor(Half(Double(x)), TopPart(x), x)
  {
    TopRaw(x);
  }

  lemma DoubleIsEven(x: u32)
    ensures !Odd(Double(x))
  {}

  lemma EvenPairs(x: u32)
    ensures x & 3 == 0 ==> !Odd(x) && !Odd(Half(x))
    ensures Half(Half(x)) == x >> 2
  {}

  lemma LastThree()
    ensures !Odd(8) && Half(8) == 4 && !Odd(4) && Half(4) == 2 && !Odd(2) && Half(2) == 1 && Odd(1)
  {}

  /** One turn of the population-count loop. */
  function ClearLowest(x: u32): u32 { x & (x - 1) }

  lemma ClearLowestOdd(x: u32)
    requires Odd(x)
    ensures !Odd(ClearLowest(x)) && Half(ClearLowest(x)) == Half(x)
  {}

  lemma ClearLowestEven(x: u32)
    requires !Odd(x)
    ensures !Odd(ClearLowest(x)) && Half(ClearLowest(x)) == ClearLowest(Half(x))
  {}

  lemma TurnOfReversal(source: u32, reversed: u32)
    ensures (reversed << 1) | (source & 1) == ShiftIn(reversed, Odd(source))
    ensures source >> 1 == Half(source)
  {
    if source & 1 != 0 {
      assert source & 1 == 1;
    } else {
      assert (reversed << 1) | 0 == reversed << 1;
    }
  }

  // ---------------------------------------------------------------- the checksum kernels' steps

  /** One bit-step of the CRC-32 kernel, in its branch-free form. */
  function Crc32Step(crc: u32): u32 { (crc >> 1) ^ (0xedb8_8320 & (0 - (crc & 1))) }

  /** One bit-step of a 32-bit left-shifting register: the CRC-16 kernel's shape. */
  function LeftStep(p: u32, crc: u32): u32 { if crc & 0x8000_0000 != 0 then (crc << 1) ^ p else crc << 1 }

  /** One bit-step of the CRC-16 kernel. */
  function Crc16Step(crc: u16): u16 { if crc & 0x8000 != 0 then (crc << 1) ^ 0x1021 else crc << 1 }

  lemma Crc32OddStep(crc: u32)
    requires Odd(crc)
    ensures IsXor(Half(crc), 0xedb8_8320, Crc32Step(crc))
  {
    assert crc & 1 == 1;
    assert 0xedb8_8320 & (0 - (crc & 1)) == 0xedb8_8320;
  }

  lemma Crc32EvenStep(crc: u32)
    requires !Odd(crc)
    ensures Crc32Step(crc) == Half(crc)
  {
    assert crc & 1 == 0;
    assert (crc >> 1) ^ 0 == crc >> 1;
  }

  lemma LeftStepIs(p: u32, crc: u32)
    ensures Top(crc) ==> IsXor(Double(crc), p, LeftStep(p, crc))
    ensures !Top(crc) ==> LeftStep(p, crc) == Double(crc)
  {}

  lemma Crc16StepIs(crc: u16)
    ensures Top16(crc) ==> IsXor16(Double16(crc), 0x1021, Crc16Step(crc))
    ensures !Top16(crc) ==> Crc16Step(crc) == Double16(crc)
  {}

  // A byte's place in each register.

  function LowByte(b: u8): u32 { b as u32 }

  function HighByte(b: u8): u32 { (b as u32) << 24 }

  function HighByte16(b: u8): u16 { (b as u16) << 8 }

  /** Adds a message byte to a register. */
  function AddLow(crc: u32, b: u8): u32 { crc ^ LowByte(b) }

  function AddHigh(crc: u32, b: u8): u32 { crc ^ HighByte(b) }

  function AddHigh16(crc: u16, b: u8): u16 { crc ^ HighByte16(b) }

  lemma BytesFit(b: u8)
    ensures Covers(0xff, LowByte(b)) && Covers(0xff00_0000, HighByte(b)) && Covers16(0xff00, HighByte16(b))
  {}

  lemma BytePlacesInjective(a: u8, b: u8)
    ensures LowByte(a) == LowByte(b) ==> a == b
    ensures HighByte16(a) == HighByte16(b) ==> a == b
  {}

  lemma CoversNothing(x: u32, y: u16)
    ensures Covers(0, x) ==> x == 0
    ensures Covers16(0, y) ==> y == 0
  {}

  /** C's conversion of a word to a byte. */
  function Truncate(x: u32): u8 { (x & 0xff) as u8 }

  function Truncate16(x: u32): u16 { (x & 0xffff) as u16 }

  function Invert(x: u32): u32 { x ^ 0xffff_ffff }

  function Invert16(x: u16): u16 { x ^ 0xffff }

  lemma InvertInjective(x: u32, y: u32)
    ensures Invert(x) == Invert(y) ==> x == y
    ensures Invert(Invert(x)) == x && 0xffff_ffff ^ x == Invert(x)
  {}

  lemma InvertInjective16(x: u16, y: u16)
    ensures Invert16(x) == Invert16(y) ==> x == y
  {}

  // The bytes of a word, low byte first, and of a halfword, high byte first.

  function High8(x: u16): u8 { (x >> 8) as u8 }

  function Low8(x: u16): u8 { (x & 0xff) as u8 }

  function ClearLow8(x: u32): u32 { x & 0xffff_ff00 }

  lemma LowByteOfWord(x: u32)
    ensures LowByte(Truncate(x)) == x & 0xff
  {}

  lemma MasksSplit(x: u32)
    ensures x == (x & 0xff) ^ (x & 0xffff_ff00)
    ensures (x & 0xffff_ff00) & 0xf == 0 && ((x & 0xffff_ff00) >> 4) & 0xf == 0
  {}

  lemma ByteSplits(x: u32)
    ensures IsXor(LowByte(Truncate(x)), ClearLow8(x), x)
    ensures ClearLow8(x) & 0xf == 0 && (ClearLow8(x) >> 4) & 0xf == 0
  {
    LowByteOfWord(x);
    MasksSplit(x);
  }

  lemma HighHalfCancels(x: u16)
    ensures AddHigh16(x, High8(x)) == x & 0xff
    ensures AddHigh16((x & 0xff) << 8, Low8(x)) == 0
  {}

  lemma EightZeroSteps(x: u16)
    requires x & 0xff00 == 0
    ensures Crc16Step(x) == x << 1 && Crc16Step(x << 1) == x << 2
    ensures Crc16Step(x << 2) == x << 3 && Crc16Step(x << 3) == x << 4
    ensures Crc16Step(x << 4) == x << 5 && Crc16Step(x << 5) == x << 6
    ensures Crc16Step(x << 6) == x << 7 && Crc16Step(x << 7) == x << 8
    ensures Crc16Step(0) == 0
  {}

  lemma LowHalf(x: u16)
    ensures (x & 0xff) & 0xff00 == 0
  {}

  function TopByte(x: u32): u8 { (x >> 24) as u8 }

  lemma TopByteOnly(x: u32)
    requires x << 8 == 0
    ensures HighByte(TopByte(x)) == x
  {}

  lemma DoubleTwice(x: u32)
    ensures Double(Double(x)) == x << 2
  {}

  function DropByte(x: u32): u32 { x >> 8 }

  lemma OddQuad(x: u32)
    requires x & 0xf == 0xf
    ensures Odd(x) && Odd(Half(x)) && Odd(Half(Half(x))) && Odd(Half(Half(Half(x))))
  {}

  function AddBytes(a: u8, b: u8): u8 { a ^ b }

  lemma AddBytesIsXor(a: u8, b: u8)
    ensures IsXor(LowByte(a), LowByte(b), LowByte(AddBytes(a, b)))
  {}

  // The five distances of the Gray cascade, `x ^ (x >> k)`.

  function Ripple1(x: u32): u32 { x ^ (x >> 1) }

  function Ripple2(x: u32): u32 { x ^ (x >> 2) }

  function Ripple4(x: u32): u32 { x ^ (x >> 4) }

  function Ripple8(x: u32): u32 { x ^ (x >> 8) }

  function Ripple16(x: u32): u32 { x ^ (x >> 16) }

  function LowestSet(x: u32): u32 { x | 1 }

  // The bits of a halfword and of a byte, nibble by nibble: high to low against low to high.

  predicate Odd1(x: u32) { Odd(Half(x)) }

  predicate Odd2(x: u32) { Odd1(Half(x)) }

  predicate Odd3(x: u32) { Odd2(Half(x)) }

  predicate Top1(h: u16) { Top16(Double16(h)) }

  predicate Top2(h: u16) { Top1(Double16(h)) }

  predicate Top3(h: u16) { Top2(Double16(h)) }

  function Right4(x: u32): u32 { Half(Half(Half(Half(x)))) }

  function Left4(h: u16): u16 { Double16(Double16(Double16(Double16(h)))) }

  /** The top four bits of `h` are the low four bits of `x`, the other way round. */
  predicate Facing(h: u16, x: u32) {
    Top16(h) == Odd3(x) && Top1(h) == Odd2(x) && Top2(h) == Odd1(x) && Top3(h) == Odd(x)
  }

  lemma TruncateFaces0(x: u32)
    ensures Facing(Truncate16(x), Right4(Right4(Right4(x))))
  {}

  lemma TruncateFaces1(x: u32)
    ensures Facing(Left4(Truncate16(x)), Right4(Right4(x)))
  {}

  lemma TruncateFaces2(x: u32)
    ensures Facing(Left4(Left4(Truncate16(x))), Right4(x))
  {}

  lemma TruncateFaces3(x: u32)
    ensures Facing(Left4(Left4(Left4(Truncate16(x)))), x)
  {}

  lemma HighByteFaces(b: u8)
    ensures Facing(HighByte16(b), Right4(LowByte(b))) && Facing(Left4(HighByte16(b)), LowByte(b))
  {}

  lemma OnesTop()
    ensures var h: u16 := 0xffff;
            && Top16(h) && Top1(h) && Top2(h) && Top3(h)
            && Left4(h) == 0xfff0 && Left4(0xfff0) == 0xff00 && Left4(0xff00) == 0xf000
            && Top16(0xfff0) && Top1(0xfff0) && Top2(0xfff0) && Top3(0xfff0)
            && Top16(0xff00) && Top1(0xff00) && Top2(0xff00) && Top3(0xff00)
            && Top16(0xf000) && Top1(0xf000) && Top2(0xf000) && Top3(0xf000)
  {}

  lemma InvertTop(x: u16)
    ensures IsXor16(x, 0xffff, Invert16(x))
  {}

  // Bitwise operators, and adding one.

  predicate IsAnd(x: u32, y: u32, z: u32) { z == x & y }

  predicate IsOr(x: u32, y: u32, z: u32) { z == x | y }

  lemma AndRight(x: u32, y: u32, z: u32)
    requires IsAnd(x, y, z)
    ensures Odd(z) == (Odd(x) && Odd(y)) && IsAnd(Half(x), Half(y), Half(z))
  {}

  lemma OrRight(x: u32, y: u32, z: u32)
    requires IsOr(x, y, z)
    ensures Odd(z) == (Odd(x) || Odd(y)) && IsOr(Half(x), Half(y), Half(z))
  {}

  function Kept(x: u32, mask: u32): u32 { x & mask }

  function Flipped(x: u32): u32 { !x }

  lemma KeptIs(x: u32, mask: u32)
    ensures IsAnd(x, mask, Kept(x, mask))
  {}

  lemma MergeIs(a: u32, b: u32, mask: u32)
    ensures IsOr(Kept(a, mask), Kept(b, Flipped(mask)), (a & mask) | (b & !mask))
  {}

  lemma FlippedIs(x: u32)
    ensures Flipped(x) == Invert(x)
  {}

  /** The bit that a left shift releases, as a word. */
  function Outgoing(x: u32): u32 { x >> 31 }

  lemma OutgoingIs(x: u32)
    ensures Outgoing(x) == if Top(x) then 1 else 0
  {}

  function Next(x: u32): u32 { x + 1 }

  lemma NextOfEven(x: u32)
    requires !Odd(x)
    ensures Odd(Next(x)) && Half(Next(x)) == Half(x)
  {
    assert x + 1 == x | 1;
  }

  lemma NextOfOdd(x: u32)
    requires Odd(x)
    ensures Next(x) == Double(Next(Half(x)))
  {}

  function Plus3(x: u32): u32 { x + 3 }

  function Plus7(x: u32): u32 { x + 7 }

  lemma NextThrice(x: u32)
    ensures Plus3(x) == Next(Next(Next(x))) && Plus7(x) == Next(Next(Next(Next(Plus3(x)))))
  {}

  lemma MaskedOdds(x: u32)
    ensures Odd(x & 31) == Odd(x) && Odd(Half(x & 31)) == Odd(Half(x))
    ensures Odd(Half(Half(x & 31))) == Odd(Half(Half(x)))
    ensures Odd(Half(Half(Half(x & 31)))) == Odd(Half(Half(Half(x))))
    ensures Odd(Half(Half(Half(Half(x & 31))))) == Odd(Half(Half(Half(Half(x)))))
  {}

  lemma LowTwo(x: u32)
    ensures x & 3 == 0 <==> !Odd(x) && !Odd(Half(x))
    ensures x & 3 == 1 <==> Odd(x) && !Odd(Half(x))
    ensures x & 3 == 2 <==> !Odd(x) && Odd(Half(x))
    ensures x & 1 != 0 <==> Odd(x)
    ensures x & 2 != 0 <==> Odd(Half(x))
  {}

  function LowSixteen(x: u32): u32 { x & 0xffff }

  function HighHalf(x: u32): u32 { x & 0xffff_0000 }

  function Upper(x: u32): u32 { x >> 16 }

  lemma HalvesSplit(x: u32)
    ensures IsXor(x, HighHalf(x), LowSixteen(x))
  {}

  lemma LowestSetIs(x: u32)
    ensures Odd(LowestSet(x)) && Half(LowestSet(x)) == Half(x)
  {}

  lemma DoubleFive(x: u32)
    ensures Double(Double(Double(Double(Double(x))))) == x << 5
  {}
}
