/** What the twenty statements mean on bits and numbers alone: every register is a list of 32 bits, and a
    statement is described by the places its bits come from and by ordinary arithmetic. The generator's
    reference machine computes exactly this, statement by statement and over whole runs. */
module Denotation {
  import opened WordOps
  import opened Words
  import opened Numbers
  import opened Unsigned
  import opened Rotations
  import opened BitLaws
  import opened Casegen
  import BitLoops
  import ClosedForms
  import Cases
  import Checksums
  import opened Corpus
  import Crc
  import Digest
  import Mixing

  type Cell = s: seq<bool> | |s| == 32 witness seq(32, i => false)

  /** A number modulo two to the 32, as bits. */
  function Rep(n: int): Cell { Digits(n % MODULUS, 32) }

  /** The operands of a statement, bit by bit. */
  datatype Inputs = Inputs(a: Cell, b: Cell, d: Cell, next: Cell, cell: Cell, position: nat)

  function OddUp(n: nat): nat { if n % 2 == 1 then n else n + 1 }

  function Truth(condition: bool): int { if condition then 1 else 0 }

  function Merged(a: Cell, b: Cell, choice: Cell): Cell {
    seq(32, k requires 0 <= k < 32 => if choice[k] then a[k] else b[k])
  }

  /** The turns of a counted loop. */
  function Whirl(value: Cell, b: Cell, i: nat, count: nat): Cell
    requires i <= count
    decreases count - i
  {
    if i == count then value else Whirl(RotL(Rep(Value(value) + Value(Xor(b, Rep(i)))), 3), b, i + 1, count)
  }

  /** The middle one of three numbers. */
  function Median(x: nat, y: nat, z: nat): nat {
    if x <= y <= z || z <= y <= x then y else if y <= x <= z || z <= x <= y then x else z
  }

  /** What a statement stores in its destination. */
  function Meaning(op: Operation, o: Inputs): Cell {
    var (a, b) := (o.a, o.b);
    var (x, y) := (Value(a), Value(b));
    match op
    case AddCarry => Xor(Rep(x + y), Rep(Truth(x + y >= MODULUS)))
    case SubBorrow => Xor(Rep(x - y), Rep(Truth(x < y)))
    case RotateMix => Xor(RotL(a, y), RotL(b, 57 - y % 32))
    case MultiplyLow => Rep(x * OddUp(y) + 0x9e37_79b9)
    case DivideRem => Xor(Rep(x / OddUp(y % 0x1_0000)), RotL(Rep(x % OddUp(y % 0x1_0000)), 9))
    case MaskMerge => Merged(a, b, RotL(a, o.position + 3))
    case CompareSelect => if x < y then Rep(x + 0x1020_4081) else Rep(y - 0x0102_0408)
    case BytePack => a[..8] + b[..8] + a[8..16] + b[8..16]
    case HalfwordSwap => Xor(a[16..] + a[..16], Zeros(16) + b[16..])
    case ArrayScatter => RotL(Xor(o.cell, b), o.position + 1)
    case CountedLoop => Whirl(a, b, 0, 3 + o.position % 5)
    case SwitchPhi =>
      if a[1] then if a[0] then Xor(Rep(3 * y), a) else Xor(b, RotL(a, 5))
      else if a[0] then Rep(y - x) else Rep(x + y)
    case ShortCircuit =>
      if !b[0] then a else if b[1] then Xor(Rep(x + 3), Rep(0x55aa_55aa)) else Rep(x + 3)
    case PopcountLoop => Xor(Rep(Weight(a)), b)
    case ReverseLoop => Xor(Reversed(a), b)
    case GrayDecode => Xor(a, b)
    case MinmaxClamp => Xor(Rep(Median(x, y, Value(o.d))), Xor(a, b))
    case EndianSwap => Xor(a[24..] + a[16..24] + a[8..16] + a[..8], RotL(b, 8))
    case CarryChain =>
      var wide := (Value(o.d) * MODULUS + x) + (Value(o.next) * MODULUS + y);
      Xor(Rep(wide), Rep(wide / MODULUS))
    case HornerLoop =>
      var m := OddUp(y);
      Rep(x * (m * m * m * m) + 3 * (m * m * m) + 5 * (m * m) + 17 * m + 257)
  }

  // ---------------------------------------------------------------- words and their bits

  lemma RepWord(n: nat)
    requires n < MODULUS
    ensures Bits(Word(n)) == Rep(n)
  {
    BuildBits(n, 32);
    hide Lsb, Build, Digits;
    assert Digits(n, 32) + Zeros(0) == Digits(n, 32);
    ModWrap(n, MODULUS);
  }

  lemma RepNat(x: u32, n: int)
    requires Nat(x) == n % MODULUS
    ensures Bits(x) == Rep(n)
  {
    hide Nat, Word, Lsb, Digits;
    WordNat(x);
    RepWord(Nat(x));
    ModWrap(n % MODULUS, MODULUS);
  }

  lemma XorBits(x: u32, y: u32)
    ensures Bits(Xored(x, y)) == Xor(Bits(x), Bits(y))
  {
    XoredIs(x, y);
    hide Xored, IsXor, Lsb;
    LsbXor(x, y, Xored(x, y), 32);
  }

  lemma XoredIs(x: u32, y: u32)
    ensures IsXor(x, y, Xored(x, y))
  {
  }

  lemma AddBits(x: u32, y: u32)
    ensures Bits(Add(x, y)) == Rep(Nat(x) + Nat(y))
  {
    hide Nat, Add, Lsb, Rep;
    AddNat(x, y);
    RepNat(Add(x, y), Nat(x) + Nat(y));
  }

  lemma SubBits(x: u32, y: u32)
    ensures Bits(Sub(x, y)) == Rep(Nat(x) - Nat(y))
  {
    hide Nat, Word, Lsb, Rep;
    NatWord((Nat(x) - Nat(y)) % MODULUS);
    RepNat(Sub(x, y), Nat(x) - Nat(y));
  }

  lemma FlagBits(c: bool)
    ensures Bits(Flag(c)) == Rep(Truth(c))
  {
    hide Nat, Flag, Lsb, Rep;
    ClosedForms.FlagNat(c);
    ModWrap(Truth(c), MODULUS);
    RepNat(Flag(c), Truth(c));
  }

  lemma {:induction false} ValueLow(s: seq<bool>, k: nat)
    requires k <= |s|
    ensures Value(s[..k]) == Value(s) % Pow2(k)
  {
    if k != 0 {
      ValueLow(s[1..], k - 1);
      ValueCons(s[0], s[1..]);
      ValueCons(s[0], s[1..][..k - 1]);
      assert s == [s[0]] + s[1..] && s[..k] == [s[0]] + s[1..][..k - 1];
      var (v, p) := (Value(s[1..]), Pow2(k - 1));
      DoubleMod(v, p);
      BitMod(v, p, if s[0] then 1 else 0);
    }
  }

  lemma BitMod(v: nat, p: nat, bit: nat)
    requires p > 0 && bit <= 1
    ensures (bit + 2 * v) % (2 * p) == bit + 2 * (v % p)
  {
    assert v == v / p * p + v % p;
    DivUnique(bit + 2 * v, 2 * p, v / p, bit + 2 * (v % p));
  }

  lemma {:induction false} ValuePadded(s: seq<bool>, n: nat)
    ensures Value(s + Zeros(n)) == Value(s)
  {
    if s == [] {
      ClosedForms.ValueOfZeros(n);
      assert s + Zeros(n) == Zeros(n);
    } else {
      ValuePadded(s[1..], n);
      assert (s + Zeros(n))[1..] == s[1..] + Zeros(n);
    }
  }

  /** A word's number, from its bits. */
  lemma NatIs(x: u32)
    ensures Nat(x) == Value(Bits(x))
  {
  }

  lemma LowestSetNat(x: u32)
    ensures Nat(LowestSet(x)) == OddUp(Nat(x))
  {
    LowestSetIs(x);
    NatIs(x);
    NatIs(LowestSet(x));
    hide Odd, Half, Nat, Lsb, LowestSet, Value;
    ValueStep(x, 32);
    ValueStep(LowestSet(x), 32);
    OddStep(Nat(x), Odd(x), Value(Lsb(Half(x), 31)));
  }

  lemma OddStep(n: nat, odd: bool, half: nat)
    requires n == (if odd then 1 else 0) + 2 * half
    ensures OddUp(n) == 1 + 2 * half
  {
  }

  lemma HighHalfBits(x: u32)
    ensures Bits(HighHalf(x)) == Zeros(16) + Bits(x)[16..]
  {
    HighHalfTurns(x);
    UpperIs(x);
    hide RotateLeft, HighHalf, Upper, Lsb, Right;
    TurnSixteen(Upper(x));
    BitLoops.RightBits(x, 16);
  }

  lemma UpperIs(x: u32)
    ensures Upper(x) == Right(x, 16)
  {
    BitLoops.RightSixteen(x);
    hide Right;
  }

  lemma LowSixteenNat(x: u32)
    ensures Nat(LowSixteen(x)) == Nat(x) % 0x1_0000
  {
    HalvesSplit(x);
    NatIs(x);
    NatIs(LowSixteen(x));
    hide HighHalf, LowSixteen, Lsb, IsXor, Nat, Value;
    LsbXor(x, HighHalf(x), LowSixteen(x), 32);
    HighHalfBits(x);
    assert Bits(LowSixteen(x)) == Bits(x)[..16] + Zeros(16);
    ValuePadded(Bits(x)[..16], 16);
    ValueLow(Bits(x), 16);
    SixteenPow();
  }

  lemma SixteenPow()
    ensures Pow2(16) == 0x1_0000 && Pow2(3) == 8
  {
    assert Pow2(8) == 256;
    assert Pow2(16) == 256 * Pow2(8);
  }

  lemma RotLMod(s: seq<bool>, m: nat, n: nat)
    requires |s| == 32 && m % 32 == n % 32
    ensures RotL(s, m) == RotL(s, n)
  {
  }

  lemma AmountLow(x: u32)
    ensures Low5(Amount(x)) == Low5(x)
  {
    MaskedOdds(x);
    hide Odd, Half;
  }

  /** Rotations by the five low bits of a word. */
  lemma RotateAmount(x: u32, n: u32)
    ensures Bits(RotateLeft(x, Amount(n))) == RotL(Bits(x), Nat(n))
  {
    hide RotateLeft, Amount, Lsb, RotL, Low5, Nat;
    RotateBits(x, Amount(n));
    AmountLow(n);
    Low5Nat(n);
    ModTwice(Nat(n));
    RotLMod(Bits(x), Low5(n), Nat(n));
  }

  lemma ModTwice(n: nat)
    ensures n % 32 % 32 == n % 32
  {
  }

  // ---------------------------------------------------------------- the statements, one by one

  function Seen(o: Operands): Inputs {
    Inputs(Bits(o.a), Bits(o.b), Bits(o.d), Bits(o.next), Bits(o.cell), Nat(o.step))
  }

  lemma AddCarryMeans(o: Operands)
    ensures Bits(Reference(AddCarry, o)) == Meaning(AddCarry, Seen(o))
  {
    NatIs(o.a);
    NatIs(o.b);
    hide Nat, Add, Less, Flag, Xored, Lsb, Rep, Value;
    var sum := Add(o.a, o.b);
    XorBits(sum, Flag(Less(sum, o.a)));
    AddBits(o.a, o.b);
    ClosedForms.AddWraps(o.a, o.b);
    FlagBits(Less(sum, o.a));
  }

  lemma SubBorrowMeans(o: Operands)
    ensures Bits(Reference(SubBorrow, o)) == Meaning(SubBorrow, Seen(o))
  {
    NatIs(o.a);
    NatIs(o.b);
    hide Nat, Sub, Flag, Xored, Lsb, Rep, Value;
    XorBits(Sub(o.a, o.b), Flag(Less(o.a, o.b)));
    SubBits(o.a, o.b);
    FlagBits(Less(o.a, o.b));
  }

  lemma BackAmount(b: u32)
    ensures Low5(Amount(Plus7(Amount(b)))) == (Nat(b) % 32 + 7) % 32
  {
    hide Nat, Amount, Plus7, Low5;
    var t := Amount(b);
    AmountLow(b);
    AmountLow(Plus7(t));
    Low5Nat(b);
    Low5Nat(t);
    Low5Nat(Plus7(t));
    PlusNat(t);
    ModDivides(Nat(t) + 7);
    ModAdd(Nat(t), 7, 32);
  }

  lemma RotateMixMeans(o: Operands)
    ensures Bits(Reference(RotateMix, o)) == Meaning(RotateMix, Seen(o))
  {
    NatIs(o.b);
    hide Nat, Xored, Lsb, Value, RotateLeft, RotateRight, RotL, Amount, Plus7, Low5;
    var back := Amount(Plus7(Amount(o.b)));
    XorBits(RotateLeft(o.a, Amount(o.b)), RotateRight(o.b, back));
    RotateAmount(o.a, o.b);
    RotateRightBits(o.b, back);
    BackAmount(o.b);
    Low5Bound(back);
    RotLMod(Bits(o.b), 32 - Low5(back), 57 - Nat(o.b) % 32);
  }

  lemma MultiplyAddBits(a: u32, m: u32, c: Literal)
    ensures Bits(Add(Mul(a, m), Word(c))) == Rep(Nat(a) * Nat(m) + c)
  {
    hide Nat, Word, Add, Mul, Lsb, Rep;
    ClosedForms.NextTerm(a, m, c);
    RepNat(Add(Mul(a, m), Word(c)), Nat(a) * Nat(m) + c);
  }

  lemma MultiplyLowMeans(o: Operands)
    ensures Bits(Reference(MultiplyLow, o)) == Meaning(MultiplyLow, Seen(o))
  {
    NatIs(o.a);
    NatIs(o.b);
    hide Nat, Word, Add, Mul, Lsb, Rep, Value, LowestSet, OddUp;
    LowestSetNat(o.b);
    MultiplyAddBits(o.a, LowestSet(o.b), 0x9e37_79b9);
  }

  lemma DivideRemMeans(o: Operands)
    ensures Bits(Reference(DivideRem, o)) == Meaning(DivideRem, Seen(o))
  {
    NatIs(o.a);
    NatIs(o.b);
    DivisorIsNonzero(o.b);
    DivisorNat(o.b);
    hide Nat, Word, Xored, Lsb, Rep, Value, Divisor, RotateLeft, RotL, OddUp;
    var (n, d, v) := (Nat(o.a), Nat(Divisor(o.b)), Divisor(o.b));
    XorBits(Quotient(o.a, v), RotateLeft(Remainder(o.a, v), 9));
    QuotientFits(n, d);
    DivSplits(n, d);
    RepWord(n / d);
    RepWord(n % d);
    TurnNine(Remainder(o.a, v));
  }

  lemma DivisorNat(b: u32)
    ensures Nat(Divisor(b)) == OddUp(Nat(b) % 0x1_0000)
  {
    hide LowestSet, LowSixteen, Nat;
    LowestSetNat(LowSixteen(b));
    LowSixteenNat(b);
  }

  lemma TurnNine(x: u32)
    ensures Bits(RotateLeft(x, 9)) == RotL(Bits(x), 9) && Bits(RotateLeft(x, 5)) == RotL(Bits(x), 5)
    ensures Bits(RotateLeft(x, 3)) == RotL(Bits(x), 3) && Bits(RotateLeft(x, 8)) == RotL(Bits(x), 8)
    ensures Bits(RotateLeft(x, 16)) == RotL(Bits(x), 16) && Bits(RotateLeft(x, 11)) == RotL(Bits(x), 11)
  {
    hide RotateLeft, RotL, Lsb, Low5;
    RotateBits(x, 9);
    RotateBits(x, 5);
    RotateBits(x, 3);
    RotateBits(x, 8);
    RotateBits(x, 16);
    RotateBits(x, 11);
    SmallAmounts();
  }

  lemma SmallAmounts()
    ensures Low5(9) == 9 && Low5(5) == 5 && Low5(3) == 3 && Low5(8) == 8 && Low5(16) == 16 && Low5(11) == 11
  {
  }

  lemma MergedBits(a: u32, b: u32, mask: u32)
    ensures Bits(Merge(a, b, mask)) == Merged(Bits(a), Bits(b), Bits(mask))
  {
    MergeIs(a, b, mask);
    KeptIs(a, mask);
    KeptIs(b, Flipped(mask));
    FlippedIs(mask);
    assert Merge(a, b, mask) == (a & mask) | (b & !mask);
    hide Merge, Kept, Flipped, IsAnd, IsOr, Lsb, Invert;
    var (kept, other) := (Kept(a, mask), Kept(b, Flipped(mask)));
    LsbAnd(a, mask, kept, 32);
    LsbAnd(b, Flipped(mask), other, 32);
    LsbOr(kept, other, Merge(a, b, mask), 32);
    Crc.InvertBits(mask);
    Choose(Bits(a), Bits(b), Bits(mask));
  }

  lemma Choose(a: Cell, b: Cell, choice: Cell)
    ensures Or(And(a, choice), And(b, Complement(choice))) == Merged(a, b, choice)
  {
  }

  lemma MaskMergeMeans(o: Operands)
    ensures Bits(Reference(MaskMerge, o)) == Meaning(MaskMerge, Seen(o))
  {
    hide Nat, Lsb, RotateLeft, RotL, Merge, Merged, MaskAmount;
    MergedBits(o.a, o.b, RotateLeft(o.a, MaskAmount(o.step)));
    MaskBits(o.a, o.step);
  }

  lemma MaskBits(a: u32, step: u32)
    ensures Bits(RotateLeft(a, MaskAmount(step))) == RotL(Bits(a), Nat(step) + 3)
  {
    hide Nat, Lsb, RotateLeft, RotL, Amount, Plus3;
    RotateAmount(a, Plus3(step));
    PlusNat(step);
    ModDivides(Nat(step) + 3);
    RotLMod(Bits(a), Nat(Plus3(step)), Nat(step) + 3);
  }

  lemma SelectBits(a: u32, b: u32)
    ensures Bits(Select(a, b)) == if Nat(a) < Nat(b) then Rep(Nat(a) + 0x1020_4081) else Rep(Nat(b) - 0x0102_0408)
  {
    hide Nat, Word, Add, Sub, Lsb, Rep;
    NatWord(0x1020_4081);
    NatWord(0x0102_0408);
    AddBits(a, Word(0x1020_4081));
    SubBits(b, Word(0x0102_0408));
  }

  lemma CompareSelectMeans(o: Operands)
    ensures Bits(Reference(CompareSelect, o)) == Meaning(CompareSelect, Seen(o))
  {
    NatIs(o.a);
    NatIs(o.b);
    hide Nat, Lsb, Select, Rep, Value;
    SelectBits(o.a, o.b);
  }

  lemma BytesOf(x: u32)
    ensures var s := Crc.LittleEndian(x);
            && Lsb(LowByte(s[0]), 8) == Bits(x)[..8] && Lsb(LowByte(s[1]), 8) == Bits(x)[8..16]
            && Lsb(LowByte(s[2]), 8) == Bits(x)[16..24] && Lsb(LowByte(s[3]), 8) == Bits(x)[24..]
  {
    Crc.LittleEndianBits(x);
    hide Lsb, LowByte, Crc.LittleEndian;
    var s := Crc.LittleEndian(x);
    assert s == [s[0], s[1], s[2], s[3]];
    Crc.FourBytes(s[0], s[1], s[2], s[3]);
    hide Crc.BitsLow;
    FourParts(Lsb(LowByte(s[0]), 8), Lsb(LowByte(s[1]), 8), Lsb(LowByte(s[2]), 8), Lsb(LowByte(s[3]), 8));
  }

  lemma FourParts(p: seq<bool>, q: seq<bool>, r: seq<bool>, s: seq<bool>)
    requires |p| == |q| == |r| == |s| == 8
    ensures var whole := p + (q + (r + (s + [])));
            whole[..8] == p && whole[8..16] == q && whole[16..24] == r && whole[24..] == s
  {
  }

  lemma PackBits(a: u32, b: u32)
    ensures Bits(Pack(a, b)) == Bits(a)[..8] + Bits(b)[..8] + Bits(a)[8..16] + Bits(b)[8..16]
  {
    Cases.PackBytes(a, b);
    hide Pack, Lsb, LowByte, Crc.LittleEndian, Crc.BitsLow;
    BytesOf(a);
    BytesOf(b);
    var (x, y) := (Crc.LittleEndian(a), Crc.LittleEndian(b));
    Crc.LittleEndianBits(Pack(a, b));
    Crc.FourBytes(x[0], y[0], x[1], y[1]);
  }

  lemma BytePackMeans(o: Operands)
    ensures Bits(Reference(BytePack, o)) == Meaning(BytePack, Seen(o))
  {
    hide Pack, Lsb;
    PackBits(o.a, o.b);
  }

  lemma SwapBits(x: u32)
    ensures Bits(SwapBytes(x)) == Bits(x)[24..] + Bits(x)[16..24] + Bits(x)[8..16] + Bits(x)[..8]
  {
    Cases.SwappedBytes(x);
    hide SwapBytes, Lsb, LowByte, Crc.LittleEndian, Crc.BitsLow;
    BytesOf(x);
    var s := Crc.LittleEndian(x);
    Crc.LittleEndianBits(SwapBytes(x));
    Crc.FourBytes(s[3], s[2], s[1], s[0]);
  }

  lemma EndianSwapMeans(o: Operands)
    ensures Bits(Reference(EndianSwap, o)) == Meaning(EndianSwap, Seen(o))
  {
    hide SwapBytes, Lsb, RotateLeft, RotL, Xored;
    XorBits(SwapBytes(o.a), RotateLeft(o.b, 8));
    TurnEight(o.b);
    SwapBits(o.a);
  }

  lemma HalfwordSwapMeans(o: Operands)
    ensures Bits(Reference(HalfwordSwap, o)) == Meaning(HalfwordSwap, Seen(o))
  {
    hide Lsb, RotateLeft, Xored, HighHalf;
    XorBits(RotateLeft(o.a, 16), HighHalf(o.b));
    TurnSixteen(o.a);
    HighHalfBits(o.b);
    HalvesTurn(Bits(o.a));
  }

  lemma HalvesTurn(s: seq<bool>)
    requires |s| == 32
    ensures RotL(s, 16) == s[16..] + s[..16]
  {
  }

  lemma ScatterBits(cell: u32, step: u32)
    ensures Bits(RotateLeft(cell, ScatterAmount(step))) == RotL(Bits(cell), Nat(step) + 1)
  {
    hide Nat, Lsb, RotateLeft, RotL, Amount, Next;
    RotateAmount(cell, Next(step));
    NextNat(step);
    ModDivides(Nat(step) + 1);
    RotLMod(Bits(cell), Nat(Next(step)), Nat(step) + 1);
  }

  lemma ArrayScatterMeans(o: Operands)
    ensures Bits(Reference(ArrayScatter, o)) == Meaning(ArrayScatter, Seen(o))
  {
    hide Nat, Lsb, RotateLeft, RotL, ScatterAmount, Xored;
    XorBits(o.cell, o.b);
    ScatterBits(Xored(o.cell, o.b), o.step);
  }

  lemma {:induction false} SpinMeans(value: u32, b: u32, i: nat, count: nat)
    requires i <= count < MODULUS
    ensures Bits(Spin(value, b, i, count)) == Whirl(Bits(value), Bits(b), i, count)
    decreases count - i
  {
    hide Nat, Word, Lsb, RotateLeft, RotL, Xored, Add, Rep, Value;
    if i < count {
      RepWord(i);
      XorBits(b, Word(i));
      var sum := Add(value, Xored(b, Word(i)));
      AddBits(value, Xored(b, Word(i)));
      NatIs(value);
      NatIs(Xored(b, Word(i)));
      TurnNine(sum);
      SpinMeans(RotateLeft(sum, 3), b, i + 1, count);
    }
  }

  lemma CountedLoopMeans(o: Operands)
    ensures Bits(Reference(CountedLoop, o)) == Meaning(CountedLoop, Seen(o))
  {
    hide Nat, Lsb, Spin, Whirl;
    SpinMeans(o.a, o.b, 0, Turns(o.step));
  }

  lemma LowBitsAre(x: u32)
    ensures Odd(x) == Bits(x)[0] && Odd(Half(x)) == Bits(x)[1]
  {
    hide Odd, Half, Lsb;
    BitsCons(x, 32);
    BitsCons(Half(x), 31);
  }

  lemma TripleBits(b: u32)
    ensures Bits(Mul(b, Word(3))) == Rep(3 * Nat(b))
  {
    hide Nat, Lsb, Word, Mul, Rep;
    NatWord(3);
    MulNat(b, Word(3));
    RepNat(Mul(b, Word(3)), 3 * Nat(b));
  }

  lemma PhiBits(a: u32, b: u32)
    ensures Bits(Phi(a, b)) ==
            if Bits(a)[1] then if Bits(a)[0] then Xor(Rep(3 * Nat(b)), Bits(a)) else Xor(Bits(b), RotL(Bits(a), 5))
            else if Bits(a)[0] then Rep(Nat(b) - Nat(a)) else Rep(Nat(a) + Nat(b))
  {
    LowTwo(a);
    LowBitsAre(a);
    hide Odd, Half, Nat, Lsb, Word, Add, Sub, Mul, Xored, RotateLeft, RotL, Rep;
    AddBits(b, a);
    SubBits(b, a);
    XorBits(b, RotateLeft(a, 5));
    XorBits(Mul(b, Word(3)), a);
    TurnNine(a);
    TripleBits(b);
  }

  lemma SwitchPhiMeans(o: Operands)
    ensures Bits(Reference(SwitchPhi, o)) == Meaning(SwitchPhi, Seen(o))
  {
    NatIs(o.a);
    NatIs(o.b);
    hide Nat, Lsb, Phi, RotL, Rep, Value;
    PhiBits(o.a, o.b);
  }

  lemma EffectsBits(a: u32, b: u32)
    ensures Bits(Effects(a, b)) ==
            if !Bits(b)[0] then Bits(a)
            else if Bits(b)[1] then Xor(Rep(Nat(a) + 3), Rep(0x55aa_55aa)) else Rep(Nat(a) + 3)
  {
    LowTwo(b);
    LowBitsAre(b);
    hide Odd, Half, Nat, Lsb, Word, Add, Xored, Rep;
    NatWord(3);
    AddBits(a, Word(3));
    RepWord(0x55aa_55aa);
    XorBits(Add(a, Word(3)), Word(0x55aa_55aa));
  }

  lemma ShortCircuitMeans(o: Operands)
    ensures Bits(Reference(ShortCircuit, o)) == Meaning(ShortCircuit, Seen(o))
  {
    NatIs(o.a);
    hide Nat, Lsb, Effects, Rep, Value;
    EffectsBits(o.a, o.b);
  }

  lemma PopcountLoopMeans(o: Operands)
    ensures Bits(Reference(PopcountLoop, o)) == Meaning(PopcountLoop, Seen(o))
  {
    hide Lsb, Word, Xored, Rep, Weight;
    BitLoops.PopCountBound(o.a);
    RepWord(BitLoops.PopCount(o.a));
    XorBits(CountOnes(o.a), o.b);
  }

  lemma ReversalBits(x: u32)
    ensures Bits(ReverseBitsOf(x)) == Reversed(Bits(x))
  {
    hide Lsb, ReverseBitsOf, BitLoops.ReverseBits;
    Corpus.ReverseAgrees(x);
    BitLoops.ReverseMapsBits(x);
  }

  lemma ReverseLoopMeans(o: Operands)
    ensures Bits(Reference(ReverseLoop, o)) == Meaning(ReverseLoop, Seen(o))
  {
    hide Lsb, ReverseBitsOf, Xored;
    ReversalBits(o.a);
    XorBits(ReverseBitsOf(o.a), o.b);
  }

  lemma GrayDecodeMeans(o: Operands)
    ensures Bits(Reference(GrayDecode, o)) == Meaning(GrayDecode, Seen(o))
  {
    BitLoops.GrayCascadeIdentity(o.a);
    hide Lsb, BitLoops.GrayCascade, Xored, BitLoops.Cascade, BitLoops.GrayEncode;
    XorBits(o.a, o.b);
  }

  lemma ClampBits(a: u32, b: u32, d: u32)
    ensures (MinBelowMax(a, b);
             Bits(Clamp(d, Min(a, b), Max(a, b))) == Rep(Median(Nat(a), Nat(b), Nat(d))))
  {
    hide Nat, Lsb, Clamp, Min, Max, Rep, Median;
    MinBelowMax(a, b);
    var clamp := Clamp(d, Min(a, b), Max(a, b));
    ClosedForms.ClampIsMedian(a, b, d);
    MiddleOne(Nat(clamp), Nat(a), Nat(b), Nat(d));
    ModWrap(Nat(clamp), MODULUS);
    RepNat(clamp, Nat(clamp));
  }

  lemma MinmaxClampMeans(o: Operands)
    ensures Bits(Reference(MinmaxClamp, o)) == Meaning(MinmaxClamp, Seen(o))
  {
    ClosedForms.MinmaxCloses(o);
    NatIs(o.a);
    NatIs(o.b);
    NatIs(o.d);
    hide Nat, Lsb, Xored, Clamp, Min, Max, Rep, Value, Median, Reference;
    MinBelowMax(o.a, o.b);
    ClampBits(o.a, o.b, o.d);
    XorBits(Clamp(o.d, Min(o.a, o.b), Max(o.a, o.b)), Xored(o.a, o.b));
    XorBits(o.a, o.b);
  }

  lemma MiddleOne(m: nat, x: nat, y: nat, z: nat)
    requires ClosedForms.Middle(m, x, y, z) && (m == x || m == y || m == z)
    ensures m == Median(x, y, z)
  {
  }

  /** The two halves of a 64-bit sum of two words each. */
  function Sum64(o: Operands): nat {
    (Nat(o.d) * MODULUS + Nat(o.a)) + (Nat(o.next) * MODULUS + Nat(o.b))
  }

  lemma SumWide(o: Operands, low: u32, high: u32)
    requires low == Add(o.a, o.b) && high == Add(Add(o.d, o.next), Flag(Less(low, o.a)))
    ensures Nat(high) * MODULUS + Nat(low) == Sum64(o) % (MODULUS * MODULUS)
  {
    hide Nat, Add, Less, Flag;
    ClosedForms.CarryChainIsWide(o.a, o.b, o.d, o.next, low, high);
  }

  lemma HalvesBits(o: Operands, low: u32, high: u32)
    requires low == Add(o.a, o.b) && high == Add(Add(o.d, o.next), Flag(Less(low, o.a)))
    ensures Bits(low) == Rep(Sum64(o)) && Bits(high) == Rep(Sum64(o) / MODULUS)
  {
    hide Nat, Lsb, Add, Less, Flag, Rep, Sum64;
    SumWide(o, low, high);
    WideHalves(Sum64(o), Nat(high), Nat(low));
    RepNat(low, Sum64(o));
    RepNat(high, Sum64(o) / MODULUS);
  }

  lemma CarryChainMeans(o: Operands)
    ensures Bits(Reference(CarryChain, o)) == Meaning(CarryChain, Seen(o))
  {
    NatIs(o.a);
    NatIs(o.b);
    NatIs(o.d);
    NatIs(o.next);
    hide Nat, Lsb, Xored, Add, Less, Flag, Rep, Value;
    var low := Add(o.a, o.b);
    var high := Add(Add(o.d, o.next), Flag(Less(low, o.a)));
    HalvesBits(o, low, high);
    XorBits(low, high);
  }

  lemma WideHalves(wide: nat, high: nat, low: nat)
    requires high < MODULUS && low < MODULUS
    requires high * MODULUS + low == wide % (MODULUS * MODULUS)
    ensures low == wide % MODULUS && high == wide / MODULUS % MODULUS
  {
    var q := wide / (MODULUS * MODULUS);
    assert wide == (q * MODULUS + high) * MODULUS + low;
    DivUnique(wide, MODULUS, q * MODULUS + high, low);
    DivUnique(q * MODULUS + high, MODULUS, q, high);
  }

  lemma HornerLoopMeans(o: Operands)
    ensures Bits(Reference(HornerLoop, o)) == Meaning(HornerLoop, Seen(o))
  {
    NatIs(o.a);
    NatIs(o.b);
    hide Nat, Lsb, LowestSet, Horner, ClosedForms.Polynomial, Rep, Value, OddUp;
    var m := LowestSet(o.b);
    LowestSetNat(o.b);
    ClosedForms.HornerIsPolynomial(o.a, m, COEFFICIENTS);
    ClosedForms.CorpusPolynomial(Nat(o.a), Nat(m));
    RepNat(Horner(o.a, m, COEFFICIENTS), ClosedForms.Degree4(Nat(o.a), Nat(m)));
  }

  // ---------------------------------------------------------------- statements and runs

  /** What every statement stores, bit for bit. */
  lemma StatementMeans(op: Operation, o: Operands)
    ensures Bits(Reference(op, o)) == Meaning(op, Seen(o))
  {
    hide Reference, Meaning, Seen, Lsb;
    match op
    case AddCarry => AddCarryMeans(o);
    case SubBorrow => SubBorrowMeans(o);
    case RotateMix => RotateMixMeans(o);
    case MultiplyLow => MultiplyLowMeans(o);
    case DivideRem => DivideRemMeans(o);
    case MaskMerge => MaskMergeMeans(o);
    case CompareSelect => CompareSelectMeans(o);
    case BytePack => BytePackMeans(o);
    case HalfwordSwap => HalfwordSwapMeans(o);
    case ArrayScatter => ArrayScatterMeans(o);
    case CountedLoop => CountedLoopMeans(o);
    case SwitchPhi => SwitchPhiMeans(o);
    case ShortCircuit => ShortCircuitMeans(o);
    case PopcountLoop => PopcountLoopMeans(o);
    case ReverseLoop => ReverseLoopMeans(o);
    case GrayDecode => GrayDecodeMeans(o);
    case MinmaxClamp => MinmaxClampMeans(o);
    case EndianSwap => EndianSwapMeans(o);
    case CarryChain => CarryChainMeans(o);
    case HornerLoop => HornerLoopMeans(o);
  }

  /** The six registers and eight memory cells, as bits. */
  datatype Board = Board(registers: seq<Cell>, memory: seq<Cell>)

  type Layout = t: Board | |t.registers| == 6 && |t.memory| == 8
    witness Board(seq(6, i => seq(32, j => false)), seq(8, i => seq(32, j => false)))

  function AllBits(words: seq<u32>): (cells: seq<Cell>)
    ensures |cells| == |words| && forall i :: 0 <= i < |words| ==> cells[i] == Bits(words[i])
  {
    seq(|words|, i requires 0 <= i < |words| => Bits(words[i]))
  }

  function Shown(s: Machine): Layout { Board(AllBits(s.registers), AllBits(s.memory)) }

  /** One statement: the destination takes its meaning; array-scatter also adds its right operand to the
      memory cell that the left operand selects modulo eight. */
  function Turned(t: Layout, i: Instruction, position: nat): Layout {
    var (r, index) := (t.registers, Value(t.registers[i.left]) % 8);
    var value := Meaning(i.operation, Inputs(r[i.left], r[i.right], r[i.destination],
                                             r[if i.destination == 5 then 0 else i.destination + 1],
                                             t.memory[index], position));
    Board(r[i.destination := value],
          if i.operation == ArrayScatter then t.memory[index := Xor(t.memory[index], r[i.right])] else t.memory)
  }

  function Played(program: seq<Instruction>, t: Layout, k: nat): Layout
    requires k <= |program|
  {
    if k == 0 then t else Turned(Played(program, t, k - 1), program[k - 1], (k - 1) % MODULUS)
  }

  lemma IndexMeans(x: u32)
    ensures Index(x) == Value(Bits(x)) % 8
  {
    LsbAdd(x, 3, 29);
    SixteenPow();
    hide Lsb, Value;
    ValueLow(Bits(x), 3);
    assert Bits(x)[..3] == Lsb(x, 3);
  }

  lemma AllBitsUpdate(words: seq<u32>, i: nat, x: u32)
    requires i < |words|
    ensures AllBits(words[i := x]) == AllBits(words)[i := Bits(x)]
  {
    hide Lsb;
  }

  /** One operation of the reference run, on bits. */
  lemma StepMeans(s: Machine, i: Instruction, step: u32)
    ensures Shown(Step(s, i, step)) == Turned(Shown(s), i, Nat(step))
  {
    hide Lsb, Nat, Index, Value, Reference, Meaning, Xored, AllBits;
    var o := Reads(s, i, step);
    IndexMeans(o.a);
    StatementMeans(i.operation, o);
    AllBitsUpdate(s.registers, i.destination, Reference(i.operation, o));
    XorBits(o.cell, o.b);
    AllBitsUpdate(s.memory, Index(o.a), Xored(o.cell, o.b));
  }

  lemma {:induction false} PositionNat(k: nat)
    ensures Nat(Position(k)) == k % MODULUS
  {
    hide Nat, Next;
    if k == 0 {
      ZeroNat();
    } else {
      PositionNat(k - 1);
      NextNat(Position(k - 1));
      ModFolds(k - 1, 1);
    }
  }

  lemma ZeroNat()
    ensures Nat(0) == 0
  {
    ZeroWord(32);
    ClosedForms.ValueOfZeros(32);
  }

  /** The whole reference run, on bits: for every program, start and stopping point. */
  lemma {:induction false} RunMeans(program: seq<Instruction>, s: Machine, k: nat)
    requires k <= |program|
    ensures Shown(Run(program, s, k)) == Played(program, Shown(s), k)
  {
    hide Shown, Turned, Step, Nat, Position;
    if k != 0 {
      RunMeans(program, s, k - 1);
      StepMeans(Run(program, s, k - 1), program[k - 1], Position(k - 1));
      PositionNat(k - 1);
    }
  }

  // ---------------------------------------------------------------- whole cases

  /** How a case starts: five words from outside, a multiple of its number, and its inputs masked with its
      rotated number. */
  function Opening(id: nat, kernel: Cell, input: seq<Cell>): Layout
    requires |input| == 16
  {
    Board([kernel, input[(id + 1) % 16], input[(id + 5) % 16], input[(id + 9) % 16], input[(id + 13) % 16],
           Rep(id * 0x9e37_79b9)],
          seq(8, j requires 0 <= j < 8 => Xor(input[j], RotL(Rep(id), j))))
  }

  lemma CastBits(id: nat)
    ensures Bits(Cast(id)) == Rep(id) && Nat(Cast(id)) == id % MODULUS
  {
    hide Word, Nat, Lsb, Digits;
    RepWord(id % MODULUS);
    NatWord(id % MODULUS);
    ModWrap(id % MODULUS, MODULUS);
  }

  lemma LastRegister(id: nat)
    ensures Bits(Mul(Cast(id), Word(0x9e37_79b9))) == Rep(id * 0x9e37_79b9)
  {
    hide Word, Nat, Lsb, Rep, Mul, Cast;
    CastBits(id);
    NatWord(0x9e37_79b9);
    MulNat(Cast(id), Word(0x9e37_79b9));
    ModMulAdd(id, 0x9e37_79b9, 0, MODULUS);
    RepNat(Mul(Cast(id), Word(0x9e37_79b9)), id * 0x9e37_79b9);
  }

  lemma EighthRotation(x: u32, j: nat)
    requires j < 8
    ensures Bits(RotateLeft(x, Position(j))) == RotL(Bits(x), j)
  {
    hide RotateLeft, RotL, Lsb, Nat, Low5, Position;
    RotateBits(x, Position(j));
    Low5Nat(Position(j));
    PositionNat(j);
    ModWrap(j, MODULUS);
    ModWrap(j, 32);
  }

  lemma StartMeans(id: nat, kernel: u32, input: seq<u32>)
    requires |input| == 16
    ensures Shown(Initial(id, kernel, input)) == Opening(id, Bits(kernel), AllBits(input))
  {
    hide RotateLeft, RotL, Lsb, Nat, Word, Rep, Mul, Cast, Position, Xored, Xor;
    LastRegister(id);
    var s := Initial(id, kernel, input);
    forall j | 0 <= j < 8 ensures Bits(s.memory[j]) == Xor(Bits(input[j]), RotL(Rep(id), j)) {
      CastBits(id);
      EighthRotation(Cast(id), j);
      XorBits(input[j], RotateLeft(Cast(id), Position(j)));
    }
    var t := Opening(id, Bits(kernel), AllBits(input));
    assert AllBits(s.memory) == t.memory;
    assert AllBits(s.registers) == t.registers;
  }

  /** The digest: shifts by five and two, and each word in turn. */
  function Folded(d: Cell, words: seq<Cell>): Cell
    decreases |words|
  {
    if words == [] then d
    else Folded(Xor(Xor(Zeros(5) + d[..27], d[2..] + Zeros(2)), words[0]), words[1..])
  }

  lemma ShiftMore(s: seq<bool>, k: nat)
    requires |s| == 32 && 0 < k <= 32
    ensures Zeros(k - 1) + ([false] + s[..31])[..33 - k] == Zeros(k) + s[..32 - k]
  {
  }

  lemma {:induction false} LeftBits(x: u32, k: nat)
    requires k <= 32
    ensures Bits(Left(x, k)) == Zeros(k) + Bits(x)[..32 - k]
    decreases k
  {
    hide Double, Lsb, Top;
    if k == 0 {
      assert Zeros(0) + Bits(x)[..32] == Bits(x);
    } else {
      DoubleBits(x);
      LeftBits(Double(x), k - 1);
      ShiftMore(Bits(x), k);
    }
  }

  lemma MixBits(d: u32)
    ensures Bits(Mixing.Mix(d)) == Xor(Zeros(5) + Bits(d)[..27], Bits(d)[2..] + Zeros(2))
  {
    MixShifts(d);
    hide Mixing.Mix, Left, Right, Lsb, IsXor;
    LeftBits(d, 5);
    BitLoops.RightBits(d, 2);
    LsbXor(Left(d, 5), Right(d, 2), Mixing.Mix(d), 32);
  }

  lemma MixShifts(d: u32)
    ensures IsXor(Left(d, 5), Right(d, 2), Mixing.Mix(d))
  {
    FiveLeft(d);
    BitLoops.RightTwo(d);
    hide Left, Right;
  }

  lemma FiveLeft(d: u32)
    ensures Left(d, 5) == d << 5
  {
    DoubleFive(d);
    hide Double;
    assert Left(d, 5) == Double(Double(Double(Double(Double(d)))));
  }

  lemma {:induction false} FoldMeans(d: u32, words: seq<u32>)
    ensures Bits(Digest.Fold(d, words)) == Folded(Bits(d), AllBits(words))
    decreases |words|
  {
    hide Mixing.Mix, Lsb, Xored, Xor, AllBits;
    if words != [] {
      var next := Xored(Mixing.Mix(d), words[0]);
      MixBits(d);
      XorBits(Mixing.Mix(d), words[0]);
      FoldMeans(next, words[1..]);
      assert AllBits(words)[1..] == AllBits(words[1..]);
    }
  }

  /** What is returned, for each selection. */
  function Observed(t: Layout, m: Selection): Cell {
    var seed := Bits(0x9e37_79b9);
    match m
    case RegisterWord(i) => t.registers[i]
    case MemoryWord(j) => t.memory[j]
    case RegisterDigest => Folded(seed, t.registers)
    case MemoryDigest => Folded(seed, t.memory)
    case Combined => Xor(Folded(seed, t.registers), RotL(Folded(seed, t.memory), 11))
  }

  lemma ObserveMeans(s: Machine, m: Selection)
    ensures Bits(Observe(s, m)) == Observed(Shown(s), m)
  {
    hide Lsb, Digest.Fold, Folded, Xored, Xor, AllBits, RotateLeft, RotL;
    FoldMeans(0x9e37_79b9, s.registers);
    FoldMeans(0x9e37_79b9, s.memory);
    TurnNine(Digest.Digest(s.memory));
    XorBits(Digest.Digest(s.registers), RotateLeft(Digest.Digest(s.memory), 11));
  }

  /** What a case returns, bit for bit, from its kernel's value, its inputs and its program: the value that
      `Corpus.RemuCase` computes. */
  lemma CaseMeans(program: seq<Instruction>, id: nat, kernel: u32, input: seq<u32>, stop: nat, m: Selection)
    requires |input| == 16 && stop <= |program|
    ensures Bits(Observe(Run(program, Initial(id, kernel, input), stop), m))
            == Observed(Played(program, Opening(id, Bits(kernel), AllBits(input)), stop), m)
  {
    hide Lsb, Run, Initial, Observe, Observed, Played, Opening, Shown, AllBits;
    StartMeans(id, kernel, input);
    RunMeans(program, Initial(id, kernel, input), stop);
    ObserveMeans(Run(program, Initial(id, kernel, input), stop), m);
  }

  /** A halfword's bits fill the lower half. */
  lemma WidenBits(x: u16)
    ensures Bits(Cases.Widen(x)) == Reversed(Msb16(x, 16)) + Zeros(16)
  {
    WidenIs(x);
    hide Lsb, Msb16, Cases.Widen, HighHalf, Truncate16;
    var w := Cases.Widen(x);
    Checksums.HalfwordBits(w);
    HighHalfBits(w);
    ZeroBits();
    var b := Bits(w);
    assert (Zeros(16) + b[16..])[16..] == Zeros(32)[16..];
    assert b[16..] == Zeros(16) && Reversed(Reversed(b[..16])) == b[..16];
    assert b == b[..16] + b[16..];
  }

  lemma WidenIs(x: u16)
    ensures Truncate16(Cases.Widen(x)) == x && HighHalf(Cases.Widen(x)) == 0
  {
  }
}
