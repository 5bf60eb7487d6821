/** The generated cases: the C statements that the generator prints, run on the case's local arrays,
    against the generator's own reference run. */
module Corpus {
  import opened WordOps
  import opened Words
  import opened Numbers
  import opened Unsigned
  import opened Rotations
  import opened BitLoops
  import opened Casegen
  import Digest

  // ---------------------------------------------------------------- what can be printed

  /** The printed shift amounts that depend on the position of the statement. The amounts that do not
      are obligations where the statements are executed below. */
  function PrintedShifts(op: Operation, step: u32): seq<u32> {
    match op
    case MaskMerge => [MaskAmount(step), 32 - MaskAmount(step)]
    case ArrayScatter => [step + 1, 31 - step]
    case _ => []
  }

  /** Every printed amount is one for which C defines the shift. */
  predicate Printable(op: Operation, step: u32) {
    forall n :: n in PrintedShifts(op, step) ==> Defined(n)
  }

  lemma MaskAmounts(step: u32)
    ensures Defined(MaskAmount(step))
    ensures Defined(32 - MaskAmount(step)) <==> MaskAmount(step) != 0
  {}

  lemma ScatterDefined(step: u32)
    ensures Defined(step + 1) && Defined(31 - step) <==> step < 31
  {
    ScatterAmounts(step);
  }

  lemma PairDefined(x: u32, y: u32)
    ensures (forall n :: n in [x, y] ==> Defined(n)) <==> Defined(x) && Defined(y)
  {
    hide Defined;
    assert [x, y][0] in [x, y] && [x, y][1] in [x, y];
  }

  /** Exactly two forms depend on their position: mask-merge fails where its rotation amount is
      zero, array-scatter from position 31 on. */
  lemma PrintableIff(op: Operation, step: u32)
    ensures Printable(op, step) <==>
            && (op == MaskMerge ==> MaskAmount(step) != 0)
            && (op == ArrayScatter ==> step < 31)
  {
    MaskAmounts(step);
    ScatterDefined(step);
    hide Defined, MaskAmount;
    match op
    case MaskMerge => PairDefined(MaskAmount(step), 32 - MaskAmount(step));
    case ArrayScatter => PairDefined(step + 1, 31 - step);
    case _ =>
  }

  lemma Positions()
    ensures Position(0) == 0 && Position(1) == 1 && Position(2) == 2 && Position(3) == 3
    ensures Position(4) == 4 && Position(5) == 5 && Position(6) == 6 && Position(7) == 7
    ensures Position(8) == 8 && Position(9) == 9 && Position(10) == 10 && Position(11) == 11
    ensures Position(12) == 12 && Position(13) == 13 && Position(14) == 14 && Position(15) == 15
    ensures Position(16) == 16 && Position(17) == 17 && Position(18) == 18 && Position(19) == 19
    ensures Position(20) == 20 && Position(21) == 21 && Position(22) == 22 && Position(23) == 23
    ensures Position(24) == 24 && Position(25) == 25 && Position(26) == 26 && Position(27) == 27
    ensures Position(28) == 28 && Position(29) == 29
  {
    assert Position(8) == 8 && Position(16) == 16 && Position(24) == 24;
  }

  lemma EarlyPositions(k: nat)
    requires k < 29
    ensures Position(k) < 29
  {
    Positions();
    assert k in {0, 1, 2, 3, 4, 5, 6, 7, 8, 9, 10, 11, 12, 13, 14} || k in {15, 16, 17, 18, 19, 20, 21, 22, 23, 24, 25, 26, 27, 28};
  }

  lemma EarlyAmounts(step: u32)
    requires step < 29
    ensures MaskAmount(step) != 0 && step < 31
  {}

  /** What every form prints is defined C in each program of up to 29 statements, and in none longer:
      at position 29 mask-merge would shift by the word width. A case has twelve. */
  lemma PrintableBound(n: nat)
    ensures (forall op, k :: 0 <= k < n ==> Printable(op, Position(k))) <==> n <= 29
  {
    hide Printable, Position, MaskAmount;
    forall op, k: nat | k < 29 ensures Printable(op, Position(k)) {
      EarlyPositions(k);
      EarlyAmounts(Position(k));
      PrintableIff(op, Position(k));
    }
    if n > 29 {
      LateAmount();
      PrintableIff(MaskMerge, Position(29));
      assert !Printable(MaskMerge, Position(29));
    }
  }

  lemma LateAmount()
    ensures MaskAmount(Position(29)) == 0
  {
    Positions();
  }

  // ---------------------------------------------------------------- the loops of the statements

  method CountedForm(a: u32, b: u32, count: nat) returns (value: u32)
    requires count < MODULUS
    ensures value == Spin(a, b, 0, count)
  {
    hide Word, Add, RotateLeft, Shl, Shr;
    value := a;
    var i := 0;
    while i < count
      invariant 0 <= i <= count
      invariant Spin(value, b, i, count) == Spin(a, b, 0, count)
    {
      value := Add(value, Xored(b, Word(i)));
      ConstantRotations(value);
      value := Shl(value, 3) | Shr(value, 29);
      i := i + 1;
    }
  }

  method HornerForm(a: u32, m: u32) returns (polynomial: u32)
    ensures polynomial == Horner(a, m, COEFFICIENTS)
  {
    hide Word, Add, Mul;
    polynomial := a;
    var i := 0;
    while i < |COEFFICIENTS|
      invariant 0 <= i <= |COEFFICIENTS|
      invariant Horner(polynomial, m, COEFFICIENTS[i..]) == Horner(a, m, COEFFICIENTS)
    {
      assert COEFFICIENTS[i..][1..] == COEFFICIENTS[i + 1..];
      polynomial := Add(Mul(polynomial, m), Word(COEFFICIENTS[i]));
      i := i + 1;
    }
  }

  /** The reversal loop computes what Rust's `reverse_bits` denotes. */
  lemma ReverseAgrees(x: u32)
    ensures ReverseBits(x) == ReverseBitsOf(x)
  {
    hide Bits, ReverseBits;
    ReverseMapsBits(x);
    WordNat(ReverseBits(x));
  }

  // ---------------------------------------------------------------- one statement

  /** The forms whose statements carry, compare or divide. */
  predicate IsArithmetic(op: Operation) {
    op in {AddCarry, SubBorrow, MultiplyLow, DivideRem, CompareSelect, MinmaxClamp, CarryChain, HornerLoop}
  }

  method ArithmeticStatement(op: Operation, o: Operands) returns (value: u32)
    requires IsArithmetic(op)
    ensures value == Reference(op, o)
  {
    hide Word, Nat, Add, Sub, Mul, Less, Quotient, Remainder, RotateLeft, RotateRight, Printable, Xored;
    hide Horner, Spin, CountOnes, ReverseBitsOf, GrayCascade, SwapBytes, MaskAmount, ScatterAmount, Amount;
    hide Merge, Pack, Divided, Divisor, HighHalf, LowestSet, Turns, Flag, Phi, Effects, Select, Min, Max, Clamp;
    var a, b := o.a, o.b;
    match op
    case AddCarry =>
      value := SumForm(a, b);
    case SubBorrow =>
      value := DifferenceForm(a, b);
    case MultiplyLow =>
      value := ProductForm(a, b);
    case DivideRem =>
      value := DivideForm(a, b);
    case CompareSelect =>
      value := SelectForm(a, b);
    case MinmaxClamp =>
      value := MinmaxForm(a, b, o.d);
    case CarryChain =>
      value := CarryForm(a, b, o.d, o.next);
    case HornerLoop =>
      value := HornerForm(a, LowestSet(b));
  }

  method BitwiseStatement(op: Operation, o: Operands) returns (value: u32)
    requires Printable(op, o.step) && !IsArithmetic(op)
    ensures value == Reference(op, o)
  {
    hide Word, Nat, Add, Sub, Mul, Less, Quotient, Remainder, RotateLeft, RotateRight, Printable, Xored;
    hide Horner, Spin, CountOnes, ReverseBitsOf, GrayCascade, SwapBytes, MaskAmount, ScatterAmount, Amount;
    hide Merge, Pack, Divided, Divisor, HighHalf, LowestSet, Turns, Flag, Phi, Effects, Select, Min, Max, Clamp;
    var a, b := o.a, o.b;
    match op
    case RotateMix =>
      value := RotateMixForm(a, b);
    case MaskMerge =>
      value := MaskMergeForm(a, b, o.step);
    case BytePack =>
      value := PackForm(a, b);
    case HalfwordSwap =>
      value := HalfwordForm(a, b);
    case ArrayScatter =>
      value := ScatterForm(Xored(o.cell, b), o.step);
    case CountedLoop =>
      value := CountedForm(a, b, Turns(o.step));
    case SwitchPhi =>
      value := SwitchForm(a, b);
    case ShortCircuit =>
      value := ShortCircuitForm(a, b);
    case PopcountLoop =>
      var count := PopulationForm(a);
      value := Xored(count, b);
    case ReverseLoop =>
      var reversed := BitLoops.ReverseLoop(a);
      ReverseAgrees(a);
      value := Xored(reversed, b);
    case GrayDecode =>
      var gray := GrayForm(a);
      value := Xored(gray, b);
    case EndianSwap =>
      value := EndianForm(a, b);
  }

  /** The value that the printed C statement assigns to its destination, computed as printed. */
  method Statement(op: Operation, o: Operands) returns (value: u32)
    requires Printable(op, o.step)
    ensures value == Reference(op, o)
  {
    hide Printable, Reference;
    if IsArithmetic(op) {
      value := ArithmeticStatement(op, o);
    } else {
      value := BitwiseStatement(op, o);
    }
  }

  method RotateMixForm(a: u32, b: u32) returns (value: u32)
    ensures value == Xored(RotateLeft(a, Amount(b)), RotateRight(b, Amount(Plus7(Amount(b)))))
  {
    var shift := Amount(b);
    var back := Amount(shift + 7);
    AmountDefined(b);
    AmountDefined(shift + 7);
    hide RotateLeft, RotateRight, GuardedLeft, GuardedRight, Amount, Xored, Defined;
    GuardedIs(a, shift);
    GuardedIs(b, back);
    value := Xored(GuardedLeft(a, shift), GuardedRight(b, back));
  }

  lemma AmountDefined(x: u32)
    ensures Defined(Amount(x))
  {
    AmountFits(x);
  }

  method SumForm(a: u32, b: u32) returns (value: u32)
    ensures value == Xored(Add(a, b), Flag(Less(Add(a, b), a)))
  {
    hide *;
    var sum := Add(a, b);
    value := Xored(sum, Flag(Less(sum, a)));
  }

  method DifferenceForm(a: u32, b: u32) returns (value: u32)
    ensures value == Xored(Sub(a, b), Flag(Less(a, b)))
  {
    hide *;
    var diff := Sub(a, b);
    value := Xored(diff, Flag(Less(a, b)));
  }

  method ProductForm(a: u32, b: u32) returns (value: u32)
    ensures value == Add(Mul(a, LowestSet(b)), Word(0x9e37_79b9))
  {
    hide Add, Mul, Word, LowestSet;
    value := Add(Mul(a, LowestSet(b)), Word(0x9e37_79b9));
  }

  method CarryForm(a: u32, b: u32, d: u32, next: u32) returns (value: u32)
    ensures value == Xored(Add(a, b), Add(Add(d, next), Flag(Less(Add(a, b), a))))
  {
    hide *;
    var low := Add(a, b);
    var carry := Flag(Less(low, a));
    var high := Add(Add(d, next), carry);
    value := Xored(low, high);
  }

  method DivideForm(a: u32, b: u32) returns (value: u32)
    ensures value == (DivisorIsNonzero(b); Divided(a, Divisor(b)))
  {
    DivisorIsNonzero(b);
    hide Word, Nat, Quotient, Remainder, RotateLeft, Divisor, Xored, Shl, Shr;
    var divisor := Divisor(b);
    var rem := Remainder(a, divisor);
    ConstantRotations(rem);
    value := Xored(Quotient(a, divisor), Shl(rem, 9) | Shr(rem, 23));
  }

  method MaskMergeForm(a: u32, b: u32, step: u32) returns (value: u32)
    requires Printable(MaskMerge, step)
    ensures value == Merge(a, b, RotateLeft(a, MaskAmount(step)))
  {
    hide RotateLeft, MaskAmount, EmittedLeft, Merge, Printable;
    MaskIsPositive(step);
    var amount := MaskAmount(step);
    EmittedLeftIs(a, amount);
    value := Merge(a, b, EmittedLeft(a, amount));
  }

  lemma MaskIsPositive(step: u32)
    requires Printable(MaskMerge, step)
    ensures 0 < MaskAmount(step) < 32
  {
    PrintableIff(MaskMerge, step);
    hide Printable;
    AmountFits(step + 3);
    NonzeroIsPositive(MaskAmount(step));
  }

  method SelectForm(a: u32, b: u32) returns (value: u32)
    ensures value == Select(a, b)
  {
    hide Word, Nat, Add, Sub;
    value := if Less(a, b) then Add(a, Word(0x1020_4081)) else Sub(b, Word(0x0102_0408));
  }

  method PackForm(a: u32, b: u32) returns (value: u32)
    ensures value == Pack(a, b)
  {
    value := (a & 0xff) | Shl(b & 0xff, 8) | Shl(Shr(a, 8) & 0xff, 16) | Shl(Shr(b, 8) & 0xff, 24);
  }

  method GrayForm(a: u32) returns (gray: u32)
    ensures gray == GrayCascade(a)
  {
    hide Xored, Shr, Ripple1, Ripple2, Ripple4, Ripple8, Ripple16;
    RipplesPrinted(a);
    gray := Xored(a, Shr(a, 1));
    RipplesPrinted(gray);
    gray := Xored(gray, Shr(gray, 1));
    RipplesPrinted(gray);
    gray := Xored(gray, Shr(gray, 2));
    RipplesPrinted(gray);
    gray := Xored(gray, Shr(gray, 4));
    RipplesPrinted(gray);
    gray := Xored(gray, Shr(gray, 8));
    RipplesPrinted(gray);
    gray := Xored(gray, Shr(gray, 16));
  }

  /** Three C conditional expressions against Rust's `min`, `max` and `clamp`. */
  method MinmaxForm(a: u32, b: u32, d: u32) returns (value: u32)
    ensures value == (MinBelowMax(a, b); Xored(Xored(Clamp(d, Min(a, b), Max(a, b)), Min(a, b)), Max(a, b)))
  {
    var low := if Less(a, b) then a else b;
    var high := if Less(b, a) then a else b;
    var clamp := if Less(d, low) then low else if Less(high, d) then high else d;
    TernariesAgree(a, b, d, low, high, clamp);
    value := Xored(Xored(clamp, low), high);
  }

  lemma SameWord(x: u32, y: u32)
    requires Nat(x) == Nat(y)
    ensures x == y
  {
    WordNat(x);
    WordNat(y);
  }

  lemma TernariesAgree(a: u32, b: u32, d: u32, low: u32, high: u32, clamp: u32)
    requires low == if Less(a, b) then a else b
    requires high == if Less(b, a) then a else b
    requires clamp == if Less(d, low) then low else if Less(high, d) then high else d
    ensures low == Min(a, b) && high == Max(a, b) && !Less(high, low) && clamp == Clamp(d, low, high)
  {
    hide Nat, Word;
    if Nat(a) == Nat(b) {
      SameWord(a, b);
    }
    if Nat(d) == Nat(low) {
      SameWord(d, low);
    }
    if Nat(d) == Nat(high) {
      SameWord(d, high);
    }
  }

  method HalfwordForm(a: u32, b: u32) returns (value: u32)
    ensures value == Xored(RotateLeft(a, 16), HighHalf(b))
  {
    ConstantRotations(a);
    hide RotateLeft, Xored, Shl, Shr;
    value := Xored(Shl(a, 16) | Shr(a, 16), HighHalf(b));
  }

  method ScatterForm(cell: u32, step: u32) returns (value: u32)
    requires Printable(ArrayScatter, step)
    ensures value == RotateLeft(cell, ScatterAmount(step))
  {
    PrintableIff(ArrayScatter, step);
    hide Printable;
    ScatterRotates(cell, step);
    value := Shl(cell, step + 1) | Shr(cell, 31 - step);
  }

  method SwitchForm(a: u32, b: u32) returns (value: u32)
    ensures value == Phi(a, b)
  {
    ConstantRotations(a);
    hide Word, Add, Sub, Mul, RotateLeft, Xored, Shl, Shr;
    if a & 3 == 0 {
      value := Add(b, a);
    } else if a & 3 == 1 {
      value := Sub(b, a);
    } else if a & 3 == 2 {
      value := Xored(b, Shl(a, 5) | Shr(a, 27));
    } else {
      value := Xored(Mul(b, Word(3)), a);
    }
  }

  method ShortCircuitForm(a: u32, b: u32) returns (effects: u32)
    ensures effects == Effects(a, b)
  {
    hide Word, Add, Xored;
    effects := a;
    if b & 1 != 0 {
      effects := Add(effects, Word(3));
      if b & 2 != 0 {
        effects := Xored(effects, Word(0x55aa_55aa));
      }
    }
  }

  method PopulationForm(a: u32) returns (count: u32)
    ensures count == CountOnes(a)
  {
    hide PopCount, Word;
    var turns;
    count, turns := PopCountLoop(a);
  }

  method EndianForm(a: u32, b: u32) returns (value: u32)
    ensures value == Xored(SwapBytes(a), RotateLeft(b, 8))
  {
    SwapIsEmitted(a);
    ConstantRotations(b);
    hide SwapBytes, RotateLeft, EmittedSwap, Xored, Shl, Shr;
    value := Xored(EmittedSwap(a), Shl(b, 8) | Shr(b, 24));
  }

  // ---------------------------------------------------------------- a whole case

  function Snapshot(r: array<u32>, memory: array<u32>): Machine
    requires r.Length == 6 && memory.Length == 8
    reads r, memory
  {
    State(r[..], memory[..])
  }

  /** One printed statement on the case's local arrays, in place. */
  method Execute(i: Instruction, step: u32, r: array<u32>, memory: array<u32>)
    requires r.Length == 6 && memory.Length == 8
    requires Printable(i.operation, step)
    modifies r, memory
    ensures Snapshot(r, memory) == Step(old(Snapshot(r, memory)), i, step)
  {
    hide Printable, Reference, Index, Xored;
    ghost var before := Snapshot(r, memory);
    var index := Index(r[i.left]);
    var o := Operands(r[i.left], r[i.right], r[i.destination], r[(i.destination + 1) % 6], memory[index], step);
    var value := Statement(i.operation, o);
    if i.operation == ArrayScatter {
      memory[index] := Xored(memory[index], r[i.right]);
    }
    r[i.destination] := value;
    assert r[..] == before.registers[i.destination := value];
  }

  /** What the preprocessor selects for a stopped case to return. */
  datatype Choice = RegisterWord(i: Register) | MemoryWord(j: nat) | RegisterDigest | MemoryDigest | Combined

  type Selection = m: Choice | m.MemoryWord? ==> m.j < 8 witness Combined

  function Observe(s: Machine, m: Selection): u32 {
    match m
    case RegisterWord(i) => s.registers[i]
    case MemoryWord(j) => s.memory[j]
    case RegisterDigest => Digest.Digest(s.registers)
    case MemoryDigest => Digest.Digest(s.memory)
    case Combined => Digest.Combine(s.registers, s.memory)
  }

  /** Rust's cast of a case number to u32. */
  function Cast(id: nat): u32 { Word(id % MODULUS) }

  function InitialRegisters(id: nat, kernel: u32, input: seq<u32>): (s: seq<u32>)
    requires |input| == 16
    ensures |s| == 6
  {
    [kernel, input[(id + 1) % 16], input[(id + 5) % 16], input[(id + 9) % 16], input[(id + 13) % 16],
     Mul(Cast(id), Word(0x9e37_79b9))]
  }

  function InitialMemory(id: nat, input: seq<u32>): (s: seq<u32>)
    requires |input| == 16
    ensures |s| == 8
    ensures forall j :: 0 <= j < 8 ==> s[j] == Xored(input[j], RotateLeft(Cast(id), Position(j)))
  {
    seq(8, j requires 0 <= j < 8 => Xored(input[j], RotateLeft(Cast(id), Position(j))))
  }

  /** The state in which every case starts. */
  function Initial(id: nat, kernel: u32, input: seq<u32>): Machine
    requires |input| == 16
  {
    State(InitialRegisters(id, kernel, input), InitialMemory(id, input))
  }

  /** The assignments at the head of a case. */
  method SetUp(id: nat, kernel: u32, input: seq<u32>, r: array<u32>, memory: array<u32>)
    requires |input| == 16 && r.Length == 6 && memory.Length == 8
    modifies r, memory
    ensures Snapshot(r, memory) == Initial(id, kernel, input)
  {
    hide Word, Mul, Cast, RotateLeft, Xored, Position;
    r[0], r[1], r[2] := kernel, input[(id + 1) % 16], input[(id + 5) % 16];
    r[3], r[4] := input[(id + 9) % 16], input[(id + 13) % 16];
    r[5] := Mul(Cast(id), Word(0x9e37_79b9));
    assert r[..] == InitialRegisters(id, kernel, input);
    for j := 0 to 8
      invariant r[..] == InitialRegisters(id, kernel, input)
      invariant forall t :: 0 <= t < j ==> memory[t] == InitialMemory(id, input)[t]
    {
      memory[j] := Xored(input[j], RotateLeft(Cast(id), Position(j)));
    }
    assert memory[..] == InitialMemory(id, input);
  }

  /** A whole case: set up the arrays, run the statements up to the stop, return the selection. The
      final value of an unstopped case is the selection Combined after all statements. */
  method RemuCase(program: seq<Instruction>, id: nat, kernel: u32, input: seq<u32>, stop: nat, m: Selection)
    returns (result: u32)
    requires |input| == 16 && stop <= |program|
    requires forall k :: 0 <= k < stop ==> Printable(program[k].operation, Position(k))
    ensures result == Observe(Run(program, Initial(id, kernel, input), stop), m)
  {
    hide Printable, Step, Initial, Observe;
    ghost var start := Initial(id, kernel, input);
    var r := new u32[6];
    var memory := new u32[8];
    SetUp(id, kernel, input, r, memory);
    var step: u32 := 0;
    for k := 0 to stop
      invariant step == Position(k)
      invariant Snapshot(r, memory) == Run(program, start, k)
    {
      Execute(program[k], step, r, memory);
      step := step + 1;
    }
    result := ReturnSelected(r, memory, m);
  }

  /** The digests are computed by the case's own loops. */
  method ReturnSelected(r: array<u32>, memory: array<u32>, m: Selection) returns (result: u32)
    requires r.Length == 6 && memory.Length == 8
    ensures result == Observe(Snapshot(r, memory), m)
  {
    match m
    case RegisterWord(i) => result := r[i];
    case MemoryWord(j) => result := memory[j];
    case RegisterDigest => result := Digest.DigestLoop(r[..]);
    case MemoryDigest => result := Digest.DigestLoop(memory[..]);
    case Combined =>
      var registers := Digest.DigestLoop(r[..]);
      var rest := Digest.DigestLoop(memory[..]);
      ConstantRotations(rest);
      result := Xored(registers, Shl(rest, 11) | Shr(rest, 21));
  }
}
