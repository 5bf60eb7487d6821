/** The corpus generator: for every operation of a case it runs a reference computation in Rust and
    prints the C statement that must compute the same. This module is the reference side. */
module Casegen {
  import opened WordOps
  import opened Words
  import opened Numbers
  import opened Unsigned
  import opened Rotations
  import opened BitLoops

  datatype Operation =
    | AddCarry | SubBorrow | RotateMix | MultiplyLow | DivideRem
    | MaskMerge | CompareSelect | BytePack | HalfwordSwap | ArrayScatter
    | CountedLoop | SwitchPhi | ShortCircuit | PopcountLoop | ReverseLoop
    | GrayDecode | MinmaxClamp | EndianSwap | CarryChain | HornerLoop

  type Register = i: nat | i < 6

  datatype Instruction = Instruction(operation: Operation, destination: Register, left: Register, right: Register)

  datatype State = State(registers: seq<u32>, memory: seq<u32>)

  type Machine = s: State | |s.registers| == 6 && |s.memory| == 8
    witness State([0, 0, 0, 0, 0, 0], [0, 0, 0, 0, 0, 0, 0, 0])

  /** What one statement reads: its two operands, the destination, the register after the
      destination, the memory cell that the left operand selects, and its position. */
  datatype Operands = Operands(a: u32, b: u32, d: u32, next: u32, cell: u32, step: u32)

  function Flag(condition: bool): u32 { if condition then 1 else 0 }

  /** `x & 7` as an index. */
  function Index(x: u32): (i: nat)
    ensures i < 8
  {
    Value(Lsb(x, 3))
  }

  /** Rust's `min` and `max`: of two equal words, `min` keeps the first and `max` the second. */
  function Min(a: u32, b: u32): u32 { if Less(b, a) then b else a }

  function Max(a: u32, b: u32): u32 { if Less(b, a) then a else b }

  /** Rust's `clamp`, which panics unless the bounds are in order. */
  function Clamp(x: u32, low: u32, high: u32): u32
    requires !Less(high, low)
  {
    Min(Max(x, low), high)
  }

  lemma MinBelowMax(a: u32, b: u32)
    ensures !Less(Max(a, b), Min(a, b))
  {
    hide Nat;
  }

  function Divisor(b: u32): u32 { LowestSet(LowSixteen(b)) }

  lemma DivisorIsNonzero(b: u32)
    ensures Nat(Divisor(b)) != 0
  {
    DivisorIsOdd(b);
    OddIsNonzero(Divisor(b));
  }

  lemma DivisorIsOdd(b: u32)
    ensures Odd(Divisor(b))
  {
    LowestSetIs(LowSixteen(b));
  }

  /** Rust's `count_ones` and `reverse_bits`. */
  function CountOnes(x: u32): u32 {
    PopCountBound(x);
    Word(PopCount(x))
  }

  function ReverseBitsOf(x: u32): u32 {
    Pow2Is();
    Word(Value(Reversed(Bits(x))))
  }

  /** The counted loop from turn `i` on. */
  function Spin(value: u32, b: u32, i: nat, count: nat): u32
    requires i <= count < MODULUS
    decreases count - i
  {
    if i == count then value else Spin(RotateLeft(Add(value, Xored(b, Word(i))), 3), b, i + 1, count)
  }

  function Turns(step: u32): (n: nat)
    ensures n < 8
  {
    3 + Nat(step) % 5
  }

  type Literal = n: nat | n < MODULUS

  function Horner(value: u32, m: u32, coefficients: seq<Literal>): u32
    decreases |coefficients|
  {
    if coefficients == [] then value
    else Horner(Add(Mul(value, m), Word(coefficients[0])), m, coefficients[1..])
  }

  const COEFFICIENTS: seq<Literal> := [3, 5, 17, 257]

  function Divided(a: u32, divisor: u32): u32
    requires Nat(divisor) != 0
  {
    Xored(Quotient(a, divisor), RotateLeft(Remainder(a, divisor), 9))
  }

  function Merge(a: u32, b: u32, mask: u32): u32 { (a & mask) | (b & !mask) }

  function Pack(a: u32, b: u32): u32 {
    (a & 0xff) | ((b & 0xff) << 8) | (((a >> 8) & 0xff) << 16) | (((b >> 8) & 0xff) << 24)
  }

  function Select(a: u32, b: u32): u32 {
    if Less(a, b) then Add(a, Word(0x1020_4081)) else Sub(b, Word(0x0102_0408))
  }

  function Phi(a: u32, b: u32): u32 {
    if a & 3 == 0 then Add(b, a)
    else if a & 3 == 1 then Sub(b, a)
    else if a & 3 == 2 then Xored(b, RotateLeft(a, 5))
    else Xored(Mul(b, Word(3)), a)
  }

  function Effects(a: u32, b: u32): u32 {
    if b & 1 != 0 then
      var effects := Add(a, Word(3));
      if b & 2 != 0 then Xored(effects, Word(0x55aa_55aa)) else effects
    else a
  }

  /** A rotation amount: `x & 31`. */
  function Amount(x: u32): u32 { x & 31 }

  function MaskAmount(step: u32): u32 { Amount(Plus3(step)) }

  function ScatterAmount(step: u32): u32 { Amount(Next(step)) }

  /** The value that the reference computation stores in the destination. */
  function Reference(op: Operation, o: Operands): u32 {
    match op
    case AddCarry => var sum := Add(o.a, o.b); Xored(sum, Flag(Less(sum, o.a)))
    case SubBorrow => Xored(Sub(o.a, o.b), Flag(Less(o.a, o.b)))
    case RotateMix =>
      Xored(RotateLeft(o.a, Amount(o.b)), RotateRight(o.b, Amount(Plus7(Amount(o.b)))))
    case MultiplyLow => Add(Mul(o.a, LowestSet(o.b)), Word(0x9e37_79b9))
    case DivideRem => DivisorIsNonzero(o.b); Divided(o.a, Divisor(o.b))
    case MaskMerge => Merge(o.a, o.b, RotateLeft(o.a, MaskAmount(o.step)))
    case CompareSelect => Select(o.a, o.b)
    case BytePack => Pack(o.a, o.b)
    case HalfwordSwap => Xored(RotateLeft(o.a, 16), HighHalf(o.b))
    case ArrayScatter => RotateLeft(Xored(o.cell, o.b), ScatterAmount(o.step))
    case CountedLoop => Spin(o.a, o.b, 0, Turns(o.step))
    case SwitchPhi => Phi(o.a, o.b)
    case ShortCircuit => Effects(o.a, o.b)
    case PopcountLoop => Xored(CountOnes(o.a), o.b)
    case ReverseLoop => Xored(ReverseBitsOf(o.a), o.b)
    case GrayDecode => Xored(GrayCascade(o.a), o.b)
    case MinmaxClamp =>
      MinBelowMax(o.a, o.b);
      var low, high := Min(o.a, o.b), Max(o.a, o.b);
      Xored(Xored(Clamp(o.d, low, high), low), high)
    case EndianSwap => Xored(SwapBytes(o.a), RotateLeft(o.b, 8))
    case CarryChain =>
      var low := Add(o.a, o.b);
      var high := Add(Add(o.d, o.next), Flag(Less(low, o.a)));
      Xored(low, high)
    case HornerLoop => Horner(o.a, LowestSet(o.b), COEFFICIENTS)
  }

  function Reads(s: Machine, i: Instruction, step: u32): Operands {
    var r := s.registers;
    Operands(r[i.left], r[i.right], r[i.destination], r[(i.destination + 1) % 6],
             s.memory[Index(r[i.left])], step)
  }

  /** The state after a statement that assigns `value`. */
  function Store(s: Machine, i: Instruction, o: Operands, value: u32): Machine {
    State(s.registers[i.destination := value],
          if i.operation == ArrayScatter then s.memory[Index(o.a) := Xored(o.cell, o.b)] else s.memory)
  }

  /** One operation of the reference run. */
  function Step(s: Machine, i: Instruction, step: u32): Machine {
    var o := Reads(s, i, step);
    Store(s, i, o, Reference(i.operation, o))
  }

  /** The position of an operation, as the u32 it is cast to. */
  function Position(k: nat): u32 { if k == 0 then 0 else Next(Position(k - 1)) }

  /** The first `k` operations of a program. */
  function Run(program: seq<Instruction>, s: Machine, k: nat): Machine
    requires k <= |program|
  {
    if k == 0 then s else Step(Run(program, s, k - 1), program[k - 1], Position(k - 1))
  }
}
