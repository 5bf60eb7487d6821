/** Every loop, cascade and carry of the twenty forms, replaced by what it computes: the machine
    with closed forms reaches the same state as the generator's reference after every statement. */
module ClosedForms {
  import opened WordOps
  import opened Words
  import opened Numbers
  import opened Unsigned
  import opened BitLoops
  import opened Mixing
  import opened Casegen

  // ---------------------------------------------------------------- sums with carry

  /** A sum of two words as a number below twice the modulus. */
  function Total(a: u32, b: u32): nat { Nat(a) + Nat(b) }

  lemma AddWraps(a: u32, b: u32)
    ensures Nat(Add(a, b)) == if Total(a, b) < MODULUS then Total(a, b) else Total(a, b) - MODULUS
    ensures Less(Add(a, b), a) <==> Total(a, b) >= MODULUS
  {
    AddNat(a, b);
    hide Nat, Add;
    ModWrap(Total(a, b), MODULUS);
  }

  lemma FlagNat(c: bool)
    ensures Nat(Flag(c)) == if c then 1 else 0
  {
    OneBits(c);
    hide Lsb;
    ValueOfOne(c);
    Pow2Is();
  }

  lemma ValueOfOne(c: bool)
    ensures Value([c] + Zeros(31)) == if c then 1 else 0
  {
    ValueOfZeros(31);
    assert ([c] + Zeros(31))[1..] == Zeros(31);
  }

  lemma {:induction false} ValueOfZeros(n: nat)
    ensures Value(Zeros(n)) == 0
  {
    if n != 0 {
      ValueOfZeros(n - 1);
      assert Zeros(n)[1..] == Zeros(n - 1);
    }
  }

  /** Two words as one 64-bit number. */
  function Wide(high: u32, low: u32): nat { Nat(high) * MODULUS + Nat(low) }

  /** The carry-chain form is one 64-bit addition. */
  lemma CarryChainIsWide(a: u32, b: u32, d: u32, next: u32, low: u32, high: u32)
    requires low == Add(a, b) && high == Add(Add(d, next), Flag(Less(low, a)))
    ensures Wide(high, low) == (Wide(d, a) + Wide(next, b)) % (MODULUS * MODULUS)
  {
    hide Nat, Add, Less, Flag;
    var carry := Less(low, a);
    var middle := Add(d, next);
    FlagNat(carry);
    var c := AddCarries(a, b);
    var e := AddCarries(d, next);
    var f := AddCarries(middle, Flag(carry));
    WideArithmetic(Nat(d), Nat(a), Nat(next), Nat(b), Nat(middle), Nat(low), Nat(high), c, e, f);
  }

  lemma AddCarries(a: u32, b: u32) returns (carry: nat)
    ensures Nat(Add(a, b)) + carry * MODULUS == Nat(a) + Nat(b)
    ensures carry == if Less(Add(a, b), a) then 1 else 0
  {
    hide Nat, Add, Less;
    AddWraps(a, b);
    carry := if Less(Add(a, b), a) then 1 else 0;
  }

  lemma WideArithmetic(d: nat, a: nat, next: nat, b: nat, middle: nat, low: nat, high: nat, c: nat, e: nat, f: nat)
    requires low < MODULUS && high < MODULUS
    requires low + c * MODULUS == a + b
    requires middle + e * MODULUS == d + next
    requires high + f * MODULUS == middle + c
    ensures high * MODULUS + low == ((d * MODULUS + a) + (next * MODULUS + b)) % (MODULUS * MODULUS)
  {
    var sum := (d * MODULUS + a) + (next * MODULUS + b);
    assert sum == (e + f) * (MODULUS * MODULUS) + (high * MODULUS + low);
    DivUnique(sum, MODULUS * MODULUS, e + f, high * MODULUS + low);
  }

  // ---------------------------------------------------------------- clamp

  /** The middle one of three words. */
  predicate IsMedian(m: u32, x: u32, y: u32, z: u32) {
    && (m == x || m == y || m == z)
    && Middle(Nat(m), Nat(x), Nat(y), Nat(z))
  }

  /** At most one of the three numbers is below `m`, and at most one above. */
  predicate Middle(m: nat, x: nat, y: nat, z: nat) {
    && (m <= x || m <= y) && (m <= y || m <= z) && (m <= x || m <= z)
    && (x <= m || y <= m) && (y <= m || z <= m) && (x <= m || z <= m)
  }

  lemma ClampBetween(x: u32, low: u32, high: u32)
    requires !Less(high, low)
    ensures IsMedian(Clamp(x, low, high), low, high, x)
  {
    hide Nat;
  }

  lemma ClampIsMedian(a: u32, b: u32, d: u32)
    ensures (MinBelowMax(a, b); IsMedian(Clamp(d, Min(a, b), Max(a, b)), a, b, d))
  {
    hide Nat, Clamp;
    if Less(b, a) {
      ClampBetween(d, b, a);
      assert Min(a, b) == b && Max(a, b) == a;
    } else {
      ClampBetween(d, a, b);
      assert Min(a, b) == a && Max(a, b) == b;
    }
  }

  lemma MinMaxSum(a: u32, b: u32)
    ensures Xored(Min(a, b), Max(a, b)) == Xored(a, b)
  {
    hide Xored, Nat;
    if Less(b, a) {
      XoredCommutes(a, b);
    }
  }

  // ---------------------------------------------------------------- Horner's rule

  /** The polynomial that the coefficients describe, over the integers. */
  function Polynomial(x: nat, m: nat, coefficients: seq<Literal>): nat
    decreases |coefficients|
  {
    if coefficients == [] then x else Polynomial(x * m + coefficients[0], m, coefficients[1..])
  }

  lemma {:induction false} PolynomialMod(x: nat, y: nat, m: nat, coefficients: seq<Literal>)
    requires x % MODULUS == y % MODULUS
    ensures Polynomial(x, m, coefficients) % MODULUS == Polynomial(y, m, coefficients) % MODULUS
    decreases |coefficients|
  {
    if coefficients != [] {
      var c := coefficients[0];
      ModMulAdd(x, m, c, MODULUS);
      ModMulAdd(y, m, c, MODULUS);
      PolynomialMod(x * m + c, y * m + c, m, coefficients[1..]);
    }
  }

  lemma NextTerm(value: u32, m: u32, c: Literal)
    ensures Nat(Add(Mul(value, m), Word(c))) == (Nat(value) * Nat(m) + c) % MODULUS
  {
    hide Nat, Word, Add, Mul;
    var product := Mul(value, m);
    var y := Nat(value) * Nat(m);
    MulNat(value, m);
    AddNat(product, Word(c));
    NatWord(c);
    ModAdd(y, c, MODULUS);
  }

  /** The Horner loop evaluates its polynomial modulo 2 to the 32, for any coefficients. */
  lemma {:induction false} HornerIsPolynomial(value: u32, m: u32, coefficients: seq<Literal>)
    ensures Nat(Horner(value, m, coefficients)) == Polynomial(Nat(value), Nat(m), coefficients) % MODULUS
    decreases |coefficients|
  {
    hide Nat, Word, Add, Mul;
    if coefficients == [] {
      ModWrap(Nat(value), MODULUS);
    } else {
      var c := coefficients[0];
      var next := Add(Mul(value, m), Word(c));
      var y := Nat(value) * Nat(m) + c;
      NextTerm(value, m, c);
      HornerIsPolynomial(next, m, coefficients[1..]);
      ModWrap(Nat(next), MODULUS);
      PolynomialMod(Nat(next), y, Nat(m), coefficients[1..]);
    }
  }

  /** The four coefficients of the corpus make a polynomial of degree four. */
  function Degree4(x: nat, m: nat): nat {
    x * (m * m * m * m) + 3 * (m * m * m) + 5 * (m * m) + 17 * m + 257
  }

  lemma CorpusPolynomial(x: nat, m: nat)
    ensures Polynomial(x, m, COEFFICIENTS) == Degree4(x, m)
  {
    var x1 := x * m + 3;
    var x2 := x1 * m + 5;
    var x3 := x2 * m + 17;
    assert COEFFICIENTS[1..] == [5, 17, 257] && [5, 17, 257][1..] == [17, 257];
    assert [17, 257][1..] == [257] && [257][1..] == [];
    assert Polynomial(x, m, COEFFICIENTS) == Polynomial(x1, m, [5, 17, 257]);
    assert Polynomial(x1, m, [5, 17, 257]) == Polynomial(x2, m, [17, 257]);
    assert Polynomial(x2, m, [17, 257]) == x3 * m + 257;
    assert x1 * m == x * (m * m) + 3 * m;
    assert x2 * m == x * (m * m * m) + 3 * (m * m) + 5 * m;
  }

  // ---------------------------------------------------------------- the machine with closed forms

  /** The value of one statement without loops, cascades or carries between words. */
  function Closed(op: Operation, o: Operands): u32 {
    match op
    case AddCarry => Xored(Word(Total(o.a, o.b) % MODULUS), Flag(Total(o.a, o.b) >= MODULUS))
    case GrayDecode => Xored(o.a, o.b)
    case MinmaxClamp =>
      MinBelowMax(o.a, o.b);
      Xored(Clamp(o.d, Min(o.a, o.b), Max(o.a, o.b)), Xored(o.a, o.b))
    case CarryChain =>
      var wide := (Wide(o.d, o.a) + Wide(o.next, o.b)) % (MODULUS * MODULUS);
      HalfFits(wide);
      Xored(Word(wide % MODULUS), Word(wide / MODULUS))
    case HornerLoop => Word(Degree4(Nat(o.a), Nat(LowestSet(o.b))) % MODULUS)
    case _ => Reference(op, o)
  }

  lemma HalfFits(wide: nat)
    requires wide < MODULUS * MODULUS
    ensures wide / MODULUS < MODULUS
  {}

  lemma CarryChainCloses(o: Operands)
    ensures Closed(CarryChain, o) == Reference(CarryChain, o)
  {
    hide Nat, Add, Less, Flag, Word, Xored;
    var low := Add(o.a, o.b);
    var high := Add(Add(o.d, o.next), Flag(Less(low, o.a)));
    CarryChainIsWide(o.a, o.b, o.d, o.next, low, high);
    DivUnique(Wide(high, low), MODULUS, Nat(high), Nat(low));
    WordNat(low);
    WordNat(high);
  }

  lemma HornerCloses(o: Operands)
    ensures Closed(HornerLoop, o) == Reference(HornerLoop, o)
  {
    hide Nat, Word, LowestSet, Horner, Degree4, Polynomial;
    var m := LowestSet(o.b);
    HornerIsPolynomial(o.a, m, COEFFICIENTS);
    CorpusPolynomial(Nat(o.a), Nat(m));
    WordNat(Horner(o.a, m, COEFFICIENTS));
  }

  lemma MinmaxCloses(o: Operands)
    ensures Closed(MinmaxClamp, o) == Reference(MinmaxClamp, o)
  {
    hide Xored, Clamp, Min, Max;
    MinBelowMax(o.a, o.b);
    var low, high := Min(o.a, o.b), Max(o.a, o.b);
    var clamp := Clamp(o.d, low, high);
    MinMaxSum(o.a, o.b);
    XoredAssociates(clamp, low, high);
  }

  lemma AddCarryCloses(o: Operands)
    ensures Closed(AddCarry, o) == Reference(AddCarry, o)
  {
    hide Nat, Word, Xored, Flag, Less;
    AddWraps(o.a, o.b);
  }

  lemma GrayCloses(o: Operands)
    ensures Closed(GrayDecode, o) == Reference(GrayDecode, o)
  {
    GrayCascadeIdentity(o.a);
    hide GrayCascade, Xored;
  }

  lemma ClosedIsReference(op: Operation, o: Operands)
    ensures Closed(op, o) == Reference(op, o)
  {
    hide Reference;
    match op
    case AddCarry => AddCarryCloses(o);
    case GrayDecode => GrayCloses(o);
    case MinmaxClamp => MinmaxCloses(o);
    case CarryChain => CarryChainCloses(o);
    case HornerLoop => HornerCloses(o);
    case _ =>
  }

  function ClosedStep(s: Machine, i: Instruction, step: u32): Machine {
    var o := Reads(s, i, step);
    Store(s, i, o, Closed(i.operation, o))
  }

  function ClosedRun(program: seq<Instruction>, s: Machine, k: nat): Machine
    requires k <= |program|
  {
    if k == 0 then s else ClosedStep(ClosedRun(program, s, k - 1), program[k - 1], Position(k - 1))
  }

  /** For every program, start state and stopping point the closed forms reach the reference's
      state: every checkpoint is preserved. */
  lemma {:induction false} ClosedFormsPreserveRuns(program: seq<Instruction>, s: Machine, k: nat)
    requires k <= |program|
    ensures ClosedRun(program, s, k) == Run(program, s, k)
  {
    hide Closed, Reference, Store, Reads;
    if k != 0 {
      ClosedFormsPreserveRuns(program, s, k - 1);
      var before := Run(program, s, k - 1);
      ClosedIsReference(program[k - 1].operation, Reads(before, program[k - 1], Position(k - 1)));
    }
  }

  // ---------------------------------------------------------------- what a statement can touch

  /** A statement changes its destination and, for array-scatter alone, the one memory cell that
      its left operand selects. */
  lemma StepFrame(s: Machine, i: Instruction, step: u32)
    ensures var t := Casegen.Step(s, i, step);
            && (forall j :: 0 <= j < 6 && j != i.destination ==> t.registers[j] == s.registers[j])
            && (forall j :: 0 <= j < 8 && t.memory[j] != s.memory[j] ==>
                  i.operation == ArrayScatter && j == Index(s.registers[i.left]))
  {}

  /** The divide-rem form splits its dividend. */
  lemma DivideRemSplits(a: u32, b: u32)
    ensures Nat(Divisor(b)) != 0
    ensures var q, r := Nat(Quotient(a, Divisor(b))), Nat(Remainder(a, Divisor(b)));
            Nat(a) == q * Nat(Divisor(b)) + r && r < Nat(Divisor(b))
  {
    DivisorIsNonzero(b);
    hide Nat, Word, Divisor;
    var n, d := Nat(a), Nat(Divisor(b));
    QuotientFits(n, d);
    DivSplits(n, d);
    NatWord(n / d);
    NatWord(n % d);
  }
}
