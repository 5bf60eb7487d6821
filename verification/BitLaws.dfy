/** Bitwise operators, rotations and counting, on the bits of a word. */
module BitLaws {
  import opened WordOps
  import opened Words
  import opened Numbers
  import opened Unsigned
  import opened Rotations

  function And(a: seq<bool>, b: seq<bool>): (c: seq<bool>)
    requires |a| == |b|
    ensures |c| == |a| && forall i :: 0 <= i < |a| ==> c[i] == (a[i] && b[i])
  {
    seq(|a|, i requires 0 <= i < |a| => a[i] && b[i])
  }

  function Or(a: seq<bool>, b: seq<bool>): (c: seq<bool>)
    requires |a| == |b|
    ensures |c| == |a| && forall i :: 0 <= i < |a| ==> c[i] == (a[i] || b[i])
  {
    seq(|a|, i requires 0 <= i < |a| => a[i] || b[i])
  }

  /** The place from which a rotation to the left by `n` fills place `k`. */
  function From(k: nat, n: nat): (j: nat)
    requires k < 32
    ensures j < 32
  {
    if n % 32 <= k then k - n % 32 else k + 32 - n % 32
  }

  /** A rotation to the left. */
  function RotL(s: seq<bool>, n: nat): (r: seq<bool>)
    requires |s| == 32
    ensures |r| == 32
  {
    seq(32, k requires 0 <= k < 32 => s[From(k, n)])
  }

  // ---------------------------------------------------------------- and, or

  lemma AndCons(a: bool, s: seq<bool>, b: bool, t: seq<bool>)
    requires |s| == |t|
    ensures And([a] + s, [b] + t) == [a && b] + And(s, t)
  {}

  lemma OrCons(a: bool, s: seq<bool>, b: bool, t: seq<bool>)
    requires |s| == |t|
    ensures Or([a] + s, [b] + t) == [a || b] + Or(s, t)
  {}

  lemma {:induction false} LsbAnd(x: u32, y: u32, z: u32, n: nat)
    requires IsAnd(x, y, z)
    ensures Lsb(z, n) == And(Lsb(x, n), Lsb(y, n))
    decreases n
  {
    hide IsAnd, Odd, Half;
    if n != 0 {
      AndRight(x, y, z);
      LsbAnd(Half(x), Half(y), Half(z), n - 1);
      AndCons(Odd(x), Lsb(Half(x), n - 1), Odd(y), Lsb(Half(y), n - 1));
    }
  }

  lemma {:induction false} LsbOr(x: u32, y: u32, z: u32, n: nat)
    requires IsOr(x, y, z)
    ensures Lsb(z, n) == Or(Lsb(x, n), Lsb(y, n))
    decreases n
  {
    hide IsOr, Odd, Half;
    if n != 0 {
      OrRight(x, y, z);
      LsbOr(Half(x), Half(y), Half(z), n - 1);
      OrCons(Odd(x), Lsb(Half(x), n - 1), Odd(y), Lsb(Half(y), n - 1));
    }
  }

  // ---------------------------------------------------------------- rotations

  lemma ModSum(m: nat, n: nat)
    ensures (m + n) % 32 == if m % 32 + n % 32 < 32 then m % 32 + n % 32 else m % 32 + n % 32 - 32
  {
    var (p, q) := (m / 32, n / 32);
    var sum := m % 32 + n % 32;
    assert m + n == (p + q) * 32 + sum;
    if sum < 32 {
      DivUnique(m + n, 32, p + q, sum);
    } else {
      DivUnique(m + n, 32, p + q + 1, sum - 32);
    }
  }

  lemma FromAdd(k: nat, m: nat, n: nat)
    requires k < 32
    ensures From(From(k, n), m) == From(k, m + n)
  {
    ModSum(m, n);
  }

  lemma RotLAdd(s: seq<bool>, m: nat, n: nat)
    requires |s| == 32
    ensures RotL(RotL(s, m), n) == RotL(s, m + n)
  {
    hide From;
    forall k | 0 <= k < 32 ensures RotL(RotL(s, m), n)[k] == RotL(s, m + n)[k] {
      FromAdd(k, m, n);
    }
  }

  lemma RotLZero(s: seq<bool>, n: nat)
    requires |s| == 32 && n % 32 == 0
    ensures RotL(s, n) == s
  {
  }

  lemma TurnOne(x: u32)
    ensures Bits(RotateLeft(x, 1)) == RotL(Bits(x), 1)
  {
    RotateOne(x);
    OutgoingIs(x);
    OneBits(Top(x));
    DoubleBits(x);
    hide RotateLeft, Outgoing, Double, IsXor, Lsb, Top;
    LsbXor(Double(x), Outgoing(x), RotateLeft(x, 1), 32);
    XorFront(Bits(x)[..31], Top(x));
  }

  lemma XorFront(s: seq<bool>, bit: bool)
    requires |s| == 31
    ensures Xor([false] + s, [bit] + Zeros(31)) == [bit] + s
  {}

  lemma TurnTwo(x: u32)
    ensures Bits(RotateLeft(x, 2)) == RotL(Bits(x), 2)
  {
    RotateTwice(x);
    hide RotateLeft, Lsb, RotL;
    TurnOne(x);
    TurnOne(RotateLeft(x, 1));
    RotLAdd(Bits(x), 1, 1);
  }

  lemma TurnFour(x: u32)
    ensures Bits(RotateLeft(x, 4)) == RotL(Bits(x), 4)
  {
    RotateTwice(x);
    hide RotateLeft, Lsb, RotL;
    TurnTwo(x);
    TurnTwo(RotateLeft(x, 2));
    RotLAdd(Bits(x), 2, 2);
  }

  lemma TurnEight(x: u32)
    ensures Bits(RotateLeft(x, 8)) == RotL(Bits(x), 8)
  {
    RotateByteTwice(x);
    hide RotateLeft, Lsb, RotL;
    TurnFour(x);
    TurnFour(RotateLeft(x, 4));
    RotLAdd(Bits(x), 4, 4);
  }

  lemma TurnSixteen(x: u32)
    ensures Bits(RotateLeft(x, 16)) == RotL(Bits(x), 16)
  {
    RotateByteTwice(x);
    hide RotateLeft, Lsb, RotL;
    TurnEight(x);
    TurnEight(RotateLeft(x, 8));
    RotLAdd(Bits(x), 8, 8);
  }

  function One(bit: bool, weight: nat): nat { if bit then weight else 0 }

  lemma TurnBits(x: u32, on: bool, m: u32, n: nat)
    requires Bits(RotateLeft(x, m)) == RotL(Bits(x), n)
    ensures Bits(Turn(x, on, m)) == RotL(Bits(x), One(on, n))
  {
    hide RotateLeft, Lsb;
    RotLZero(Bits(x), 0);
  }

  /** The number that the five low bits of a word denote. */
  function Low5(n: u32): nat {
    One(Odd(n), 1) + One(Odd(Half(n)), 2) + One(Odd(Half(Half(n))), 4)
    + One(Odd(Half(Half(Half(n)))), 8) + One(Odd(Half(Half(Half(Half(n))))), 16)
  }

  /** Two turns, as one. */
  lemma TurnAgain(x: u32, y: u32, on: bool, m: u32, n: nat, total: nat)
    requires Bits(y) == RotL(Bits(x), total) && Bits(RotateLeft(y, m)) == RotL(Bits(y), n)
    ensures Bits(Turn(y, on, m)) == RotL(Bits(x), total + One(on, n))
  {
    hide RotateLeft, Lsb, RotL, Turn, One;
    TurnBits(y, on, m, n);
    RotLAdd(Bits(x), total, One(on, n));
  }

  /** Rust's `rotate_left` on the bits of a word, for every amount. */
  lemma RotateBits(x: u32, n: u32)
    ensures Bits(RotateLeft(x, n)) == RotL(Bits(x), Low5(n))
  {
    hide RotateLeft, Lsb, RotL, Odd, Half, Turn, Low4, Low3, Low2, Low1, One;
    var (b4, b3, b2, b1) := (Odd(Half(Half(Half(Half(n))))), Odd(Half(Half(Half(n)))), Odd(Half(Half(n))), Odd(Half(n)));
    Stage16(x, n);
    TurnSixteen(x);
    TurnBits(x, b4, 16, 16);
    var x4 := Turn(x, b4, 16);
    Stage8(x4, n);
    TurnEight(x4);
    TurnAgain(x, x4, b3, 8, 8, One(b4, 16));
    var x3 := Turn(x4, b3, 8);
    Stage4(x3, n);
    TurnFour(x3);
    TurnAgain(x, x3, b2, 4, 4, One(b4, 16) + One(b3, 8));
    var x2 := Turn(x3, b2, 4);
    Stage2(x2, n);
    TurnTwo(x2);
    TurnAgain(x, x2, b1, 2, 2, One(b4, 16) + One(b3, 8) + One(b2, 4));
    var x1 := Turn(x2, b1, 2);
    Stage1(x1, n);
    TurnOne(x1);
    TurnAgain(x, x1, Odd(n), 1, 1, One(b4, 16) + One(b3, 8) + One(b2, 4) + One(b1, 2));
  }

  lemma Low5Bound(n: u32)
    ensures Low5(n) < 32
  {
  }

  /** Rust's `rotate_right`. */
  lemma RotateRightBits(x: u32, n: u32)
    ensures Bits(RotateRight(x, n)) == RotL(Bits(x), 32 - Low5(n))
  {
    RightIsLeft(x, n);
    Low5Bound(n);
    OppositeLow(n);
    hide RotateLeft, RotateRight, Lsb, Low5, Opposite;
    RotateBits(x, Opposite(n));
    assert (32 - Low5(n)) % 32 == Low5(Opposite(n)) % 32;
  }

  lemma OppositeLow(n: u32)
    ensures Low5(Opposite(n)) == if Low5(n) == 0 then 0 else 32 - Low5(n)
  {
    OppositeOdds(n);
    hide Odd, Half, Opposite;
  }

  // ---------------------------------------------------------------- counting

  lemma ValueCons(bit: bool, s: seq<bool>)
    ensures Value([bit] + s) == (if bit then 1 else 0) + 2 * Value(s)
  {
  }

  lemma BitsCons(x: u32, n: nat)
    requires n > 0
    ensures Lsb(x, n) == [Odd(x)] + Lsb(Half(x), n - 1)
  {
  }

  lemma FiveBits(b0: bool, b1: bool, b2: bool, b3: bool, b4: bool, v0: nat, v1: nat, v2: nat, v3: nat, v4: nat, rest: nat)
    requires v0 == (if b0 then 1 else 0) + 2 * v1 && v1 == (if b1 then 1 else 0) + 2 * v2
    requires v2 == (if b2 then 1 else 0) + 2 * v3 && v3 == (if b3 then 1 else 0) + 2 * v4
    requires v4 == (if b4 then 1 else 0) + 2 * rest
    ensures v0 % 32 == One(b0, 1) + One(b1, 2) + One(b2, 4) + One(b3, 8) + One(b4, 16)
  {
    DivUnique(v0, 32, rest, One(b0, 1) + One(b1, 2) + One(b2, 4) + One(b3, 8) + One(b4, 16));
  }

  lemma ValueStep(x: u32, n: nat)
    requires n > 0
    ensures Value(Lsb(x, n)) == (if Odd(x) then 1 else 0) + 2 * Value(Lsb(Half(x), n - 1))
  {
    hide Odd, Half, Lsb, Value;
    BitsCons(x, n);
    ValueCons(Odd(x), Lsb(Half(x), n - 1));
  }

  /** The five low bits are the number modulo 32. */
  lemma Low5Nat(n: u32)
    ensures Low5(n) == Nat(n) % 32
  {
    hide Odd, Half, Lsb, Value, One, Pow2;
    var (h1, h2, h3, h4) := (Half(n), Half(Half(n)), Half(Half(Half(n))), Half(Half(Half(Half(n)))));
    ValueStep(n, 32);
    ValueStep(h1, 31);
    ValueStep(h2, 30);
    ValueStep(h3, 29);
    ValueStep(h4, 28);
    FiveBits(Odd(n), Odd(h1), Odd(h2), Odd(h3), Odd(h4), Value(Lsb(n, 32)), Value(Lsb(h1, 31)), Value(Lsb(h2, 30)),
             Value(Lsb(h3, 29)), Value(Lsb(h4, 28)), Value(Lsb(Half(h4), 27)));
  }

  lemma HalfDouble(x: u32, n: nat)
    requires n <= 31
    ensures Lsb(Half(Double(x)), n) == Lsb(x, n)
  {
    DoubleBits(x);
    ShiftRight(Double(x));
    hide Odd, Half, Double, Lsb, Top;
    LsbAdd(Half(Double(x)), n, 32 - n);
    LsbAdd(x, n, 32 - n);
    var y := Half(Double(x));
    assert Lsb(y, n) == Lsb(y, 32)[..n] && Lsb(x, n) == Lsb(x, 32)[..n];
    assert Lsb(y, 32) == Lsb(x, 32)[..31] + [false];
  }

  lemma DoubleMod(v: nat, p: nat)
    requires p > 0
    ensures 2 * (v % p) == (2 * v) % (2 * p)
  {
    DivUnique(2 * v, 2 * p, v / p, 2 * (v % p));
  }

  lemma {:induction false} NextValue(x: u32, n: nat)
    requires n <= 32
    ensures Value(Lsb(Next(x), n)) == (Value(Lsb(x, n)) + 1) % Pow2(n)
    decreases n
  {
    if n != 0 {
      hide Next, Odd, Half, Double, Lsb, Value;
      BitsCons(x, n);
      BitsCons(Next(x), n);
      var v := Value(Lsb(Half(x), n - 1));
      ValueCons(Odd(x), Lsb(Half(x), n - 1));
      ValueCons(Odd(Next(x)), Lsb(Half(Next(x)), n - 1));
      if Odd(x) {
        NextOfOdd(x);
        var z := Next(Half(x));
        DoubleIsEven(z);
        HalfDouble(z, n - 1);
        NextValue(Half(x), n - 1);
        DoubleMod(v + 1, Pow2(n - 1));
      } else {
        NextOfEven(x);
        ModWrap(2 * v + 1, Pow2(n));
      }
    } else {
      Empty(x);
      Empty(Next(x));
    }
  }

  lemma Empty(x: u32)
    ensures Value(Lsb(x, 0)) == 0
  {
  }

  /** Adding one to a word adds one to its number. */
  lemma NextNat(x: u32)
    ensures Nat(Next(x)) == (Nat(x) + 1) % MODULUS
  {
    Pow2Is();
    NextValue(x, 32);
  }

  lemma {:induction false} ModFolds(n: nat, k: nat)
    ensures (n % MODULUS + k) % MODULUS == (n + k) % MODULUS
  {
    ModAdd(n, k, MODULUS);
  }

  /** Adding three, or seven. */
  lemma PlusNat(x: u32)
    ensures Nat(Plus3(x)) == (Nat(x) + 3) % MODULUS && Nat(Plus7(x)) == (Nat(x) + 7) % MODULUS
  {
    hide Nat, Next, Plus3, Plus7;
    NextThrice(x);
    ModFolds(Nat(x), 0);
    ThreeNext(x, Nat(x));
    ThreeNext(Plus3(x), Nat(x) + 3);
    NextNat(Next(Next(Next(Plus3(x)))));
    ModFolds(Nat(x) + 6, 1);
  }

  lemma ThreeNext(x: u32, n: nat)
    requires Nat(x) == n % MODULUS
    ensures Nat(Next(Next(Next(x)))) == (n + 3) % MODULUS
  {
    hide Nat, Next;
    NextNat(x);
    ModFolds(n, 1);
    NextNat(Next(x));
    ModFolds(n + 1, 1);
    NextNat(Next(Next(x)));
    ModFolds(n + 2, 1);
  }

  /** Numbers below two to the 32 keep their residue modulo 32. */
  lemma ModDivides(n: nat)
    ensures (n % MODULUS) % 32 == n % 32
  {
    var q := n / MODULUS;
    assert n == (q * 0x800_0000) * 32 + n % MODULUS;
    ModShift(n % MODULUS, q * 0x800_0000, 32);
  }
}
