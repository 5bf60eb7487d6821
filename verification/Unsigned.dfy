/** C's unsigned arithmetic on 32-bit words: each word denotes a number, and `+`, `-`, `*` are taken
    modulo 2 to the 32. The number is read off the word's bits, so bitwise and arithmetic operators
    of the corpus meet in one representation. */
module Unsigned {
  import opened WordOps
  import opened Words
  import opened Numbers

  lemma Pow2Is()
    ensures Pow2(32) == MODULUS
  {
    assert Pow2(8) == 256;
    assert Pow2(16) == 256 * Pow2(8);
    assert Pow2(24) == 256 * Pow2(16);
    assert Pow2(32) == 256 * Pow2(24);
  }

  /** The number that a bit vector denotes, bit 0 first. */
  function Value(s: seq<bool>): (n: nat)
    ensures n < Pow2(|s|)
  {
    if s == [] then 0 else (if s[0] then 1 else 0) + 2 * Value(s[1..])
  }

  /** The `k` lowest binary digits of a number. */
  function Digits(n: nat, k: nat): (s: seq<bool>)
    ensures |s| == k
    decreases k
  {
    if k == 0 then [] else [n % 2 == 1] + Digits(n / 2, k - 1)
  }

  lemma {:induction false} ValueOfDigits(n: nat, k: nat)
    requires n < Pow2(k)
    ensures Value(Digits(n, k)) == n
    decreases k
  {
    if k != 0 {
      ValueOfDigits(n / 2, k - 1);
    }
  }

  lemma {:induction false} DigitsOfValue(s: seq<bool>)
    ensures Digits(Value(s), |s|) == s
  {
    if s != [] {
      DigitsOfValue(s[1..]);
      assert Value(s) / 2 == Value(s[1..]);
    }
  }

  /** The number a word denotes. */
  function Nat(x: u32): (n: nat)
    ensures n < MODULUS
  {
    Pow2Is();
    Value(Bits(x))
  }

  /** The word that denotes a number, built from its `k` lowest binary digits. */
  function Build(n: nat, k: nat): u32
    decreases k
  {
    if k == 0 then 0 else ShiftIn(Build(n / 2, k - 1), n % 2 == 1)
  }

  function Word(n: nat): u32
    requires n < MODULUS
  {
    Build(n, 32)
  }

  lemma ShiftInBits(x: u32, bit: bool)
    ensures Bits(ShiftIn(x, bit)) == [bit] + Bits(x)[..31]
  {
    var last: u32 := if bit then 1 else 0;
    ShiftInIsXor(x, bit);
    DoubleBits(x);
    OneBits(bit);
    hide Double, ShiftIn, IsXor, Lsb;
    LsbXor(Double(x), last, ShiftIn(x, bit), 32);
    ConsXor(Bits(x)[..31], bit);
  }

  lemma ConsXor(s: seq<bool>, bit: bool)
    requires |s| == 31
    ensures Xor([false] + s, [bit] + Zeros(31)) == [bit] + s
  {}

  lemma OneBits(bit: bool)
    ensures Bits(if bit then 1 else 0) == [bit] + Zeros(31)
  {
    ZeroWord(31);
    ZeroWord(32);
    assert Odd(1) && Half(1) == 0;
    assert Zeros(32) == [false] + Zeros(31);
  }

  lemma {:induction false} BuildBits(n: nat, k: nat)
    requires k <= 32
    ensures Bits(Build(n, k)) == Digits(n, k) + Zeros(32 - k)
    decreases k
  {
    hide ShiftIn, Bits;
    if k == 0 {
      ZeroBits();
    } else {
      BuildBits(n / 2, k - 1);
      ShiftInBits(Build(n / 2, k - 1), n % 2 == 1);
      assert (Digits(n / 2, k - 1) + Zeros(33 - k))[..31] == Digits(n / 2, k - 1) + Zeros(32 - k);
    }
  }

  lemma ZeroBits()
    ensures Bits(0) == Zeros(32)
  {
    ZeroWord(32);
  }

  /** Words and numbers below the modulus are the same thing. */
  lemma NatWord(n: nat)
    requires n < MODULUS
    ensures Nat(Word(n)) == n
  {
    Pow2Is();
    BuildBits(n, 32);
    ValueOfDigits(n, 32);
    assert Digits(n, 32) + Zeros(0) == Digits(n, 32);
  }

  lemma WordNat(x: u32)
    ensures Word(Nat(x)) == x
  {
    Pow2Is();
    BuildBits(Nat(x), 32);
    DigitsOfValue(Bits(x));
    assert Digits(Nat(x), 32) + Zeros(0) == Digits(Nat(x), 32);
    BitsDetermine(Word(Nat(x)), x);
  }

  lemma OddIsNonzero(x: u32)
    requires Odd(x)
    ensures Nat(x) != 0
  {
    assert Bits(x)[0];
  }

  // ---------------------------------------------------------------- the operators

  function Add(a: u32, b: u32): u32 { Word((Nat(a) + Nat(b)) % MODULUS) }

  function Sub(a: u32, b: u32): u32 { Word((Nat(a) - Nat(b)) % MODULUS) }

  function Mul(a: u32, b: u32): u32 { Word((Nat(a) * Nat(b)) % MODULUS) }

  predicate Less(a: u32, b: u32) { Nat(a) < Nat(b) }

  function Quotient(a: u32, b: u32): u32
    requires Nat(b) != 0
  {
    QuotientFits(Nat(a), Nat(b));
    Word(Nat(a) / Nat(b))
  }

  function Remainder(a: u32, b: u32): u32
    requires Nat(b) != 0
  {
    assert Nat(a) % Nat(b) < Nat(b);
    Word(Nat(a) % Nat(b))
  }

  lemma AddNat(a: u32, b: u32)
    ensures Nat(Add(a, b)) == (Nat(a) + Nat(b)) % MODULUS
  {
    hide Nat, Word;
    NatWord((Nat(a) + Nat(b)) % MODULUS);
  }

  lemma MulNat(a: u32, b: u32)
    ensures Nat(Mul(a, b)) == (Nat(a) * Nat(b)) % MODULUS
  {
    hide Nat, Word;
    NatWord((Nat(a) * Nat(b)) % MODULUS);
  }
}
