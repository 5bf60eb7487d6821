/** Shifts and rotations: C's shift operators, defined only below the word width, and Rust's
    rotations and byte swap that the generator computes with. */
module Rotations {
  import opened WordOps

  /** The amounts for which C defines a shift of a 32-bit word. */
  predicate Defined(n: u32) { n < 32 }

  /** C's `x << n` and `x >> n`. */
  function Shl(x: u32, n: u32): u32
    requires Defined(n)
  {
    x << n
  }

  function Shr(x: u32, n: u32): u32
    requires Defined(n)
  {
    x >> n
  }

  /** Rust's `rotate_left` and `rotate_right`. */
  function RotateLeft(x: u32, n: u32): u32 { Wrapped(x, n & 31, Opposite(n)) }

  function RotateRight(x: u32, n: u32): u32 { Wrapped(x, Opposite(n), n & 31) }

  /** The bits shifted to the left, and those that come back from the right. */
  function Wrapped(x: u32, left: u32, right: u32): u32
    requires left < 32 && right < 32
  {
    (x << left) | (x >> right)
  }

  function Opposite(n: u32): (m: u32)
    ensures m < 32
  {
    (32 - n) & 31
  }

  /** Rust's `swap_bytes`. */
  function SwapBytes(x: u32): u32 {
    ((x & 0xff) << 24) | (((x >> 8) & 0xff) << 16) | (((x >> 16) & 0xff) << 8) | (x >> 24)
  }

  /** The byte swap as the generator prints it. */
  function EmittedSwap(x: u32): u32 {
    Shl(x & 0xff, 24) | Shl(x & 0xff00, 8) | (Shr(x, 8) & 0xff00) | Shr(x, 24)
  }

  /** The two ways the generator prints a left rotation, and its right rotation. */
  function EmittedLeft(x: u32, n: u32): u32
    requires 0 < n < 32
  {
    EmittedComplement(n);
    Shl(x, n) | Shr(x, 32 - n)
  }

  function EmittedRight(x: u32, n: u32): u32
    requires 0 < n < 32
  {
    EmittedComplement(n);
    Shr(x, n) | Shl(x, 32 - n)
  }

  lemma EmittedComplement(n: u32)
    requires 0 < n < 32
    ensures 32 - n < 32
  {}

  lemma AmountFits(x: u32)
    ensures x & 31 < 32
  {}

  lemma EmittedLeftIs(x: u32, n: u32)
    requires 0 < n < 32
    ensures EmittedLeft(x, n) == RotateLeft(x, n)
  {
    assert n & 31 == n && (32 - n) & 31 == 32 - n;
  }

  lemma EmittedRightIs(x: u32, n: u32)
    requires 0 < n < 32
    ensures EmittedRight(x, n) == RotateRight(x, n)
  {
    assert n & 31 == n && (32 - n) & 31 == 32 - n;
  }

  lemma RotateByZero(x: u32)
    ensures RotateLeft(x, 0) == x && RotateRight(x, 0) == x
  {}

  lemma SwapIsEmitted(x: u32)
    ensures EmittedSwap(x) == SwapBytes(x)
  {}

  lemma SwapInvolution(x: u32)
    ensures SwapBytes(SwapBytes(x)) == x
  {}

  lemma SwapMasks(x: u32)
    ensures var y := SwapBytes(x);
            y & 0xff == (((x >> 8) >> 8) >> 8) & 0xff && (y >> 8) & 0xff == ((x >> 8) >> 8) & 0xff
    ensures var y := SwapBytes(x);
            ((y >> 8) >> 8) & 0xff == (x >> 8) & 0xff && (((y >> 8) >> 8) >> 8) & 0xff == x & 0xff
  {}

  lemma PackMasks(a: u32, b: u32)
    ensures var p := (a & 0xff) | ((b & 0xff) << 8) | (((a >> 8) & 0xff) << 16) | (((b >> 8) & 0xff) << 24);
            p & 0xff == a & 0xff && (p >> 8) & 0xff == b & 0xff
    ensures var p := (a & 0xff) | ((b & 0xff) << 8) | (((a >> 8) & 0xff) << 16) | (((b >> 8) & 0xff) << 24);
            ((p >> 8) >> 8) & 0xff == (a >> 8) & 0xff && (((p >> 8) >> 8) >> 8) & 0xff == (b >> 8) & 0xff
  {}

  lemma ScatterAmounts(w: u32)
    ensures w < 31 <==> w + 1 < 32 && 31 - w < 32
  {}

  lemma RotateXor(x: u32, y: u32)
    ensures RotateLeft(x ^ y, 11) == RotateLeft(x, 11) ^ RotateLeft(y, 11)
    ensures RotateLeft(x, 11) == RotateLeft(y, 11) ==> x == y
  {}

  // A rotation as five stages, one for each bit of its amount.

  function Turn(x: u32, on: bool, m: u32): u32 { if on then RotateLeft(x, m) else x }

  function Low4(n: u32): u32 { n & 15 }

  function Low3(n: u32): u32 { n & 7 }

  function Low2(n: u32): u32 { n & 3 }

  function Low1(n: u32): u32 { n & 1 }

  lemma Stage16(x: u32, n: u32)
    ensures RotateLeft(x, n) == RotateLeft(Turn(x, Odd(Half(Half(Half(Half(n))))), 16), Low4(n))
  {
    SixteenBit(n);
    if n & 16 != 0 {
      SixteenOn(n, Low4(n));
      SixteenMore(x, Low4(n));
    } else {
      SixteenOff(n);
    }
    hide Wrapped, Opposite;
  }

  lemma SixteenBit(n: u32)
    ensures Odd(Half(Half(Half(Half(n))))) <==> n & 16 != 0
  {}

  lemma SixteenOn(n: u32, k: u32)
    requires n & 16 != 0 && k == Low4(n)
    ensures k < 16 && n & 31 == 16 | k && Opposite(n) == 16 - k && k & 31 == k && Opposite(16) == 16
    ensures 16 & 31 == 16 as u32
  {}

  lemma SixteenMore(x: u32, k: u32)
    requires k < 16
    ensures 16 | k < 32 && 16 - k < 32
    ensures Wrapped(x, 16 | k, 16 - k) == Wrapped(Wrapped(x, 16, 16), k, Opposite(k))
  {}

  lemma SixteenOff(n: u32)
    requires n & 16 == 0
    ensures n & 31 == Low4(n) & 31 && Opposite(n) == Opposite(Low4(n))
  {}

  lemma Stage8(x: u32, n: u32)
    ensures RotateLeft(x, Low4(n)) == RotateLeft(Turn(x, Odd(Half(Half(Half(n)))), 8), Low3(n))
  {
    EightBit(n);
    if n & 8 != 0 {
      EightOn(n, Low3(n));
      EightMore(x, Low3(n));
    } else {
      EightOff(n);
    }
    hide Wrapped, Opposite;
  }

  lemma EightBit(n: u32)
    ensures Odd(Half(Half(Half(n)))) <==> n & 8 != 0
  {}

  lemma EightOn(n: u32, k: u32)
    requires n & 8 != 0 && k == Low3(n)
    ensures k < 8 && Low4(n) & 31 == 8 | k && Opposite(Low4(n)) == 24 - k && k & 31 == k && Opposite(8) == 24
    ensures 8 & 31 == 8 as u32
  {}

  lemma EightMore(x: u32, k: u32)
    requires k < 8
    ensures 8 | k < 32 && 24 - k < 32
    ensures Wrapped(x, 8 | k, 24 - k) == Wrapped(Wrapped(x, 8, 24), k, Opposite(k))
  {}

  lemma EightOff(n: u32)
    requires n & 8 == 0
    ensures Low4(n) & 31 == Low3(n) & 31 && Opposite(Low4(n)) == Opposite(Low3(n))
  {}

  lemma Stage4(x: u32, n: u32)
    ensures RotateLeft(x, Low3(n)) == RotateLeft(Turn(x, Odd(Half(Half(n))), 4), Low2(n))
  {}

  lemma Stage2(x: u32, n: u32)
    ensures RotateLeft(x, Low2(n)) == RotateLeft(Turn(x, Odd(Half(n)), 2), Low1(n))
  {}

  lemma Stage1(x: u32, n: u32)
    ensures RotateLeft(x, Low1(n)) == Turn(x, Odd(n), 1)
  {}

  lemma RotateTwice(x: u32)
    ensures RotateLeft(x, 2) == RotateLeft(RotateLeft(x, 1), 1) && RotateLeft(x, 4) == RotateLeft(RotateLeft(x, 2), 2)
  {}

  lemma RotateByteTwice(x: u32)
    ensures RotateLeft(x, 8) == RotateLeft(RotateLeft(x, 4), 4) && RotateLeft(x, 16) == RotateLeft(RotateLeft(x, 8), 8)
  {}

  lemma RotateOne(x: u32)
    ensures IsXor(Double(x), Outgoing(x), RotateLeft(x, 1))
  {}

  lemma RightIsLeft(x: u32, n: u32)
    ensures RotateRight(x, n) == RotateLeft(x, Opposite(n))
  {
    OppositeTwice(n);
    hide Wrapped, Opposite;
  }

  lemma OppositeTwice(n: u32)
    ensures Opposite(n) & 31 == Opposite(n) && Opposite(Opposite(n)) == n & 31
  {}

  /** The five low bits of the opposite amount: two's complement. */
  lemma OppositeOdds(n: u32)
    ensures var m := Opposite(n);
            && Odd(m) == Odd(n)
            && Odd(Half(m)) == (Odd(Half(n)) != Odd(n))
            && Odd(Half(Half(m))) == (Odd(Half(Half(n))) != (Odd(n) || Odd(Half(n))))
            && Odd(Half(Half(Half(m)))) == (Odd(Half(Half(Half(n)))) != (Odd(n) || Odd(Half(n)) || Odd(Half(Half(n)))))
            && Odd(Half(Half(Half(Half(m)))))
               == (Odd(Half(Half(Half(Half(n))))) != (Odd(n) || Odd(Half(n)) || Odd(Half(Half(n))) || Odd(Half(Half(Half(n))))))
  {}

  lemma HighHalfTurns(x: u32)
    ensures HighHalf(x) == RotateLeft(Upper(x), 16)
  {}

  /** The rotate-mix form guards a zero amount, for which the plain shape would be undefined. */
  function GuardedLeft(x: u32, n: u32): u32
    requires Defined(n)
  {
    if n == 0 then x else NonzeroIsPositive(n); EmittedLeft(x, n)
  }

  function GuardedRight(x: u32, n: u32): u32
    requires Defined(n)
  {
    if n == 0 then x else NonzeroIsPositive(n); EmittedRight(x, n)
  }

  lemma NonzeroIsPositive(n: u32)
    requires n != 0
    ensures 0 < n
  {}

  lemma GuardedIs(x: u32, n: u32)
    requires Defined(n)
    ensures GuardedLeft(x, n) == RotateLeft(x, n) && GuardedRight(x, n) == RotateRight(x, n)
  {
    if n == 0 {
      RotateByZero(x);
    } else {
      NonzeroIsPositive(n);
      EmittedLeftIs(x, n);
      EmittedRightIs(x, n);
    }
  }

  /** The array-scatter form prints its two amounts independently. */
  lemma ScatterRotates(x: u32, step: u32)
    requires step < 31
    ensures Defined(step + 1) && Defined(31 - step)
    ensures Shl(x, step + 1) | Shr(x, 31 - step) == RotateLeft(x, (step + 1) & 31)
  {
    ScatterAmounts(step);
    assert (step + 1) & 31 == step + 1 && (32 - (step + 1)) & 31 == 31 - step;
  }

  lemma ConstantRotations(x: u32)
    ensures Shl(x, 9) | Shr(x, 23) == RotateLeft(x, 9) && Shl(x, 16) | Shr(x, 16) == RotateLeft(x, 16)
    ensures Shl(x, 8) | Shr(x, 24) == RotateLeft(x, 8) && Shl(x, 5) | Shr(x, 27) == RotateLeft(x, 5)
    ensures Shl(x, 3) | Shr(x, 29) == RotateLeft(x, 3) && Shl(x, 11) | Shr(x, 21) == RotateLeft(x, 11)
  {
    hide RotateLeft, Shl, Shr;
    EmittedLeftIs(x, 9);
    EmittedLeftIs(x, 16);
    EmittedLeftIs(x, 8);
    EmittedLeftIs(x, 5);
    EmittedLeftIs(x, 3);
    EmittedLeftIs(x, 11);
    Complements();
  }

  lemma Complements()
    ensures 32 - 9 == 23 as u32 && 32 - 16 == 16 as u32 && 32 - 8 == 24 as u32
    ensures 32 - 5 == 27 as u32 && 32 - 3 == 29 as u32 && 32 - 11 == 21 as u32
  {}

  lemma RipplesPrinted(x: u32)
    ensures Xored(x, Shr(x, 1)) == Ripple1(x) && Xored(x, Shr(x, 2)) == Ripple2(x)
    ensures Xored(x, Shr(x, 4)) == Ripple4(x) && Xored(x, Shr(x, 8)) == Ripple8(x)
    ensures Xored(x, Shr(x, 16)) == Ripple16(x)
  {
    hide Shr;
    ShiftsPrinted(x);
  }

  lemma ShiftsPrinted(x: u32)
    ensures Shr(x, 1) == x >> 1 && Shr(x, 2) == x >> 2 && Shr(x, 4) == x >> 4
    ensures Shr(x, 8) == x >> 8 && Shr(x, 16) == x >> 16
  {}
}
