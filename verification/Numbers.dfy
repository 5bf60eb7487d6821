/** Powers of two, and division facts that the solver needs spelled out. */
module Numbers {
  /** How many 32-bit words there are. */
  const MODULUS: nat := 0x1_0000_0000

  function Pow2(n: nat): (p: nat)
    ensures p >= 1
  {
    if n == 0 then 1 else 2 * Pow2(n - 1)
  }

  /** A product is no closer to zero than its factor. */
  lemma ProductGap(k: int, m: int)
    requires m >= 0
    ensures k >= 1 ==> k * m >= m
    ensures k <= -1 ==> k * m <= -m
    ensures k >= 0 ==> k * m >= 0
  {
    if k >= 1 {
      assert k * m == (k - 1) * m + m;
      assert (k - 1) * m >= 0;
    } else if k <= -1 {
      assert k * m == (k + 1) * m - m;
      assert (k + 1) * m <= 0;
    }
  }

  lemma QuotientFits(a: nat, b: nat)
    requires b != 0
    ensures 0 <= a / b <= a
  {
    var q := a / b;
    assert a == b * q + a % b;
    assert q >= 0;
    ProductGap(b - 1, q);
    assert b * q == (b - 1) * q + q;
  }

  lemma {:induction false} ModShift(x: int, k: int, m: nat)
    requires m > 0
    ensures (x + k * m) % m == x % m
    decreases if k >= 0 then k else -k
  {
    if k > 0 {
      ModShift(x, k - 1, m);
      var y := x + (k - 1) * m;
      assert x + k * m == y + m;
      ModOnce(y, m);
    } else if k < 0 {
      ModShift(x, k + 1, m);
      var y := x + k * m;
      assert x + (k + 1) * m == y + m;
      ModOnce(y, m);
    }
  }

  lemma ModOnce(y: int, m: nat)
    requires m > 0
    ensures (y + m) % m == y % m
  {
    var q := y / m;
    assert y + m == (q + 1) * m + y % m;
    DivUnique(y + m, m, q + 1, y % m);
  }

  lemma DivUnique(x: int, m: nat, q: int, r: int)
    requires m > 0 && 0 <= r < m && x == q * m + r
    ensures x / m == q && x % m == r
  {
    var q', r' := x / m, x % m;
    assert x == m * q' + r';
    assert (q - q') * m == r' - r;
    ProductGap(q - q', m);
  }

  /** Reducing before multiplying and adding changes nothing modulo `m`. */
  lemma ModMulAdd(x: int, a: int, c: int, m: nat)
    requires m > 0
    ensures ((x % m) * a + c) % m == (x * a + c) % m
  {
    var q := x / m;
    assert x == m * q + x % m;
    assert x * a + c == ((x % m) * a + c) + (q * a) * m;
    ModShift((x % m) * a + c, q * a, m);
  }

  lemma ModWrap(x: nat, m: nat)
    requires x < 2 * m
    ensures x % m == if x < m then x else x - m
  {
    if x < m {
      DivUnique(x, m, 0, x);
    } else {
      DivUnique(x, m, 1, x - m);
    }
  }

  lemma ModAdd(x: int, c: int, m: nat)
    requires m > 0
    ensures (x % m + c) % m == (x + c) % m
  {
    ModMulAdd(x, 1, c, m);
  }

  lemma DivSplits(a: nat, b: nat)
    requires b != 0
    ensures a == (a / b) * b + a % b && a % b < b
  {}
}
