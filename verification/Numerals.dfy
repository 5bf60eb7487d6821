/** Positional notation: a number printed least significant digit first by repeated division, as both
    the trace writer and the freestanding printf do. */
module Numerals {

  /** One division step. */
  function Split(n: nat, base: nat): (r: (nat, nat))
    requires 1 < base
    ensures n == base * r.0 + r.1 && r.1 < base
    ensures n != 0 ==> r.0 < n
  {
    Shrinks(base, n / base);
    (n / base, n % base)
  }

  lemma Shrinks(base: nat, q: nat)
    requires 1 < base
    ensures q != 0 ==> q < base * q
  {
  }

  predicate Below(ds: seq<nat>, bound: nat) {
    forall i :: 0 <= i < |ds| ==> ds[i] < bound
  }

  /** The digits of `n`, least significant first; zero has one digit. */
  function Digits(n: nat, base: nat): (ds: seq<nat>)
    requires 1 < base
    ensures ds != []
    ensures Below(ds, base)
    decreases n
  {
    var (q, r) := Split(n, base);
    if q == 0 then [r] else [r] + Digits(q, base)
  }

  /** The number that digits stand for, least significant first. */
  function ValueOf(ds: seq<nat>, base: nat): nat {
    if ds == [] then 0 else ds[0] + base * ValueOf(ds[1..], base)
  }

  function Power(base: nat, k: nat): nat {
    if k == 0 then 1 else base * Power(base, k - 1)
  }

  lemma {:induction false} DigitsRoundTrip(n: nat, base: nat)
    requires 1 < base
    ensures ValueOf(Digits(n, base), base) == n
  {
    hide Split;
    var (q, r) := Split(n, base);
    if q != 0 {
      DigitsRoundTrip(q, base);
      assert Digits(n, base)[1..] == Digits(q, base);
    } else {
      assert [r][1..] == [];
    }
  }

  /** Distinct numbers print differently. */
  lemma DigitsInjective(m: nat, n: nat, base: nat)
    requires 1 < base && Digits(m, base) == Digits(n, base)
    ensures m == n
  {
    DigitsRoundTrip(m, base);
    DigitsRoundTrip(n, base);
  }

  /** Just as many digits as are needed. */
  lemma {:induction false} DigitsLength(n: nat, base: nat, k: nat)
    requires 1 < base && 0 < k
    ensures |Digits(n, base)| <= k <==> n < Power(base, k)
    decreases k
  {
    hide Split;
    var (q, r) := Split(n, base);
    if k == 1 {
      assert Power(base, 1) == base * Power(base, 0) == base;
      if q != 0 {
        Monotone(base, 1, q);
      }
    } else {
      var bound := Power(base, k - 1);
      PowerPositive(base, k - 1);
      if q != 0 {
        DigitsLength(q, base, k - 1);
      }
      LeadingPart(q, r, base, bound);
    }
  }

  lemma LeadingPart(q: nat, r: nat, base: nat, bound: nat)
    requires r < base
    ensures q < bound <==> base * q + r < base * bound
  {
    if q < bound {
      Monotone(base, q + 1, bound);
    } else {
      Monotone(base, bound, q);
    }
  }

  lemma Monotone(k: nat, a: nat, b: nat)
    requires a <= b
    ensures k * a <= k * b
  {
  }

  lemma {:induction false} PowerPositive(base: nat, k: nat)
    requires 0 < base
    ensures 0 < Power(base, k)
  {
    if k != 0 {
      PowerPositive(base, k - 1);
    }
  }

  // ---------------------------------------------------------------- text

  predicate IsDigit(c: char) {
    '0' <= c <= '9'
  }

  /** The digit characters the sources use: decimal digits, then lower-case letters. */
  function DigitChar(d: nat): (c: char)
    requires d < 36
    ensures IsDigit(c) <==> d < 10
    ensures IsDigit(c) || 'a' <= c <= 'z'
    ensures DigitOf(c) == d
  {
    if d < 10 then (d + '0' as int) as char else (d - 10 + 'a' as int) as char
  }

  function DigitOf(c: char): nat {
    if '0' <= c <= '9' then c as int - '0' as int
    else if 'a' <= c <= 'z' then c as int - 'a' as int + 10
    else 0
  }

  predicate Decimal(s: string) {
    forall i :: 0 <= i < |s| ==> IsDigit(s[i])
  }

  predicate Alphanumeric(s: string) {
    forall i :: 0 <= i < |s| ==> IsDigit(s[i]) || 'a' <= s[i] <= 'z'
  }

  /** The digits as text, most significant first. */
  function Spell(ds: seq<nat>): (s: string)
    requires Below(ds, 36)
    ensures |s| == |ds|
    ensures Alphanumeric(s)
    ensures Below(ds, 10) ==> Decimal(s)
  {
    if ds == [] then "" else Spell(ds[1..]) + [DigitChar(ds[0])]
  }

  /** Reading digits from left to right. */
  function Parse(s: string, base: nat): nat {
    if s == "" then 0 else base * Parse(s[..|s| - 1], base) + DigitOf(s[|s| - 1])
  }

  lemma {:induction false} ParseSpell(ds: seq<nat>, base: nat)
    requires Below(ds, 36)
    ensures Parse(Spell(ds), base) == ValueOf(ds, base)
  {
    if ds != [] {
      ParseSpell(ds[1..], base);
      var s := Spell(ds);
      assert s[..|s| - 1] == Spell(ds[1..]);
    }
  }

  function Print(n: nat, base: nat): (s: string)
    requires 1 < base <= 36
    ensures s != "" && Alphanumeric(s)
    ensures base <= 10 ==> Decimal(s)
  {
    var ds := Digits(n, base);
    Spell(ds)
  }

  /** Printing a number and reading it back. */
  lemma ParsePrint(n: nat, base: nat)
    requires 1 < base <= 36
    ensures Parse(Print(n, base), base) == n
  {
    ParseSpell(Digits(n, base), base);
    DigitsRoundTrip(n, base);
  }
}
