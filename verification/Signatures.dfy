/** Why no two corpus cases share a structural signature: the first operations spell the case number. */
module Signatures {
  import opened Numerals

  /** The number of operation forms. */
  const FORMS: nat := 20

  /** The operations chosen from the case number: its lowest `n` digits, least significant first. */
  function Prefix(id: nat, n: nat): (operations: seq<nat>)
    ensures |operations| == n
  {
    if n == 0 then [] else [Split(id, FORMS).1] + Prefix(Split(id, FORMS).0, n - 1)
  }

  /** The generator's loop. */
  method LeadingOperations(id: nat, n: nat) returns (operations: seq<nat>)
    ensures operations == Prefix(id, n)
  {
    operations := [];
    var remaining := id;
    for k := 0 to n
      invariant operations + Prefix(remaining, n - k) == Prefix(id, n)
    {
      var (quotient, digit) := Split(remaining, FORMS);
      assert operations + Prefix(remaining, n - k) == operations + [digit] + Prefix(quotient, n - k - 1);
      operations := operations + [digit];
      remaining := quotient;
    }
  }

  /** Two cases start with the same `n` operations exactly when their numbers agree modulo the number
      of such beginnings; so the three leading operations tell apart any two of the first 8000 cases. */
  lemma {:induction false} PrefixDecides(i: nat, j: nat, n: nat)
    requires i < Power(FORMS, n) && j < Power(FORMS, n)
    ensures Prefix(i, n) == Prefix(j, n) <==> i == j
  {
    if n != 0 {
      var (p, d) := Split(i, FORMS);
      var (q, e) := Split(j, FORMS);
      QuotientFits(p, d, Power(FORMS, n - 1));
      QuotientFits(q, e, Power(FORMS, n - 1));
      PrefixDecides(p, q, n - 1);
      assert Prefix(i, n)[0] == d && Prefix(j, n)[0] == e;
      assert Prefix(i, n)[1..] == Prefix(p, n - 1) && Prefix(j, n)[1..] == Prefix(q, n - 1);
    }
  }

  lemma QuotientFits(q: nat, r: nat, bound: nat)
    requires FORMS * q + r < FORMS * bound
    ensures q < bound
  {
  }

  lemma EightThousand()
    ensures Power(FORMS, 3) == 8000
  {
  }

  /** The corpus's own cases have distinct signatures. */
  lemma SignaturesDistinct(i: nat, j: nat)
    requires i < 1000 && j < 1000
    ensures Prefix(i, 3) == Prefix(j, 3) <==> i == j
  {
    EightThousand();
    PrefixDecides(i, j, 3);
  }
}
