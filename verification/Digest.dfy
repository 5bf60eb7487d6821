/** The digest that folds registers and memory into a checkpoint. */
module Digest {
  import opened WordOps
  import opened Rotations
  import opened Mixing

  const SEED: u32 := 0x9e37_79b9

  /** The digest loop from the accumulator `d` on. */
  function Fold(d: u32, words: seq<u32>): u32
    decreases |words|
  {
    if words == [] then d else Fold(Xored(Mix(d), words[0]), words[1..])
  }

  function Digest(words: seq<u32>): u32 {
    Fold(SEED, words)
  }

  /** The combined value that a case returns. */
  function Combine(registers: seq<u32>, memory: seq<u32>): u32 {
    Xored(Digest(registers), RotateLeft(Digest(memory), 11))
  }

  function XoredAll(a: seq<u32>, b: seq<u32>): (c: seq<u32>)
    requires |a| == |b|
    ensures |c| == |a|
    ensures forall i :: 0 <= i < |a| ==> c[i] == Xored(a[i], b[i])
  {
    seq(|a|, i requires 0 <= i < |a| => Xored(a[i], b[i]))
  }

  lemma RotateXored(x: u32, y: u32)
    ensures RotateLeft(Xored(x, y), 11) == Xored(RotateLeft(x, 11), RotateLeft(y, 11))
  {
    RotateXor(x, y);
  }

  lemma {:induction false} FoldLinear(d: u32, e: u32, words: seq<u32>, change: seq<u32>)
    requires |words| == |change|
    ensures Fold(Xored(d, e), XoredAll(words, change)) == Xored(Fold(d, words), Fold(e, change))
    decreases |words|
  {
    hide Mix, Xored;
    if words != [] {
      MixLinear(d, e);
      XoredSwap(Mix(d), Mix(e), words[0], change[0]);
      assert XoredAll(words, change)[1..] == XoredAll(words[1..], change[1..]);
      FoldLinear(Xored(Mix(d), words[0]), Xored(Mix(e), change[0]), words[1..], change[1..]);
    }
  }

  /** The effect of a change on the digest, whatever the words were. */
  function Spread(change: seq<u32>): u32 {
    Fold(0, change)
  }

  /** The digest is affine: adding a change to the words adds the change's spread. */
  lemma DigestAffine(words: seq<u32>, change: seq<u32>)
    requires |words| == |change|
    ensures Digest(XoredAll(words, change)) == Xored(Digest(words), Spread(change))
  {
    hide Fold, XoredAll, Xored;
    XoredZero(SEED);
    FoldLinear(SEED, 0, words, change);
  }

  /** Two machine states share a checkpoint exactly when the spreads of their register and memory
      differences cancel. */
  lemma CheckpointCollision(registers: seq<u32>, memory: seq<u32>, dr: seq<u32>, dm: seq<u32>)
    requires |registers| == |dr| && |memory| == |dm|
    ensures Combine(XoredAll(registers, dr), XoredAll(memory, dm)) ==
            Xored(Combine(registers, memory), Xored(Spread(dr), RotateLeft(Spread(dm), 11)))
    ensures Combine(XoredAll(registers, dr), XoredAll(memory, dm)) == Combine(registers, memory) <==>
            Spread(dr) == RotateLeft(Spread(dm), 11)
  {
    hide Fold, XoredAll, Xored, RotateLeft;
    var a, b := Digest(registers), Digest(memory);
    var x, y := Spread(dr), Spread(dm);
    DigestAffine(registers, dr);
    DigestAffine(memory, dm);
    RotateXored(b, y);
    XoredSwap(a, RotateLeft(b, 11), x, RotateLeft(y, 11));
    XoredSwap(a, x, RotateLeft(b, 11), RotateLeft(y, 11));
    XoredCancels(Combine(registers, memory), Xored(x, RotateLeft(y, 11)));
    XoredCancels(x, RotateLeft(y, 11));
  }

  function Quiet(n: nat): (z: seq<u32>)
    ensures |z| == n && forall i :: 0 <= i < n ==> z[i] == 0
  {
    seq(n, i => 0)
  }

  lemma {:induction false} FoldQuiet(n: nat, tail: seq<u32>)
    ensures Fold(0, Quiet(n) + tail) == Fold(0, tail)
  {
    if n == 0 {
      assert Quiet(0) + tail == tail;
    } else {
      assert (Quiet(n) + tail)[1..] == Quiet(n - 1) + tail;
      MixLinear(0, 0);
      XoredZero(0);
      FoldQuiet(n - 1, tail);
    }
  }

  /** A change to the last word alone shows up unaltered. */
  lemma SpreadOfLast(n: nat, d: u32)
    ensures Spread(Quiet(n) + [d]) == d
  {
    FoldQuiet(n, [d]);
    OneWord(d);
  }

  lemma OneWord(d: u32)
    ensures Fold(0, [d]) == d
  {
    hide Mix, Xored;
    MixLinear(0, 0);
    XoredZero(d);
    XoredCommutes(0, d);
    assert [d][1..] == [];
    assert Fold(0, [d]) == Fold(Xored(Mix(0), d), []);
  }

  /** A change to the last word but one is invisible for exactly three nonzero values. */
  lemma SpreadOfLastButOne(n: nat, d: u32)
    ensures Spread(Quiet(n) + [d, 0]) == Mix(d)
    ensures Spread(Quiet(n) + [d, 0]) == 0 <==>
            d == 0 || d == 0x1020_4081 || d == 0x2040_8102 || d == 0x3060_c183
  {
    MixKernel(d);
    hide Mix, Xored;
    MixLinear(0, 0);
    XoredZero(d);
    XoredCommutes(0, d);
    XoredZero(Mix(d));
    FoldQuiet(n, [d, 0]);
    assert [d, 0][1..] == [0] && [0][1..] == [];
    assert Fold(0, [d, 0]) == Fold(d, [0]) == Fold(Mix(d), []);
  }

  lemma QuietChange(words: seq<u32>, tail: seq<u32>)
    requires |tail| <= |words|
    ensures var n := |words| - |tail|;
            && (forall i :: 0 <= i < n ==> XoredAll(words, Quiet(n) + tail)[i] == words[i])
            && (forall i :: n <= i < |words| ==> XoredAll(words, Quiet(n) + tail)[i] == Xored(words[i], tail[i - n]))
  {
    var n := |words| - |tail|;
    forall i | 0 <= i < n ensures XoredAll(words, Quiet(n) + tail)[i] == words[i] {
      XoredZero(words[i]);
      hide Xored;
      assert (Quiet(n) + tail)[i] == 0;
    }
    hide Xored;
  }

  /** Changing the last register changes the combined value by just that change; changing the last memory
      word, by that change rotated. */
  lemma LastWordsShow(registers: seq<u32>, memory: seq<u32>, d: u32)
    requires registers != [] && memory != []
    ensures var (i, j) := (|registers| - 1, |memory| - 1);
            && Combine(registers[i := Xored(registers[i], d)], memory) == Xored(Combine(registers, memory), d)
            && Combine(registers, memory[j := Xored(memory[j], d)])
               == Xored(Combine(registers, memory), RotateLeft(d, 11))
  {
    var i, j := |registers| - 1, |memory| - 1;
    QuietChange(registers, [d]);
    QuietChange(memory, [d]);
    assert XoredAll(registers, Quiet(i) + [d]) == registers[i := Xored(registers[i], d)];
    assert XoredAll(memory, Quiet(j) + [d]) == memory[j := Xored(memory[j], d)];
    hide Mix, Xored, RotateLeft, XoredAll, Fold;
    SpreadOfLast(i, d);
    SpreadOfLast(j, d);
    DigestAffine(registers, Quiet(i) + [d]);
    DigestAffine(memory, Quiet(j) + [d]);
    RotateXored(Digest(memory), d);
    var a, b := Digest(registers), RotateLeft(Digest(memory), 11);
    XoredAssociates(a, d, b);
    XoredCommutes(d, b);
    XoredAssociates(a, b, d);
    XoredAssociates(a, b, RotateLeft(d, 11));
  }

  /** Changing the last register but one leaves the combined value alone for exactly four changes, none
      of them visible at the checkpoint. */
  lemma InvisibleChanges(registers: seq<u32>, memory: seq<u32>, d: u32)
    requires |registers| > 1
    ensures var i := |registers| - 2;
            Combine(registers[i := Xored(registers[i], d)], memory) == Combine(registers, memory) <==>
            d == 0 || d == 0x1020_4081 || d == 0x2040_8102 || d == 0x3060_c183
  {
    var i := |registers| - 2;
    QuietChange(registers, [d, 0]);
    XoredZero(registers[i + 1]);
    assert XoredAll(registers, Quiet(i) + [d, 0]) == registers[i := Xored(registers[i], d)];
    hide Mix, Xored, RotateLeft, XoredAll, Fold;
    SpreadOfLastButOne(i, d);
    var change := Spread(Quiet(i) + [d, 0]);
    DigestAffine(registers, Quiet(i) + [d, 0]);
    var a, b := Digest(registers), RotateLeft(Digest(memory), 11);
    XoredAssociates(a, change, b);
    XoredCommutes(change, b);
    XoredAssociates(a, b, change);
    XoredCancels(Xored(a, b), change);
  }

  lemma MixPrinted(d: u32, word: u32)
    ensures Xored(Xored(Shl(d, 5), Shr(d, 2)), word) == Xored(Mix(d), word)
  {}

  /** The corpus's digest loop. */
  method DigestLoop(words: seq<u32>) returns (result: u32)
    ensures result == Digest(words)
  {
    hide Xored, Mix, Shl, Shr;
    result := 0x9e37_79b9;
    var i := 0;
    while i < |words|
      invariant 0 <= i <= |words|
      invariant Fold(result, words[i..]) == Digest(words)
    {
      MixPrinted(result, words[i]);
      result := Xored(Xored(Shl(result, 5), Shr(result, 2)), words[i]);
      assert words[i..][1..] == words[i + 1..];
      i := i + 1;
    }
  }
}
