/** Polynomial shift registers over GF(2), of any width and with any polynomial.
    Both checksum kernels of the corpus are instances: the register is listed from the bit that the
    next shift releases, so a right-shifting register is listed from bit 0 and a left-shifting one
    from its top bit. */
module Lfsr {
  import opened Words

  /** Drops the outgoing bit and lets a zero in at the other end. */
  function Shift(r: seq<bool>): (s: seq<bool>)
    requires r != []
    ensures |s| == |r|
  {
    r[1..] + [false]
  }

  /** One bit-step: shift, and add the polynomial when the outgoing bit was one. */
  function Step(p: seq<bool>, r: seq<bool>): (s: seq<bool>)
    requires |p| == |r| > 0
    ensures |s| == |r|
  {
    if r[0] then Xor(Shift(r), p) else Shift(r)
  }

  function Steps(p: seq<bool>, r: seq<bool>, n: nat): (s: seq<bool>)
    requires |p| == |r| > 0
    ensures |s| == |r|
    decreases n
  {
    if n == 0 then r else Steps(p, Step(p, r), n - 1)
  }

  /** Adds one message bit to the outgoing position. */
  function Inject(r: seq<bool>, bit: bool): (s: seq<bool>)
    requires r != []
    ensures |s| == |r|
  {
    r[0 := r[0] != bit]
  }

  /** Feeds a message, bit by bit. */
  function Feed(p: seq<bool>, r: seq<bool>, bits: seq<bool>): (s: seq<bool>)
    requires |p| == |r| > 0
    ensures |s| == |r|
    decreases |bits|
  {
    if bits == [] then r else Feed(p, Step(p, Inject(r, bits[0])), bits[1..])
  }

  /** At most a register's worth of bits, as a register. */
  function Pad(bits: seq<bool>, width: nat): (s: seq<bool>)
    requires |bits| <= width
    ensures |s| == width
  {
    bits + Zeros(width - |bits|)
  }

  lemma {:induction false} FeedConcat(p: seq<bool>, r: seq<bool>, a: seq<bool>, b: seq<bool>)
    requires |p| == |r| > 0
    ensures Feed(p, r, a + b) == Feed(p, Feed(p, r, a), b)
    decreases |a|
  {
    if a == [] {
      assert a + b == b;
    } else {
      assert (a + b)[1..] == a[1..] + b;
      FeedConcat(p, Step(p, Inject(r, a[0])), a[1..], b);
    }
  }

  // ---------------------------------------------------------------- linearity

  lemma XorSwap(a: seq<bool>, b: seq<bool>, c: seq<bool>)
    requires |a| == |b| == |c|
    ensures Xor(Xor(a, b), c) == Xor(a, Xor(b, c)) == Xor(Xor(a, c), b)
    ensures Xor(Xor(a, c), Xor(b, c)) == Xor(a, b)
  {}

  lemma StepLinear(p: seq<bool>, a: seq<bool>, b: seq<bool>)
    requires |p| == |a| == |b| > 0
    ensures Step(p, Xor(a, b)) == Xor(Step(p, a), Step(p, b))
  {
    var sa, sb := Shift(a), Shift(b);
    assert Shift(Xor(a, b)) == Xor(sa, sb);
    XorSwap(sa, sb, p);
    assert Xor(sa, Xor(sb, p)) == Xor(Xor(sa, sb), p);
  }

  /** The register is a linear function of seed and message together: for two seeds and two
      messages of one length, adding the inputs adds the registers. */
  lemma {:induction false} FeedLinear(p: seq<bool>, r: seq<bool>, s: seq<bool>, a: seq<bool>, b: seq<bool>)
    requires |p| == |r| == |s| > 0 && |a| == |b|
    ensures Feed(p, Xor(r, s), Xor(a, b)) == Xor(Feed(p, r, a), Feed(p, s, b))
    decreases |a|
  {
    if a != [] {
      var r', s' := Inject(r, a[0]), Inject(s, b[0]);
      assert Inject(Xor(r, s), Xor(a, b)[0]) == Xor(r', s');
      StepLinear(p, r', s');
      assert Xor(a, b)[1..] == Xor(a[1..], b[1..]);
      FeedLinear(p, Step(p, r'), Step(p, s'), a[1..], b[1..]);
    }
  }

  // ---------------------------------------------------------------- injectivity

  /** When the polynomial's last coefficient is one, the outgoing bit can be read back from the
      incoming end, so a step loses nothing. */
  lemma StepInjective(p: seq<bool>, a: seq<bool>, b: seq<bool>)
    requires |p| == |a| == |b| > 0 && p[|p| - 1]
    requires Step(p, a) == Step(p, b)
    ensures a == b
  {
    var last := |p| - 1;
    assert Step(p, a)[last] == a[0] && Step(p, b)[last] == b[0];
    forall i | 0 < i < |a| ensures a[i] == b[i] {
      assert Step(p, a)[i - 1] == (a[i] != (a[0] && p[i - 1]));
      assert Step(p, b)[i - 1] == (b[i] != (b[0] && p[i - 1]));
    }
  }

  lemma {:induction false} StepsInjective(p: seq<bool>, a: seq<bool>, b: seq<bool>, n: nat)
    requires |p| == |a| == |b| > 0 && p[|p| - 1]
    requires Steps(p, a, n) == Steps(p, b, n)
    ensures a == b
    decreases n
  {
    if n != 0 {
      StepsInjective(p, Step(p, a), Step(p, b), n - 1);
      StepInjective(p, a, b);
    }
  }

  /** Distinct seeds stay distinct under every message. */
  lemma {:induction false} FeedInjective(p: seq<bool>, r: seq<bool>, s: seq<bool>, bits: seq<bool>)
    requires |p| == |r| == |s| > 0 && p[|p| - 1]
    requires Feed(p, r, bits) == Feed(p, s, bits)
    ensures r == s
    decreases |bits|
  {
    if bits != [] {
      var r', s' := Inject(r, bits[0]), Inject(s, bits[0]);
      FeedInjective(p, Step(p, r'), Step(p, s'), bits[1..]);
      StepInjective(p, r', s');
      forall i | 0 <= i < |r| ensures r[i] == s[i] {
        assert r'[i] == s'[i];
      }
    }
  }

  // ---------------------------------------------------------------- a register's worth of bits

  /** Bits behind the outgoing one only move along in a step. */
  lemma StepCarries(p: seq<bool>, r: seq<bool>, bit: bool, z: seq<bool>)
    requires |p| == |r| == |z| > 0 && !z[|z| - 1]
    ensures Step(p, Xor(r, [bit] + z[..|z| - 1])) == Xor(Step(p, Inject(r, bit)), z)
  {
    var head := [bit] + z[..|z| - 1];
    var behind := [false] + z[..|z| - 1];
    assert Xor(r, head) == Xor(Inject(r, bit), behind);
    StepLinear(p, Inject(r, bit), behind);
    assert Step(p, behind) == z;
  }

  /** Feeding up to a register's worth of bits is adding them all at once and then stepping. */
  lemma {:induction false} FeedAtOnce(p: seq<bool>, r: seq<bool>, bits: seq<bool>)
    requires |p| == |r| > 0 && |bits| <= |p|
    ensures Feed(p, r, bits) == Steps(p, Xor(r, Pad(bits, |p|)), |bits|)
    decreases |bits|
  {
    if bits == [] {
      assert Xor(r, Pad(bits, |p|)) == r;
    } else {
      var z := Pad(bits[1..], |p|);
      assert Pad(bits, |p|) == [bits[0]] + z[..|z| - 1];
      StepCarries(p, r, bits[0], z);
      FeedAtOnce(p, Step(p, Inject(r, bits[0])), bits[1..]);
    }
  }

  lemma WindowInjective(p: seq<bool>, r: seq<bool>, a: seq<bool>, b: seq<bool>)
    requires |p| == |r| > 0 && p[|p| - 1]
    requires |a| == |b| <= |p|
    requires Feed(p, r, a) == Feed(p, r, b)
    ensures a == b
  {
    var pa, pb := Pad(a, |p|), Pad(b, |p|);
    FeedAtOnce(p, r, a);
    FeedAtOnce(p, r, b);
    StepsInjective(p, Xor(r, pa), Xor(r, pb), |a|);
    forall i | 0 <= i < |a| ensures a[i] == b[i] {
      assert Xor(r, pa)[i] == Xor(r, pb)[i];
    }
  }

  /** Every burst is detected: messages that differ only inside one window no wider than the
      register leave different registers, wherever the window lies. */
  lemma BurstDetected(p: seq<bool>, r: seq<bool>, pre: seq<bool>, a: seq<bool>, b: seq<bool>, post: seq<bool>)
    requires |p| == |r| > 0 && p[|p| - 1]
    requires |a| == |b| <= |p| && a != b
    ensures Feed(p, r, pre + a + post) != Feed(p, r, pre + b + post)
  {
    hide Feed, Step;
    var s := Feed(p, r, pre);
    var sa, sb := Feed(p, s, a), Feed(p, s, b);
    FeedConcat(p, r, pre + a, post);
    FeedConcat(p, r, pre + b, post);
    FeedConcat(p, r, pre, a);
    FeedConcat(p, r, pre, b);
    if Feed(p, sa, post) == Feed(p, sb, post) {
      FeedInjective(p, sa, sb, post);
      WindowInjective(p, s, a, b);
    }
  }

  lemma {:induction false} StepsZero(p: seq<bool>, n: nat)
    requires p != []
    ensures Steps(p, Zeros(|p|), n) == Zeros(|p|)
    decreases n
  {
    if n != 0 {
      assert Shift(Zeros(|p|)) == Zeros(|p|);
      StepsZero(p, n - 1);
    }
  }

  /** A register that is fed its own contents clears itself. */
  lemma FeedSelf(p: seq<bool>, r: seq<bool>)
    requires |p| == |r| > 0
    ensures Feed(p, r, r) == Zeros(|p|)
  {
    FeedAtOnce(p, r, r);
    assert Pad(r, |p|) == r;
    assert Xor(r, r) == Zeros(|p|);
    StepsZero(p, |p|);
  }

  /** A register that is fed its own complement ends where the all-ones register would. */
  lemma FeedComplement(p: seq<bool>, r: seq<bool>)
    requires |p| == |r| > 0
    ensures Feed(p, r, Complement(r)) == Steps(p, Complement(Zeros(|p|)), |p|)
  {
    FeedAtOnce(p, r, Complement(r));
    assert Pad(Complement(r), |p|) == Complement(r);
    assert Xor(r, Complement(r)) == Complement(Zeros(|p|));
  }

  // ---------------------------------------------------------------- parity

  predicate OddWeight(s: seq<bool>) {
    Weight(s) % 2 == 1
  }

  lemma {:induction false} ParityXor(a: seq<bool>, b: seq<bool>)
    requires |a| == |b|
    ensures OddWeight(Xor(a, b)) <==> OddWeight(a) != OddWeight(b)
    decreases |a|
  {
    if a != [] {
      assert Xor(a, b)[1..] == Xor(a[1..], b[1..]);
      ParityXor(a[1..], b[1..]);
    }
  }

  /** A polynomial whose register form has odd weight is divisible by x + 1: each step keeps parity. */
  lemma StepKeepsParity(p: seq<bool>, r: seq<bool>)
    requires |p| == |r| > 0 && OddWeight(p)
    ensures OddWeight(Step(p, r)) <==> OddWeight(r)
  {
    WeightConcat(r[1..], [false]);
    ParityXor(Shift(r), p);
  }

  /** The register's parity is the seed's parity plus the message's. */
  lemma {:induction false} FeedParity(p: seq<bool>, r: seq<bool>, bits: seq<bool>)
    requires |p| == |r| > 0 && OddWeight(p)
    ensures OddWeight(Feed(p, r, bits)) <==> OddWeight(r) != OddWeight(bits)
    decreases |bits|
  {
    if bits != [] {
      var r' := Inject(r, bits[0]);
      assert r'[1..] == r[1..];
      StepKeepsParity(p, r');
      FeedParity(p, Step(p, r'), bits[1..]);
    }
  }
}
