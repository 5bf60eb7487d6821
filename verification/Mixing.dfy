/** The digest's word operations and the algebra of exclusive or. */
module Mixing {
  import opened WordOps

  /** One turn of the digest loop before the next word is added. */
  function Mix(d: u32): u32 { (d << 5) ^ (d >> 2) }

  lemma XoredCommutes(x: u32, y: u32)
    ensures Xored(x, y) == Xored(y, x)
  {}

  lemma XoredAssociates(x: u32, y: u32, z: u32)
    ensures Xored(Xored(x, y), z) == Xored(x, Xored(y, z))
  {}

  lemma XoredZero(x: u32)
    ensures Xored(x, 0) == x && Xored(x, x) == 0
  {}

  lemma XoredSwap(a: u32, b: u32, x: u32, y: u32)
    ensures Xored(Xored(a, b), Xored(x, y)) == Xored(Xored(a, x), Xored(b, y))
  {
    hide Xored;
    XoredAssociates(a, b, Xored(x, y));
    XoredAssociates(b, x, y);
    XoredCommutes(b, x);
    XoredAssociates(x, b, y);
    XoredAssociates(a, x, Xored(b, y));
  }

  lemma XoredCancels(x: u32, y: u32)
    ensures Xored(x, y) == x <==> y == 0
    ensures Xored(x, y) == 0 <==> x == y
  {
    hide Xored;
    XoredZero(x);
    XoredZero(y);
    XoredAssociates(x, x, y);
    XoredAssociates(x, y, y);
    XoredCommutes(0, y);
    XoredCommutes(0, x);
  }

  lemma MixWords(x: u32, y: u32)
    ensures ((x ^ y) << 5) ^ ((x ^ y) >> 2) == ((x << 5) ^ (x >> 2)) ^ ((y << 5) ^ (y >> 2))
  {}

  lemma MixLinear(x: u32, y: u32)
    ensures Mix(Xored(x, y)) == Xored(Mix(x), Mix(y)) && Mix(0) == 0
  {
    MixWords(x, y);
  }

  /** The words that one turn of the digest forgets. */
  lemma MixKernel(d: u32)
    ensures Mix(d) == 0 <==> d == 0 || d == 0x1020_4081 || d == 0x2040_8102 || d == 0x3060_c183
  {}
}
