/** Bytes, and 32-bit words stored least significant byte first. */
module Bytes {
  import opened Numbers

  type Byte = b: nat | b < 256

  function Octet(n: nat): Byte {
    n % 256
  }

  function Little(n: nat): (bytes: seq<Byte>)
    ensures |bytes| == 4
  {
    [Octet(n), Octet(n / 256), Octet(n / 0x1_0000), Octet(n / 0x100_0000)]
  }

  function ReadWord(bytes: seq<Byte>, at: nat): (n: nat)
    requires at + 4 <= |bytes|
    ensures n < MODULUS
  {
    bytes[at] as int + 256 * bytes[at + 1] as int + 0x1_0000 * bytes[at + 2] as int + 0x100_0000 * bytes[at + 3] as int
  }

  /** A stored word reads back, wherever it is stored. */
  lemma ReadLittle(n: nat, bytes: seq<Byte>, at: nat)
    requires n < MODULUS && at + 4 <= |bytes| && bytes[at..at + 4] == Little(n)
    ensures ReadWord(bytes, at) == n
  {
    var word := bytes[at..at + 4];
    assert word[0] == bytes[at] && word[1] == bytes[at + 1] && word[2] == bytes[at + 2] && word[3] == bytes[at + 3];
    LittleSum(n);
  }

  lemma LittleSum(n: nat)
    requires n < MODULUS
    ensures n == n % 256 + 256 * (n / 256 % 256) + 0x1_0000 * (n / 0x1_0000 % 256) + 0x100_0000 * (n / 0x100_0000 % 256)
  {
    var a := n / 256;
    var b := a / 256;
    assert b == n / 0x1_0000;
    assert b / 256 == n / 0x100_0000;
  }
}
