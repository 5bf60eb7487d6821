/** The corpus's statements on the bytes of a word, and whole cases that start from a CRC kernel: the
    kernel's loops, the statements and the returned selection, against the CRC's definition and the
    generator's reference run. */
module Cases {
  import opened WordOps
  import opened Casegen
  import opened Corpus
  import opened Rotations
  import Crc

  /** Byte-pack interleaves the two low bytes of its operands, the left operand's first. */
  lemma PackBytes(a: u32, b: u32)
    ensures var (x, y) := (Crc.LittleEndian(a), Crc.LittleEndian(b));
            Crc.LittleEndian(Pack(a, b)) == [x[0], y[0], x[1], y[1]]
  {
    PackMasks(a, b);
  }

  /** Endian-swap reverses the bytes of its left operand. */
  lemma SwappedBytes(x: u32)
    ensures var s := Crc.LittleEndian(x);
            Crc.LittleEndian(SwapBytes(x)) == [s[3], s[2], s[1], s[0]]
  {
    SwapMasks(x);
    hide SwapBytes;
  }

  /** C's conversion of a 16-bit result to u32. */
  function Widen(x: u16): u32 { x as u32 }

  method Crc32Case(program: seq<Instruction>, id: nat, input: seq<u32>, length: nat, stop: nat, m: Selection)
    returns (result: u32)
    requires |input| == 16 && length <= 16 && stop <= |program|
    requires forall k :: 0 <= k < stop ==> Printable(program[k].operation, Position(k))
    ensures var kernel := Crc.Crc32(input[15], Crc.LowBytes(input[..length]));
            result == Observe(Run(program, Initial(id, kernel, input), stop), m)
  {
    hide *;
    var kernel := Crc.Kernel32(input, length, input[15]);
    result := RemuCase(program, id, kernel, input, stop, m);
  }

  method Crc16Case(program: seq<Instruction>, id: nat, input: seq<u32>, length: nat, stop: nat, m: Selection)
    returns (result: u32)
    requires |input| == 16 && length <= 16 && stop <= |program|
    requires forall k :: 0 <= k < stop ==> Printable(program[k].operation, Position(k))
    ensures var kernel := Widen(Crc.Crc16(input[15], Crc.LowBytes(input[..length])));
            result == Observe(Run(program, Initial(id, kernel, input), stop), m)
  {
    hide *;
    var crc := Crc.Kernel16(input, length, input[15]);
    result := RemuCase(program, id, Widen(crc), input, stop, m);
  }
}
