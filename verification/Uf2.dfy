/** UF2 files: the packer, and the strict parser its output must satisfy. */
module Uf2 {
  import opened Bytes
  import opened Flash
  import opened Numbers
  import opened Options

  const BLOCK: nat := 512
  const DATA_OFFSET: nat := 32
  const DATA_CAPACITY: nat := 476
  const MAGIC_START_0: nat := 0x0a32_4655
  const MAGIC_START_1: nat := 0x9e5d_5157
  const MAGIC_END: nat := 0x0ab1_6f30
  const NOT_MAIN_FLASH: nat := 0x0001
  const FILE_CONTAINER: nat := 0x1000
  const FAMILY_ID: nat := 0x2000
  const EXTENSION_TAGS: nat := 0x8000

  predicate Has(flags: nat, flag: nat)
    requires flag > 0
  {
    flags / flag % 2 == 1
  }

  // ---------------------------------------------------------------- packing

  /** The eight header words of a block. */
  function Words(address: nat, index: nat, blocks: nat, family: nat, size: nat): (w: seq<nat>)
    ensures |w| == 8
  {
    [MAGIC_START_0, MAGIC_START_1, FAMILY_ID, address + index * PAYLOAD, size, index, blocks, family]
  }

  function Encode(words: seq<nat>): (s: seq<Byte>)
    ensures |s| == 4 * |words|
  {
    if words == [] then [] else Encode(words[..|words| - 1]) + Little(words[|words| - 1])
  }

  function PackedBlock(address: nat, index: nat, blocks: nat, family: nat, chunk: seq<Byte>): (raw: seq<Byte>)
    requires |chunk| <= PAYLOAD
    ensures |raw| == BLOCK
  {
    Encode(Words(address, index, blocks, family, |chunk|)) + chunk + Fill(DATA_CAPACITY - |chunk|, 0) + Little(MAGIC_END)
  }

  /** The block that carries chunk `k` of the payload. */
  function PackedChunk(payload: seq<Byte>, address: nat, family: nat, k: nat): (raw: seq<Byte>)
    requires k < BlockCount(|payload|)
    ensures |raw| == BLOCK
  {
    PackedBlock(address, k, BlockCount(|payload|), family, Chunk(payload, k))
  }

  lemma PackedChunkIs(payload: seq<Byte>, address: nat, family: nat, k: nat)
    requires k < BlockCount(|payload|)
    ensures PackedChunk(payload, address, family, k)
            == PackedBlock(address, k, BlockCount(|payload|), family, Chunk(payload, k))
  {
  }

  /** The file: blocks one after another, in the given order. */
  function PackedFile(payload: seq<Byte>, address: nat, family: nat, order: seq<nat>): (file: seq<Byte>)
    requires forall i :: 0 <= i < |order| ==> order[i] < BlockCount(|payload|)
    ensures |file| == BLOCK * |order|
  {
    if order == [] then []
    else
      var last := |order| - 1;
      PackedFile(payload, address, family, order[..last]) + PackedChunk(payload, address, family, order[last])
  }

  function Counting(n: nat): (order: seq<nat>)
    ensures |order| == n && forall i :: 0 <= i < n ==> order[i] == i
  {
    seq(n, i requires i >= 0 => i)
  }

  /** Every word fits its 32-bit field; an empty payload has no fields to fit. */
  predicate Fits(length: nat, address: int, family: int) {
    var n := BlockCount(length);
    n == 0 || (0 <= address && address + (n - 1) * PAYLOAD < MODULUS && n < MODULUS && 0 <= family < MODULUS)
  }

  method StoreWord(block: array<Byte>, at: nat, n: nat)
    requires at + 4 <= block.Length
    modifies block
    ensures block[..] == old(block[..at]) + Little(n) + old(block[at + 4..])
  {
    var word := Little(n);
    block[at], block[at + 1], block[at + 2], block[at + 3] := word[0], word[1], word[2], word[3];
  }

  /** Fills the eight header words. */
  method StoreHeader(block: array<Byte>, words: seq<nat>)
    requires block.Length == BLOCK && |words| == 8
    modifies block
    ensures block[..] == Encode(words) + old(block[DATA_OFFSET..])
  {
    for k := 0 to 8
      invariant block[..] == Encode(words[..k]) + old(block[4 * k..])
    {
      ghost var before := block[..];
      StoreWord(block, 4 * k, words[k]);
      assert before[..4 * k] == Encode(words[..k]);
      assert before[4 * k + 4..] == old(block[4 * (k + 1)..]);
      assert words[..k + 1][..k] == words[..k];
    }
    assert words[..8] == words;
  }

  /** One block, filled field by field. */
  method FillBlock(address: nat, index: nat, blocks: nat, family: nat, chunk: seq<Byte>) returns (raw: seq<Byte>)
    requires |chunk| <= PAYLOAD
    ensures raw == PackedBlock(address, index, blocks, family, chunk)
  {
    var block := new Byte[512](_ => 0);
    var words: seq<nat> := [0x0a32_4655, 0x9e5d_5157, 0x2000, address + index * 256, |chunk|, index, blocks, family];
    StoreHeader(block, words);
    assert block[..] == Encode(words) + Fill(BLOCK - DATA_OFFSET, 0);
    for k := 0 to |chunk|
      invariant block[..] == Encode(words) + chunk[..k] + Fill(BLOCK - DATA_OFFSET - k, 0)
    {
      ghost var before := block[..];
      block[32 + k] := chunk[k];
      assert block[..] == before[DATA_OFFSET + k := chunk[k]];
    }
    assert chunk[..|chunk|] == chunk;
    StoreWord(block, 508, 0x0ab1_6f30);
    raw := block[..];
    assert raw == PackedBlock(address, index, blocks, family, chunk);
  }

  /** The packer: the blocks in order, or an error when a word does not fit. */
  method PackUf2(payload: seq<Byte>, address: int, family: int) returns (file: Option<seq<Byte>>)
    ensures Fits(|payload|, address, family) ==>
              file == Some(if payload == [] then [] else PackedFile(payload, address, family, Counting(BlockCount(|payload|))))
    ensures !Fits(|payload|, address, family) ==> file == None
  {
    hide Chunk, PackedBlock, PackedChunk;
    var blocks := (|payload| + 255) / 256;
    var encoded: seq<Byte> := [];
    for index := 0 to blocks
      invariant index > 0 ==> 0 <= address && address + (index - 1) * PAYLOAD < MODULUS && blocks < MODULUS && 0 <= family < MODULUS
      invariant index > 0 ==> encoded == PackedFile(payload, address, family, Counting(index))
      invariant index == 0 ==> encoded == []
    {
      var end := if (index + 1) * 256 < |payload| then (index + 1) * 256 else |payload|;
      var chunk := payload[index * 256..end];
      assert chunk == Chunk(payload, index);
      var target := address + index * 256;
      if target < 0 || target > 0xffff_ffff || blocks > 0xffff_ffff || family < 0 || family > 0xffff_ffff {
        return None;
      }
      var raw := FillBlock(address, index, blocks, family, chunk);
      PackedChunkIs(payload, address, family, index);
      assert Counting(index + 1)[..index] == Counting(index);
      encoded := encoded + raw;
    }
    file := Some(encoded);
  }
}
