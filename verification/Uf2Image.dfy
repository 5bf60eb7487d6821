/** The strict UF2 parser and the flash it materialises; what the packer writes, in whatever order the
    blocks arrive, parses to the one segment that was packed. */
module Uf2Image {
  import opened Bytes
  import opened Flash
  import opened Numbers
  import opened Options
  import opened Permutations
  import opened Uf2

  datatype Block = Block(flags: nat, target: nat, number: nat, count: nat, family: Option<nat>, data: seq<Byte>)

  datatype Segment = Segment(address: nat, data: seq<Byte>, notMainFlash: bool)

  datatype Image = Image(family: Option<nat>, blocks: seq<Block>, metadata: seq<Block>, segments: seq<Segment>)

  datatype Uf2Error =
    | InvalidLength(length: nat)
    | TooManyBlocks(count: nat)
    | BadMagic(physical: nat)
    | FileContainer(physical: nat)
    | BlockNumber(physical: nat, number: nat, count: nat)
    | InconsistentBlockCount(expected: nat, actual: nat, physical: nat)
    | PayloadSize(physical: nat, size: nat)
    | AddressOverflow(physical: nat)
    | InconsistentFamily(expected: nat, actual: nat, physical: nat)
    | MissingFamily(physical: nat)
    | DuplicateBlock(number: nat)
    | NoFlashBlocks
    | MissingBlocks
    | BlockTotal(physical: nat, declared: nat)
    | Overlap(previousEnd: nat, nextStart: nat)
    | OutsideFlash(address: nat, length: nat)

  /** The parser's variables. */
  datatype Scan = Scan(blocks: map<nat, Block>, metadata: seq<Block>, declared: Option<nat>, family: Option<nat>)

  /** The family the image has once this block is seen, or why it may not be seen. */
  function NextFamily(known: Option<nat>, block: Option<nat>, physical: nat): Result<Option<nat>, Uf2Error> {
    if block.Some? then
      if known.Some? && known.value != block.value then Err(InconsistentFamily(known.value, block.value, physical))
      else Ok(block)
    else if known.Some? then Err(MissingFamily(physical))
    else Ok(None)
  }

  /** One physical block. */
  function ScanBlock(raw: seq<Byte>, physical: nat, s: Scan): Result<Scan, Uf2Error>
    requires |raw| == BLOCK
  {
    var flags, target, size := ReadWord(raw, 8), ReadWord(raw, 12), ReadWord(raw, 16);
    var number, count := ReadWord(raw, 20), ReadWord(raw, 24);
    if ReadWord(raw, 0) != MAGIC_START_0 || ReadWord(raw, 4) != MAGIC_START_1 || ReadWord(raw, 508) != MAGIC_END then
      Err(BadMagic(physical))
    else if Has(flags, FILE_CONTAINER) then Err(FileContainer(physical))
    else if count == 0 || number >= count then Err(BlockNumber(physical, number, count))
    else if !Has(flags, EXTENSION_TAGS) && s.declared.Some? && s.declared.value != count then
      Err(InconsistentBlockCount(s.declared.value, count, physical))
    else if size == 0 || size > DATA_CAPACITY then Err(PayloadSize(physical, size))
    else if target + size >= MODULUS then Err(AddressOverflow(physical))
    else
      var family := if Has(flags, FAMILY_ID) then Some(ReadWord(raw, 28)) else None;
      var block := Block(flags, target, number, count, family, raw[DATA_OFFSET..DATA_OFFSET + size]);
      if Has(flags, EXTENSION_TAGS) then Ok(s.(metadata := s.metadata + [block]))
      else
        var next := NextFamily(s.family, family, physical);
        if next.Err? then Err(next.error)
        else if number in s.blocks then Err(DuplicateBlock(number))
        else Ok(Scan(s.blocks[number := block], s.metadata, Some(count), next.value))
  }

  /** The first `n` physical blocks of the file. */
  function ScanAll(file: seq<Byte>, n: nat): Result<Scan, Uf2Error>
    requires BLOCK * n <= |file|
  {
    if n == 0 then Ok(Scan(map[], [], None, None))
    else
      var s := ScanAll(file, n - 1);
      if s.Err? then s else ScanBlock(file[BLOCK * (n - 1)..BLOCK * n], n - 1, s.value)
  }

  /** The blocks of a table in number order. */
  function InNumberOrder(blocks: map<nat, Block>, n: nat): seq<Block> {
    if n == 0 then []
    else InNumberOrder(blocks, n - 1) + if n - 1 in blocks then [blocks[n - 1]] else []
  }

  function InsertByAddress(sorted: seq<Block>, block: Block): seq<Block> {
    if sorted == [] || block.target < sorted[0].target then [block] + sorted
    else [sorted[0]] + InsertByAddress(sorted[1..], block)
  }

  /** The stable sort by target address. */
  function ByAddress(blocks: seq<Block>): seq<Block> {
    if blocks == [] then []
    else InsertByAddress(ByAddress(blocks[..|blocks| - 1]), blocks[|blocks| - 1])
  }

  function End(segment: Segment): nat {
    segment.address + |segment.data|
  }

  /** Appends a block to the segments: it may extend the last one, but not overlap it. */
  function Attach(segments: seq<Segment>, block: Block): Result<seq<Segment>, Uf2Error> {
    var separate := Has(block.flags, NOT_MAIN_FLASH);
    if segments == [] then Ok([Segment(block.target, block.data, separate)])
    else
      var last := segments[|segments| - 1];
      if block.target < End(last) then Err(Overlap(End(last), block.target))
      else if block.target == End(last) && separate == last.notMainFlash then
        Ok(segments[..|segments| - 1] + [last.(data := last.data + block.data)])
      else Ok(segments + [Segment(block.target, block.data, separate)])
  }

  function AttachAll(blocks: seq<Block>): Result<seq<Segment>, Uf2Error> {
    if blocks == [] then Ok([])
    else
      var before := AttachAll(blocks[..|blocks| - 1]);
      if before.Err? then before else Attach(before.value, blocks[|blocks| - 1])
  }

  function Finish(s: Scan, physical: nat): Result<Image, Uf2Error> {
    if s.declared.None? then Err(NoFlashBlocks)
    else if |s.blocks| != s.declared.value then Err(MissingBlocks)
    else if |s.blocks| + |s.metadata| != physical then Err(BlockTotal(physical, s.declared.value))
    else
      var blocks := InNumberOrder(s.blocks, s.declared.value);
      var segments := AttachAll(ByAddress(blocks));
      if segments.Err? then Err(segments.error)
      else Ok(Image(s.family, blocks, s.metadata, segments.value))
  }

  function Parse(file: seq<Byte>): Result<Image, Uf2Error> {
    if file == [] || |file| % BLOCK != 0 then Err(InvalidLength(|file|))
    else
      var physical := |file| / BLOCK;
      if physical >= MODULUS then Err(TooManyBlocks(physical))
      else
        var s := ScanAll(file, physical);
        if s.Err? then Err(s.error) else Finish(s.value, physical)
  }

  // ---------------------------------------------------------------- reading a packed block back

  lemma {:induction false} EncodeAt(words: seq<nat>, rest: seq<Byte>, k: nat)
    requires k < |words|
    ensures (Encode(words) + rest)[4 * k..4 * k + 4] == Little(words[k])
  {
    var last := |words| - 1;
    var front := Encode(words[..last]);
    if k == last {
      assert (front + Little(words[last]) + rest)[4 * last..4 * last + 4] == Little(words[last]);
    } else {
      EncodeAt(words[..last], Little(words[last]) + rest, k);
      assert front + (Little(words[last]) + rest) == Encode(words) + rest;
    }
  }

  lemma HeaderWord(address: nat, index: nat, blocks: nat, family: nat, chunk: seq<Byte>, k: nat)
    requires |chunk| <= PAYLOAD && k < 8
    requires Words(address, index, blocks, family, |chunk|)[k] < MODULUS
    ensures ReadWord(PackedBlock(address, index, blocks, family, chunk), 4 * k)
            == Words(address, index, blocks, family, |chunk|)[k]
  {
    var words := Words(address, index, blocks, family, |chunk|);
    var rest := chunk + Fill(DATA_CAPACITY - |chunk|, 0) + Little(MAGIC_END);
    var raw := PackedBlock(address, index, blocks, family, chunk);
    hide Words, Little, Encode, Fill, ReadWord;
    EncodeAt(words, rest, k);
    assert raw == Encode(words) + rest;
    ReadLittle(words[k], raw, 4 * k);
  }

  lemma TrailerAndData(address: nat, index: nat, blocks: nat, family: nat, chunk: seq<Byte>)
    requires |chunk| <= PAYLOAD
    ensures var raw := PackedBlock(address, index, blocks, family, chunk);
            ReadWord(raw, 508) == MAGIC_END && raw[DATA_OFFSET..DATA_OFFSET + |chunk|] == chunk
  {
    hide Words, Little, Encode, Fill, ReadWord;
    var raw := PackedBlock(address, index, blocks, family, chunk);
    assert raw[508..512] == Little(MAGIC_END);
    ReadLittle(MAGIC_END, raw, 508);
  }

  /** The block that chunk `k` parses to. */
  function Expected(payload: seq<Byte>, address: nat, family: nat, k: nat): Block
    requires k < BlockCount(|payload|)
  {
    Block(FAMILY_ID, address + k * PAYLOAD, k, BlockCount(|payload|), Some(family), Chunk(payload, k))
  }

  lemma PackedFields(payload: seq<Byte>, address: nat, family: nat, k: nat)
    requires k < BlockCount(|payload|) && Fits(|payload|, address, family)
    ensures var raw, size := PackedChunk(payload, address, family, k), |Chunk(payload, k)|;
            && ReadWord(raw, 0) == MAGIC_START_0 && ReadWord(raw, 4) == MAGIC_START_1 && ReadWord(raw, 508) == MAGIC_END
            && ReadWord(raw, 8) == FAMILY_ID && ReadWord(raw, 12) == address + k * PAYLOAD
            && ReadWord(raw, 16) == size && ReadWord(raw, 20) == k
            && ReadWord(raw, 24) == BlockCount(|payload|) && ReadWord(raw, 28) == family
            && raw[DATA_OFFSET..DATA_OFFSET + size] == Chunk(payload, k)
            && address + k * PAYLOAD < MODULUS
  {
    var n := BlockCount(|payload|);
    var chunk := Chunk(payload, k);
    PackedChunkIs(payload, address, family, k);
    assert address + k * PAYLOAD < MODULUS;
    hide ReadWord, PackedBlock, PackedChunk, Chunk, BlockCount;
    HeaderWord(address, k, n, family, chunk, 0);
    HeaderWord(address, k, n, family, chunk, 1);
    HeaderWord(address, k, n, family, chunk, 2);
    HeaderWord(address, k, n, family, chunk, 3);
    HeaderWord(address, k, n, family, chunk, 4);
    HeaderWord(address, k, n, family, chunk, 5);
    HeaderWord(address, k, n, family, chunk, 6);
    HeaderWord(address, k, n, family, chunk, 7);
    TrailerAndData(address, k, n, family, chunk);
  }

  /** A packed block is accepted unless its end reaches the top of the address space. */
  lemma ScanPacked(payload: seq<Byte>, address: nat, family: nat, k: nat, physical: nat, s: Scan)
    requires k < BlockCount(|payload|) && Fits(|payload|, address, family)
    requires k !in s.blocks
    requires s.declared.None? || s.declared == Some(BlockCount(|payload|))
    requires s.family.None? || s.family == Some(family)
    ensures var r := ScanBlock(PackedChunk(payload, address, family, k), physical, s);
            if address + k * PAYLOAD + |Chunk(payload, k)| >= MODULUS then r == Err(AddressOverflow(physical))
            else r == Ok(Scan(s.blocks[k := Expected(payload, address, family, k)], s.metadata,
                              Some(BlockCount(|payload|)), Some(family)))
  {
    PackedFields(payload, address, family, k);
    assert Has(FAMILY_ID, FAMILY_ID) && !Has(FAMILY_ID, FILE_CONTAINER) && !Has(FAMILY_ID, EXTENSION_TAGS);
    hide ReadWord, PackedChunk, Chunk, BlockCount, Has, Fits;
  }

  // ---------------------------------------------------------------- a packed file, in any order

  lemma {:induction false} ScanPrefix(file: seq<Byte>, rest: seq<Byte>, n: nat)
    requires BLOCK * n <= |file|
    ensures ScanAll(file + rest, n) == ScanAll(file, n)
  {
    hide ScanBlock;
    if n != 0 {
      ScanPrefix(file, rest, n - 1);
      assert (file + rest)[BLOCK * (n - 1)..BLOCK * n] == file[BLOCK * (n - 1)..BLOCK * n];
    }
  }

  /** The order of a file's chunks: existing ones, none twice. */
  ghost predicate Orders(order: seq<nat>, n: nat) {
    && (forall i :: 0 <= i < |order| ==> order[i] < n)
    && (forall i, j :: 0 <= i < j < |order| ==> order[i] != order[j])
  }

  /** The parser's table after the chunks in `order`. */
  ghost function Seen(payload: seq<Byte>, address: nat, family: nat, order: seq<nat>): (m: map<nat, Block>)
    requires forall i :: 0 <= i < |order| ==> order[i] < BlockCount(|payload|)
    ensures forall k :: k in m <==> k in order
    ensures forall k :: k in m ==> m[k] == Expected(payload, address, family, k)
  {
    map k | k in order :: Expected(payload, address, family, k)
  }

  predicate ChunkFits(payload: seq<Byte>, address: nat, k: nat)
    requires k < BlockCount(|payload|)
  {
    address + k * PAYLOAD + |Chunk(payload, k)| < MODULUS
  }

  ghost function After(payload: seq<Byte>, address: nat, family: nat, order: seq<nat>): Scan
    requires forall i :: 0 <= i < |order| ==> order[i] < BlockCount(|payload|)
  {
    if order == [] then Scan(map[], [], None, None)
    else Scan(Seen(payload, address, family, order), [], Some(BlockCount(|payload|)), Some(family))
  }

  lemma ScanSnoc(payload: seq<Byte>, address: nat, family: nat, order: seq<nat>)
    requires Orders(order, BlockCount(|payload|)) && order != []
    ensures var n := |order|;
            var file := PackedFile(payload, address, family, order);
            var before := ScanAll(PackedFile(payload, address, family, order[..n - 1]), n - 1);
            ScanAll(file, n)
            == if before.Err? then before
               else ScanBlock(PackedChunk(payload, address, family, order[n - 1]), n - 1, before.value)
  {
    hide ScanBlock, PackedChunk;
    var n := |order|;
    var front := PackedFile(payload, address, family, order[..n - 1]);
    var chunk := PackedChunk(payload, address, family, order[n - 1]);
    ScanPrefix(front, chunk, n - 1);
    assert (front + chunk)[BLOCK * (n - 1)..BLOCK * n] == chunk;
  }

  ghost predicate AllFit(payload: seq<Byte>, address: nat, order: seq<nat>)
    requires forall i :: 0 <= i < |order| ==> order[i] < BlockCount(|payload|)
  {
    forall i :: 0 <= i < |order| ==> ChunkFits(payload, address, order[i])
  }

  lemma AllFitSnoc(payload: seq<Byte>, address: nat, order: seq<nat>)
    requires order != [] && forall i :: 0 <= i < |order| ==> order[i] < BlockCount(|payload|)
    ensures var last := |order| - 1;
            AllFit(payload, address, order) <==>
            AllFit(payload, address, order[..last]) && ChunkFits(payload, address, order[last])
  {
    hide ChunkFits, BlockCount;
    var last := |order| - 1;
    if AllFit(payload, address, order) {
      forall i | 0 <= i < last ensures ChunkFits(payload, address, order[..last][i]) {
        assert ChunkFits(payload, address, order[i]);
      }
    }
    if AllFit(payload, address, order[..last]) && ChunkFits(payload, address, order[last]) {
      forall i | 0 <= i < |order| ensures ChunkFits(payload, address, order[i]) {
        assert i < last ==> order[..last][i] == order[i];
      }
    }
  }

  lemma SeenSnoc(payload: seq<Byte>, address: nat, family: nat, front: seq<nat>, k: nat)
    requires (forall i :: 0 <= i < |front| ==> front[i] < BlockCount(|payload|)) && k < BlockCount(|payload|)
    ensures Seen(payload, address, family, front)[k := Expected(payload, address, family, k)]
            == Seen(payload, address, family, front + [k])
  {
    hide Expected, BlockCount;
  }

  /** One more chunk after those in `front`. */
  lemma ScanNext(payload: seq<Byte>, address: nat, family: nat, front: seq<nat>, k: nat, physical: nat)
    requires k !in front && k < BlockCount(|payload|) && Fits(|payload|, address, family)
    requires forall i :: 0 <= i < |front| ==> front[i] < BlockCount(|payload|)
    ensures var r := ScanBlock(PackedChunk(payload, address, family, k), physical, After(payload, address, family, front));
            if ChunkFits(payload, address, k) then r == Ok(After(payload, address, family, front + [k])) else r.Err?
  {
    SeenSnoc(payload, address, family, front, k);
    SeenNothing(payload, address, family);
    hide ScanBlock, PackedChunk, Chunk, BlockCount, Expected, Fits;
    ScanPacked(payload, address, family, k, physical, After(payload, address, family, front));
    hide Seen;
  }

  lemma SeenNothing(payload: seq<Byte>, address: nat, family: nat)
    ensures Seen(payload, address, family, []) == map[]
  {
  }

  /** Scanning packed chunks: each is entered under its number, until one reaches the top of the
      address space. */
  lemma {:induction false} ScanOrder(payload: seq<Byte>, address: nat, family: nat, order: seq<nat>)
    requires Orders(order, BlockCount(|payload|)) && Fits(|payload|, address, family)
    ensures var r := ScanAll(PackedFile(payload, address, family, order), |order|);
            if AllFit(payload, address, order) then r == Ok(After(payload, address, family, order)) else r.Err?
    decreases |order|
  {
    if order != [] {
      var last := |order| - 1;
      var front := order[..last];
      assert order == front + [order[last]];
      AllFitSnoc(payload, address, order);
      ScanSnoc(payload, address, family, order);
      assert forall i :: 0 <= i < last ==> front[i] == order[i] && order[i] != order[last];
      ScanNext(payload, address, family, front, order[last], last);
      hide ScanBlock, PackedChunk, Chunk, BlockCount, PackedFile, Fits, After, AllFit, ChunkFits, ScanAll;
      ScanOrder(payload, address, family, front);
    }
  }

  /** All blocks, in number order. */
  function AllExpected(payload: seq<Byte>, address: nat, family: nat, n: nat): (blocks: seq<Block>)
    requires n <= BlockCount(|payload|)
    ensures |blocks| == n
    ensures forall k :: 0 <= k < n ==> blocks[k] == Expected(payload, address, family, k)
  {
    if n == 0 then [] else AllExpected(payload, address, family, n - 1) + [Expected(payload, address, family, n - 1)]
  }

  lemma {:induction false} NumberOrder(payload: seq<Byte>, address: nat, family: nat, order: seq<nat>, n: nat)
    requires Permutes(order, BlockCount(|payload|)) && n <= BlockCount(|payload|)
    ensures InNumberOrder(Seen(payload, address, family, order), n) == AllExpected(payload, address, family, n)
  {
    hide Expected, BlockCount;
    if n != 0 {
      NumberOrder(payload, address, family, order, n - 1);
      var i := PlaceOf(order, BlockCount(|payload|), n - 1);
    }
  }

  lemma {:induction false} InsertLast(sorted: seq<Block>, block: Block)
    requires forall i :: 0 <= i < |sorted| ==> sorted[i].target < block.target
    ensures InsertByAddress(sorted, block) == sorted + [block]
  {
    if sorted != [] {
      InsertLast(sorted[1..], block);
    }
  }

  /** The packed blocks are already in address order. */
  lemma {:induction false} AlreadySorted(payload: seq<Byte>, address: nat, family: nat, n: nat)
    requires n <= BlockCount(|payload|)
    ensures ByAddress(AllExpected(payload, address, family, n)) == AllExpected(payload, address, family, n)
  {
    hide BlockCount;
    if n != 0 {
      var blocks := AllExpected(payload, address, family, n);
      AlreadySorted(payload, address, family, n - 1);
      assert blocks[..n - 1] == AllExpected(payload, address, family, n - 1);
      InsertLast(blocks[..n - 1], blocks[n - 1]);
    }
  }

  lemma AttachNext(segment: Segment, block: Block)
    requires block.target == End(segment) && !segment.notMainFlash && block.flags == FAMILY_ID
    ensures Attach([segment], block) == Ok([segment.(data := segment.data + block.data)])
  {
    var joined := segment.(data := segment.data + block.data);
    assert [segment][..0] + [joined] == [joined];
  }

  lemma AttachFirst(block: Block)
    requires block.flags == FAMILY_ID
    ensures AttachAll([block]) == Ok([Segment(block.target, block.data, false)])
  {
    assert [block][..0] == [];
    assert AttachAll([]) == Ok([]);
  }

  lemma AttachSnoc(blocks: seq<Block>)
    requires blocks != []
    ensures var before := AttachAll(blocks[..|blocks| - 1]);
            AttachAll(blocks) == if before.Err? then before else Attach(before.value, blocks[|blocks| - 1])
  {
  }

  lemma ChunkJoins(payload: seq<Byte>, n: nat)
    requires n < BlockCount(|payload|)
    ensures var start := n * PAYLOAD;
            start + |Chunk(payload, n)| <= |payload|
            && payload[..start] + Chunk(payload, n) == payload[..start + |Chunk(payload, n)|]
    ensures n > 0 ==> n * PAYLOAD == (n - 1) * PAYLOAD + |Chunk(payload, n - 1)|
  {
  }

  /** They join into one segment. */
  lemma {:induction false} OneSegment(payload: seq<Byte>, address: nat, family: nat, n: nat)
    requires 0 < n <= BlockCount(|payload|)
    ensures var end := (n - 1) * PAYLOAD + |Chunk(payload, n - 1)|;
            AttachAll(AllExpected(payload, address, family, n)) == Ok([Segment(address, payload[..end], false)])
  {
    var blocks := AllExpected(payload, address, family, n);
    var chunk := Chunk(payload, n - 1);
    assert blocks[..n - 1] == AllExpected(payload, address, family, n - 1);
    assert blocks[n - 1] == Expected(payload, address, family, n - 1);
    ChunkJoins(payload, n - 1);
    hide AttachAll, BlockCount, Chunk, AllExpected, Attach;
    if n == 1 {
      assert payload[..0] + chunk == chunk;
      AttachFirst(blocks[0]);
      assert blocks == [blocks[0]];
    } else {
      AttachSnoc(blocks);
      OneSegment(payload, address, family, n - 1);
      AttachNext(Segment(address, payload[..(n - 1) * PAYLOAD], false), blocks[n - 1]);
    }
  }

  lemma ChunksFitIff(payload: seq<Byte>, address: nat, family: int, order: seq<nat>)
    requires payload != [] && Permutes(order, BlockCount(|payload|)) && Fits(|payload|, address, family)
    ensures AllFit(payload, address, order) <==> address + |payload| < MODULUS
  {
    var n := BlockCount(|payload|);
    LastChunk(payload);
    hide Chunk, BlockCount;
    var last := PlaceOf(order, n, n - 1);
    assert ChunkFits(payload, address, order[last]) <==> address + |payload| < MODULUS;
    forall i | 0 <= i < |order| && address + |payload| < MODULUS ensures ChunkFits(payload, address, order[i]) {
      assert order[i] * PAYLOAD + |Chunk(payload, order[i])| <= |payload|;
    }
  }

  lemma SeenSize(payload: seq<Byte>, address: nat, family: nat, order: seq<nat>)
    requires Permutes(order, BlockCount(|payload|))
    ensures |Seen(payload, address, family, order)| == |order|
  {
    var seen := Seen(payload, address, family, order);
    MembersSize(order);
    assert seen.Keys == Members(order);
    assert |seen| == |seen.Keys|;
  }

  lemma WholeSegment(payload: seq<Byte>, address: nat, family: nat)
    requires payload != []
    ensures AttachAll(AllExpected(payload, address, family, BlockCount(|payload|)))
            == Ok([Segment(address, payload, false)])
  {
    var n := BlockCount(|payload|);
    LastChunk(payload);
    var end := (n - 1) * PAYLOAD + |Chunk(payload, n - 1)|;
    assert end == |payload|;
    assert payload[..end] == payload;
    hide *;
    OneSegment(payload, address, family, n);
  }

  lemma FinishIs(s: Scan, n: nat, blocks: seq<Block>, segments: seq<Segment>)
    requires s.declared == Some(n) && |s.blocks| == n && s.metadata == []
    requires InNumberOrder(s.blocks, n) == blocks && AttachAll(ByAddress(blocks)) == Ok(segments)
    ensures Finish(s, n) == Ok(Image(s.family, blocks, [], segments))
  {
  }

  lemma FinishPacked(payload: seq<Byte>, address: nat, family: nat, order: seq<nat>)
    requires payload != [] && Permutes(order, BlockCount(|payload|))
    ensures Finish(After(payload, address, family, order), |order|)
            == Ok(Image(Some(family), AllExpected(payload, address, family, BlockCount(|payload|)), [],
                        [Segment(address, payload, false)]))
  {
    var n := BlockCount(|payload|);
    var s := After(payload, address, family, order);
    hide *;
    LastChunk(payload);
    OrderLength(order, n);
    AfterIs(payload, address, family, order);
    SeenSize(payload, address, family, order);
    NumberOrder(payload, address, family, order, n);
    AlreadySorted(payload, address, family, n);
    WholeSegment(payload, address, family);
    FinishIs(s, n, AllExpected(payload, address, family, n), [Segment(address, payload, false)]);
  }

  lemma AfterIs(payload: seq<Byte>, address: nat, family: nat, order: seq<nat>)
    requires order != [] && forall i :: 0 <= i < |order| ==> order[i] < BlockCount(|payload|)
    ensures After(payload, address, family, order)
            == Scan(Seen(payload, address, family, order), [], Some(BlockCount(|payload|)), Some(family))
  {
  }

  lemma OrderLength(order: seq<nat>, n: nat)
    requires Permutes(order, n)
    ensures |order| == n && forall i :: 0 <= i < |order| ==> order[i] < n
  {
  }

  lemma ParseScanned(file: seq<Byte>, n: nat)
    requires 0 < n < MODULUS && |file| == BLOCK * n
    ensures Parse(file)
            == var s := ScanAll(file, n); if s.Err? then Err(s.error) else Finish(s.value, n)
  {
    assert |file| / BLOCK == n && |file| % BLOCK == 0;
  }

  /** What the parser makes of a packed file, whatever the physical order of its blocks: the payload as
      one segment at its address, exactly when the payload ends below the top of the address space. (The
      packer itself also accepts a payload that ends there, or whose last block runs past it.) */
  lemma ParsePacked(payload: seq<Byte>, address: nat, family: nat, order: seq<nat>)
    requires payload != [] && Permutes(order, BlockCount(|payload|)) && Fits(|payload|, address, family)
    ensures var r := Parse(PackedFile(payload, address, family, order));
            if address + |payload| < MODULUS then
              r == Ok(Image(Some(family), AllExpected(payload, address, family, BlockCount(|payload|)), [],
                            [Segment(address, payload, false)]))
            else r.Err?
  {
    LastChunk(payload);
    ChunksFitIff(payload, address, family, order);
    ScanOrder(payload, address, family, order);
    FinishPacked(payload, address, family, order);
    hide Chunk, BlockCount, ScanAll, PackedFile, AllExpected, After, AllFit, Finish, Parse;
    ParseScanned(PackedFile(payload, address, family, order), |order|);
  }

  /** One byte at the very top of the address space: packed, and refused. */
  lemma TopRefused()
    ensures Fits(1, MODULUS - 1, 0) && Parse(PackedFile([0], MODULUS - 1, 0, Counting(1))).Err?
  {
    assert BlockCount(1) == 1;
    ParsePacked([0], MODULUS - 1, 0, Counting(1));
  }

  // ---------------------------------------------------------------- any accepted file

  /** Block `b` puts `byte` at address `at`. */
  predicate Puts(b: Block, at: nat, byte: Byte) {
    b.target <= at < b.target + |b.data| && b.data[at - b.target] == byte
  }

  predicate Holds(s: Segment, at: nat, byte: Byte) {
    s.address <= at < End(s) && s.data[at - s.address] == byte
  }

  ghost predicate Put(blocks: seq<Block>, at: nat, byte: Byte) {
    exists b :: b in blocks && Puts(b, at, byte)
  }

  ghost predicate Held(segments: seq<Segment>, at: nat, byte: Byte) {
    exists s :: s in segments && Holds(s, at, byte)
  }

  /** Segments in address order that do not overlap, none empty. */
  ghost predicate Apart(segments: seq<Segment>) {
    && (forall i :: 0 <= i < |segments| ==> segments[i].data != [])
    && (forall i, j :: 0 <= i < j < |segments| ==> End(segments[i]) <= segments[j].address)
  }

  /** No address belongs to two blocks. */
  ghost predicate Exclusive(blocks: seq<Block>) {
    forall b, c :: b in blocks && c in blocks && b != c ==>
      b.target + |b.data| <= c.target || c.target + |c.data| <= b.target
  }

  /** The segments hold just what the blocks put, and reach as far as they do. */
  ghost predicate Rebuilt(blocks: seq<Block>, segments: seq<Segment>) {
    && Apart(segments)
    && Exclusive(blocks)
    && (segments == [] <==> blocks == [])
    && (forall b :: b in blocks ==> b.target + |b.data| <= End(segments[|segments| - 1]))
    && (forall at, byte :: Held(segments, at, byte) <==> Put(blocks, at, byte))
  }

  lemma PutSnoc(blocks: seq<Block>, block: Block, at: nat, byte: Byte)
    ensures Put(blocks + [block], at, byte) <==> Put(blocks, at, byte) || Puts(block, at, byte)
  {
    if Puts(block, at, byte) {
      assert block in blocks + [block];
    }
    if b :| b in blocks && Puts(b, at, byte) {
      assert b in blocks + [block];
    }
  }

  lemma HeldSnoc(segments: seq<Segment>, s: Segment, at: nat, byte: Byte)
    ensures Held(segments + [s], at, byte) <==> Held(segments, at, byte) || Holds(s, at, byte)
  {
    if Holds(s, at, byte) {
      assert s in segments + [s];
    }
    if t :| t in segments && Holds(t, at, byte) {
      assert t in segments + [s];
    }
  }

  lemma HoldsJoined(s: Segment, block: Block, at: nat, byte: Byte)
    requires block.target == End(s)
    ensures Holds(s.(data := s.data + block.data), at, byte) <==> Holds(s, at, byte) || Puts(block, at, byte)
  {
  }

  lemma AttachHeld(segments: seq<Segment>, block: Block, at: nat, byte: Byte)
    requires Attach(segments, block).Ok?
    ensures Held(Attach(segments, block).value, at, byte) <==> Held(segments, at, byte) || Puts(block, at, byte)
  {
    var separate := Has(block.flags, NOT_MAIN_FLASH);
    var alone := Segment(block.target, block.data, separate);
    hide Held, Has, Holds, Puts;
    HoldsAlone(block, separate, at, byte);
    HeldSnoc(segments, alone, at, byte);
    if segments == [] {
      assert segments + [alone] == [alone];
    } else {
      var n := |segments| - 1;
      var last := segments[n];
      HeldSnoc(segments[..n], last, at, byte);
      assert segments[..n] + [last] == segments;
      HeldSnoc(segments[..n], last.(data := last.data + block.data), at, byte);
      if block.target == End(last) {
        HoldsJoined(last, block, at, byte);
      }
    }
  }

  lemma HoldsAlone(block: Block, separate: bool, at: nat, byte: Byte)
    ensures Holds(Segment(block.target, block.data, separate), at, byte) <==> Puts(block, at, byte)
  {
  }

  lemma AttachApart(segments: seq<Segment>, block: Block)
    requires Apart(segments) && block.data != [] && Attach(segments, block).Ok?
    ensures var after := Attach(segments, block).value;
            && Apart(after) && after != []
            && End(after[|after| - 1]) == block.target + |block.data|
            && (segments != [] ==> End(segments[|segments| - 1]) <= block.target)
  {
    hide Has;
    if segments != [] {
      var n := |segments| - 1;
      assert forall i :: 0 <= i < n ==> End(segments[i]) <= segments[n].address;
    }
  }

  lemma AttachRebuilds(blocks: seq<Block>, segments: seq<Segment>, block: Block)
    requires Rebuilt(blocks, segments) && block.data != [] && Attach(segments, block).Ok?
    ensures Rebuilt(blocks + [block], Attach(segments, block).value)
  {
    var after := Attach(segments, block).value;
    AttachApart(segments, block);
    hide Apart, Held, Put, Attach;
    forall at, byte ensures Held(after, at, byte) <==> Put(blocks + [block], at, byte) {
      AttachHeld(segments, block, at, byte);
      PutSnoc(blocks, block, at, byte);
    }
    forall b | b in blocks + [block] ensures b.target + |b.data| <= End(after[|after| - 1]) {
      assert b in blocks || b == block;
    }
    forall b, c | b in blocks + [block] && c in blocks + [block] && b != c
      ensures b.target + |b.data| <= c.target || c.target + |c.data| <= b.target
    {
      assert (b in blocks || b == block) && (c in blocks || c == block);
    }
  }

  lemma {:induction false} AttachAllRebuilds(blocks: seq<Block>)
    requires (forall b :: b in blocks ==> b.data != []) && AttachAll(blocks).Ok?
    ensures Rebuilt(blocks, AttachAll(blocks).value)
  {
    if blocks == [] {
      NothingRebuilt();
    } else {
      var n := |blocks| - 1;
      AttachSnoc(blocks);
      hide Rebuilt, Attach;
      assert forall b :: b in blocks[..n] ==> b in blocks;
      AttachAllRebuilds(blocks[..n]);
      assert blocks[n] in blocks;
      AttachRebuilds(blocks[..n], AttachAll(blocks[..n]).value, blocks[n]);
      assert blocks[..n] + [blocks[n]] == blocks;
    }
  }

  lemma NothingRebuilt()
    ensures Rebuilt([], [])
  {
  }

  lemma {:induction false} InsertMembers(sorted: seq<Block>, block: Block)
    ensures forall b :: b in InsertByAddress(sorted, block) <==> b in sorted || b == block
  {
    if sorted != [] && !(block.target < sorted[0].target) {
      InsertMembers(sorted[1..], block);
      assert sorted == [sorted[0]] + sorted[1..];
    }
  }

  lemma {:induction false} SortMembers(blocks: seq<Block>)
    ensures forall b :: b in ByAddress(blocks) <==> b in blocks
  {
    if blocks != [] {
      var n := |blocks| - 1;
      SortMembers(blocks[..n]);
      InsertMembers(ByAddress(blocks[..n]), blocks[n]);
      assert blocks == blocks[..n] + [blocks[n]];
    }
  }

  /** What the scan knows of each flash block. */
  ghost predicate Sane(s: Scan) {
    && (forall k :: k in s.blocks ==>
          && s.blocks[k].number == k
          && s.declared == Some(s.blocks[k].count)
          && k < s.blocks[k].count
          && s.blocks[k].data != [])
    && s.declared != Some(0)
  }

  lemma ScanBlockSane(raw: seq<Byte>, physical: nat, s: Scan)
    requires |raw| == BLOCK && Sane(s) && ScanBlock(raw, physical, s).Ok?
    ensures Sane(ScanBlock(raw, physical, s).value)
  {
    hide Has, ReadWord, NextFamily;
  }

  lemma {:induction false} ScanSane(file: seq<Byte>, n: nat)
    requires BLOCK * n <= |file| && ScanAll(file, n).Ok?
    ensures Sane(ScanAll(file, n).value)
  {
    hide ScanBlock;
    if n != 0 {
      ScanSane(file, n - 1);
      ScanBlockSane(file[BLOCK * (n - 1)..BLOCK * n], n - 1, ScanAll(file, n - 1).value);
    }
  }

  lemma {:induction false} InNumberOrderAll(blocks: map<nat, Block>, n: nat, m: nat)
    requires m <= n && forall k: nat :: k in blocks <==> k < n
    ensures var r := InNumberOrder(blocks, m); |r| == m && forall k :: 0 <= k < m ==> r[k] == blocks[k]
  {
    if m != 0 {
      InNumberOrderAll(blocks, n, m - 1);
    }
  }

  /** Numbered completely from zero, each block agreeing on the count. */
  ghost predicate Numbered(blocks: seq<Block>) {
    forall k :: 0 <= k < |blocks| ==>
      blocks[k].number == k && blocks[k].count == |blocks| && blocks[k].data != []
  }

  lemma TableNumbered(s: Scan)
    requires Sane(s) && s.declared == Some(|s.blocks|)
    ensures var blocks := InNumberOrder(s.blocks, |s.blocks|);
            |blocks| == |s.blocks| && Numbered(blocks) && blocks != []
  {
    var n := |s.blocks|;
    assert |s.blocks.Keys| == n;
    FullSet(s.blocks.Keys, n);
    forall k: nat ensures k in s.blocks <==> k < n {
      assert k in s.blocks.Keys <==> k in Upto(n);
    }
    InNumberOrderAll(s.blocks, n, n);
  }

  lemma SortedRebuilt(blocks: seq<Block>)
    requires Numbered(blocks) && AttachAll(ByAddress(blocks)).Ok?
    ensures Rebuilt(ByAddress(blocks), AttachAll(ByAddress(blocks)).value)
  {
    SortMembers(blocks);
    hide ByAddress, AttachAll, Rebuilt;
    assert forall b :: b in ByAddress(blocks) ==> b.data != [];
    AttachAllRebuilds(ByAddress(blocks));
  }

  lemma FinishSound(s: Scan, physical: nat)
    requires Sane(s) && Finish(s, physical).Ok?
    ensures var image := Finish(s, physical).value;
            && image.blocks != [] && Numbered(image.blocks)
            && Rebuilt(ByAddress(image.blocks), image.segments)
            && |image.blocks| + |image.metadata| == physical
  {
    hide ByAddress, AttachAll, InNumberOrder, Rebuilt, Numbered, Sane;
    TableNumbered(s);
    SortedRebuilt(InNumberOrder(s.blocks, |s.blocks|));
  }

  /** Every file the parser accepts: complete numbering, no overlap, and segments that hold exactly
      the bytes the blocks put, no more and no less. */
  lemma ParsedSound(file: seq<Byte>)
    requires Parse(file).Ok?
    ensures var image := Parse(file).value;
            && |file| == BLOCK * (|image.blocks| + |image.metadata|)
            && image.blocks != [] && Numbered(image.blocks) && Exclusive(image.blocks) && Apart(image.segments)
            && (forall at, byte :: Held(image.segments, at, byte) <==> Put(image.blocks, at, byte))
  {
    var physical := |file| / BLOCK;
    var image := Parse(file).value;
    ScanSane(file, physical);
    FinishSound(ScanAll(file, physical).value, physical);
    SortMembers(image.blocks);
    hide ByAddress, ScanAll, Finish, Parse, Held, Puts, Apart, Sane, Numbered;
    assert |file| == BLOCK * physical;
  }

  // ---------------------------------------------------------------- which flash a segment is for

  /** The block lies in the segment, and both are for the same flash. */
  ghost predicate Carries(s: Segment, b: Block) {
    && s.address <= b.target && b.target + |b.data| <= End(s)
    && (s.notMainFlash <==> b.flags % 2 == 1)
  }

  /** Neighbours are separate segments for a reason: a gap, or different flash. */
  ghost predicate Parted(segments: seq<Segment>) {
    forall i :: 0 < i < |segments| ==>
      End(segments[i - 1]) < segments[i].address || segments[i - 1].notMainFlash != segments[i].notMainFlash
  }

  ghost predicate Carried(segments: seq<Segment>, b: Block) {
    exists s :: s in segments && Carries(s, b)
  }

  lemma CarriedAfter(segments: seq<Segment>, block: Block, b: Block)
    requires Attach(segments, block).Ok? && (Carried(segments, b) || b == block)
    ensures Carried(Attach(segments, block).value, b)
  {
    var after := Attach(segments, block).value;
    if b == block {
      assert after[|after| - 1] in after && Carries(after[|after| - 1], b);
    } else {
      var s :| s in segments && Carries(s, b);
      var i :| 0 <= i < |segments| && segments[i] == s;
      assert after[i] in after && Carries(after[i], b);
    }
  }

  lemma PartedAfter(segments: seq<Segment>, block: Block)
    requires Parted(segments) && Attach(segments, block).Ok?
    ensures Parted(Attach(segments, block).value)
  {
    hide Has;
  }

  lemma {:induction false} AttachAllCarries(blocks: seq<Block>)
    requires AttachAll(blocks).Ok?
    ensures Parted(AttachAll(blocks).value)
    ensures forall b :: b in blocks ==> Carried(AttachAll(blocks).value, b)
  {
    if blocks != [] {
      var n := |blocks| - 1;
      AttachSnoc(blocks);
      var before := AttachAll(blocks[..n]).value;
      AttachAllCarries(blocks[..n]);
      PartedAfter(before, blocks[n]);
      hide Attach, Parted, Carried;
      forall b | b in blocks ensures Carried(AttachAll(blocks).value, b) {
        assert b in blocks[..n] || b == blocks[n];
        CarriedAfter(before, blocks[n], b);
      }
    }
  }

  lemma ParsedSegments(file: seq<Byte>)
    requires Parse(file).Ok?
    ensures var image := Parse(file).value; AttachAll(ByAddress(image.blocks)) == Ok(image.segments)
  {
    hide ScanAll, ByAddress, AttachAll, InNumberOrder;
  }

  /** Two segments that reach into one block are the same. */
  lemma OneCarrier(segments: seq<Segment>, b: Block, s: Segment)
    requires Apart(segments) && Carried(segments, b) && s in segments
    requires s.address < b.target + |b.data| && b.target < End(s)
    ensures Carries(s, b)
  {
    var t :| t in segments && Carries(t, b);
    var i :| 0 <= i < |segments| && segments[i] == s;
    var j :| 0 <= j < |segments| && segments[j] == t;
  }

  /** Every accepted file: a segment is marked as not being for the main flash exactly when the lowest flag
      bit of every block in it is set, and segments that touch are marked differently. */
  lemma ParsedFlash(file: seq<Byte>)
    requires Parse(file).Ok?
    ensures var image := Parse(file).value;
            && Parted(image.segments)
            && (forall b :: b in image.blocks ==> Carried(image.segments, b))
            && (forall s, b :: s in image.segments && b in image.blocks && s.address < b.target + |b.data| && b.target < End(s)
                  ==> Carries(s, b))
  {
    var image := Parse(file).value;
    ParsedSegments(file);
    ParsedSound(file);
    SortMembers(image.blocks);
    hide Parse, ByAddress, AttachAll, Numbered, Exclusive, Held, Put, Apart, Parted, Carried, Carries;
    AttachAllCarries(ByAddress(image.blocks));
    forall s, b | s in image.segments && b in image.blocks && s.address < b.target + |b.data| && b.target < End(s)
      ensures Carries(s, b)
    {
      OneCarrier(image.segments, b, s);
    }
  }

  // ---------------------------------------------------------------- the flash it programs

  predicate Inside(address: nat, length: nat, base: nat, size: nat) {
    base <= address && address + length <= base + size
  }

  /** Writes the segments into erased flash rooted at `base`. */
  function Program(segments: seq<Segment>, base: nat, size: nat, erased: Byte): (r: Result<seq<Byte>, Uf2Error>)
    ensures r.Ok? ==> |r.value| == size
  {
    if segments == [] then Ok(Fill(size, erased))
    else
      var last := segments[|segments| - 1];
      var before := Program(segments[..|segments| - 1], base, size, erased);
      if before.Err? then before
      else if !Inside(last.address, |last.data|, base, size) then Err(OutsideFlash(last.address, |last.data|))
      else
        var offset := last.address - base;
        Ok(before.value[..offset] + last.data + before.value[offset + |last.data|..])
  }

  /** The loop of the parser's own materialisation. */
  method Materialize(image: Image, base: nat, size: nat, erased: Byte) returns (flash: Result<seq<Byte>, Uf2Error>)
    ensures flash == Program(image.segments, base, size, erased)
  {
    flash := Ok(Fill(size, erased));
    for k := 0 to |image.segments|
      invariant flash.Ok? && flash == Program(image.segments[..k], base, size, erased)
    {
      var segment := image.segments[k];
      assert image.segments[..k + 1][..k] == image.segments[..k];
      if segment.address < base || segment.address + |segment.data| > base + size {
        flash := Err(OutsideFlash(segment.address, |segment.data|));
        FailsForGood(image.segments, k + 1, base, size, erased);
        return;
      }
      var offset := segment.address - base;
      flash := Ok(flash.value[..offset] + segment.data + flash.value[offset + |segment.data|..]);
    }
    assert image.segments[..|image.segments|] == image.segments;
  }

  lemma {:induction false} FailsForGood(segments: seq<Segment>, k: nat, base: nat, size: nat, erased: Byte)
    requires k <= |segments| && Program(segments[..k], base, size, erased).Err?
    ensures Program(segments, base, size, erased) == Program(segments[..k], base, size, erased)
  {
    if k == |segments| {
      assert segments[..k] == segments;
    } else {
      var n := |segments| - 1;
      assert segments[..n][..k] == segments[..k];
      FailsForGood(segments[..n], k, base, size, erased);
    }
  }

  /** Programming succeeds exactly when every segment lies inside the flash. */
  lemma {:induction false} ProgramOkIff(segments: seq<Segment>, base: nat, size: nat, erased: Byte)
    ensures Program(segments, base, size, erased).Ok? <==>
            forall s :: s in segments ==> Inside(s.address, |s.data|, base, size)
  {
    if segments != [] {
      var n := |segments| - 1;
      ProgramOkIff(segments[..n], base, size, erased);
      assert segments == segments[..n] + [segments[n]];
    }
  }

  lemma {:induction false} ProgramAt(segments: seq<Segment>, base: nat, size: nat, erased: Byte, at: nat)
    requires Apart(segments) && Program(segments, base, size, erased).Ok? && base <= at < base + size
    ensures var flash := Program(segments, base, size, erased).value;
            && (forall byte :: Held(segments, at, byte) ==> flash[at - base] == byte)
            && ((forall byte :: !Held(segments, at, byte)) ==> flash[at - base] == erased)
  {
    if segments != [] {
      var n := |segments| - 1;
      var last := segments[n];
      var front := segments[..n];
      assert segments == front + [last];
      assert Apart(front);
      ProgramAt(front, base, size, erased, at);
      ProgramStep(segments, base, size, erased, at);
      hide Program, Holds, Apart;
      forall byte ensures Held(segments, at, byte) <==> Held(front, at, byte) || Holds(last, at, byte) {
        HeldSnoc(front, last, at, byte);
      }
      if last.address <= at < End(last) {
        HeldBelow(front, last, at);
        assert Holds(last, at, last.data[at - last.address]) by {
          HoldsIs(last, at);
        }
      } else {
        forall byte ensures !Holds(last, at, byte) {
          HoldsIs(last, at);
        }
      }
      forall byte | Holds(last, at, byte) ensures Program(segments, base, size, erased).value[at - base] == byte {
        HoldsOnly(last, at, byte);
      }
    }
  }

  lemma HoldsIs(s: Segment, at: nat)
    ensures s.address <= at < End(s) ==> Holds(s, at, s.data[at - s.address])
    ensures !(s.address <= at < End(s)) ==> forall byte :: !Holds(s, at, byte)
  {
  }

  lemma HoldsOnly(s: Segment, at: nat, byte: Byte)
    requires Holds(s, at, byte)
    ensures s.address <= at < End(s) && byte == s.data[at - s.address]
  {
  }

  lemma HeldBelow(front: seq<Segment>, last: Segment, at: nat)
    requires Apart(front + [last]) && last.address <= at
    ensures forall byte :: !Held(front, at, byte)
  {
    forall s | s in front ensures forall byte :: !Holds(s, at, byte) {
      var i :| 0 <= i < |front| && front[i] == s;
      assert End((front + [last])[i]) <= (front + [last])[|front|].address;
    }
  }

  lemma ProgramStep(segments: seq<Segment>, base: nat, size: nat, erased: Byte, at: nat)
    requires segments != [] && Program(segments, base, size, erased).Ok? && base <= at < base + size
    ensures var n := |segments| - 1;
            var before := Program(segments[..n], base, size, erased);
            && before.Ok?
            && Program(segments, base, size, erased).value[at - base]
               == (if segments[n].address <= at < End(segments[n]) then segments[n].data[at - segments[n].address]
                   else before.value[at - base])
  {
  }

  /** The flash holds at `at` what some block puts there, and is erased if none does. */
  ghost predicate Programmed(blocks: seq<Block>, flash: seq<Byte>, base: nat, erased: Byte, at: nat)
    requires base <= at < base + |flash|
  {
    && (forall byte :: Put(blocks, at, byte) ==> flash[at - base] == byte)
    && ((forall byte :: !Put(blocks, at, byte)) ==> flash[at - base] == erased)
  }

  /** The flash programmed from any accepted file: it can be programmed exactly when every block lies
      inside, and then holds at each address the byte of the one block that puts one there, and erased
      flash where none does. */
  lemma ProgramParsed(file: seq<Byte>, base: nat, size: nat, erased: Byte)
    requires Parse(file).Ok?
    ensures var image := Parse(file).value;
            var r := Program(image.segments, base, size, erased);
            && (r.Ok? <==> forall b :: b in image.blocks ==> base <= b.target && b.target + |b.data| <= base + size)
            && (r.Ok? ==> forall at: nat :: base <= at < base + size ==>
                  Programmed(image.blocks, r.value, base, erased, at))
  {
    var image := Parse(file).value;
    ParsedSound(file);
    hide Parse, Held, Put, Apart, Numbered, Exclusive, Program, Programmed;
    ProgramOkIff(image.segments, base, size, erased);
    InsideIff(image.blocks, image.segments, base, size);
    if Program(image.segments, base, size, erased).Ok? {
      forall at: nat | base <= at < base + size
        ensures Programmed(image.blocks, Program(image.segments, base, size, erased).value, base, erased, at)
      {
        ProgramsBlocks(image.blocks, image.segments, base, size, erased, at);
      }
    }
  }

  lemma ProgramsBlocks(blocks: seq<Block>, segments: seq<Segment>, base: nat, size: nat, erased: Byte, at: nat)
    requires Apart(segments) && Program(segments, base, size, erased).Ok? && base <= at < base + size
    requires forall i, byte :: Held(segments, i, byte) <==> Put(blocks, i, byte)
    ensures Programmed(blocks, Program(segments, base, size, erased).value, base, erased, at)
  {
    hide Held, Put, Apart, Program;
    ProgramAt(segments, base, size, erased, at);
  }

  lemma InsideIff(blocks: seq<Block>, segments: seq<Segment>, base: nat, size: nat)
    requires Numbered(blocks) && Apart(segments)
    requires forall at, byte :: Held(segments, at, byte) <==> Put(blocks, at, byte)
    ensures (forall s :: s in segments ==> Inside(s.address, |s.data|, base, size))
            <==> forall b :: b in blocks ==> Inside(b.target, |b.data|, base, size)
  {
    if forall s :: s in segments ==> Inside(s.address, |s.data|, base, size) {
      forall b | b in blocks ensures Inside(b.target, |b.data|, base, size) {
        assert Puts(b, b.target, b.data[0]) && Puts(b, b.target + |b.data| - 1, b.data[|b.data| - 1]);
        assert Held(segments, b.target, b.data[0]);
        assert Held(segments, b.target + |b.data| - 1, b.data[|b.data| - 1]);
      }
    }
    if forall b :: b in blocks ==> Inside(b.target, |b.data|, base, size) {
      forall s | s in segments ensures Inside(s.address, |s.data|, base, size) {
        assert Holds(s, s.address, s.data[0]) && Holds(s, End(s) - 1, s.data[|s.data| - 1]);
        assert Put(blocks, s.address, s.data[0]);
        assert Put(blocks, End(s) - 1, s.data[|s.data| - 1]);
      }
    }
  }

  /** From payload to flash: pack it, shuffle the blocks, parse, program erased flash: the same bytes as
      one overlay of the payload. */
  lemma PackedFlash(payload: seq<Byte>, address: nat, family: nat, order: seq<nat>, base: nat, size: nat)
    requires payload != [] && Permutes(order, BlockCount(|payload|)) && Fits(|payload|, address, family)
    requires address + |payload| < MODULUS && base <= address && address + |payload| <= base + size
    ensures var file := PackedFile(payload, address, family, order);
            && Parse(file).Ok?
            && Program(Parse(file).value.segments, base, size, ERASED) == Ok(Overlay(Fill(size, ERASED), address - base, payload))
  {
    ParsePacked(payload, address, family, order);
    hide PackedFile, Parse, Permutes, AllExpected, BlockCount, Fits;
    OneProgram(payload, address, base, size);
  }

  lemma OneProgram(payload: seq<Byte>, address: nat, base: nat, size: nat)
    requires Inside(address, |payload|, base, size)
    ensures Program([Segment(address, payload, false)], base, size, ERASED)
            == Ok(Overlay(Fill(size, ERASED), address - base, payload))
  {
    var segments := [Segment(address, payload, false)];
    assert segments[..0] == [];
    assert Program([], base, size, ERASED) == Ok(Fill(size, ERASED));
    var flash := Program(segments, base, size, ERASED).value;
    assert flash == Overlay(Fill(size, ERASED), address - base, payload);
  }
}
