/** Which files the strict UF2 parser accepts, stated on the physical blocks of the file: each block on
    its own, each pair of blocks, and the numbering as a whole. */
module Uf2Accept {
  import opened Bytes
  import opened Flash
  import opened Numbers
  import opened Options
  import opened Permutations
  import opened Uf2
  import opened Uf2Image

  // ---------------------------------------------------------------- what is asked of a file

  function Raw(file: seq<Byte>, p: nat): (raw: seq<Byte>)
    requires BLOCK * (p + 1) <= |file|
    ensures |raw| == BLOCK
  {
    file[BLOCK * p..BLOCK * (p + 1)]
  }

  /** A block on its own: the three magic words, no file container, a number below its count, a payload
      that fits its place and ends below the top of the address space. */
  predicate WellFormed(raw: seq<Byte>)
    requires |raw| == BLOCK
  {
    && ReadWord(raw, 0) == 0x0a32_4655 && ReadWord(raw, 4) == 0x9e5d_5157 && ReadWord(raw, 508) == 0x0ab1_6f30
    && ReadWord(raw, 8) / 0x1000 % 2 == 0
    && ReadWord(raw, 20) < ReadWord(raw, 24)
    && 0 < ReadWord(raw, 16) <= 476
    && ReadWord(raw, 12) + ReadWord(raw, 16) <= 0xffff_ffff
  }

  /** The block carries flash content rather than extension tags. */
  predicate IsFlash(raw: seq<Byte>)
    requires |raw| == BLOCK
  {
    ReadWord(raw, 8) / 0x8000 % 2 == 0
  }

  /** What a well-formed block says. */
  function Content(raw: seq<Byte>): Block
    requires |raw| == BLOCK && WellFormed(raw)
  {
    var flags := ReadWord(raw, 8);
    Block(flags, ReadWord(raw, 12), ReadWord(raw, 20), ReadWord(raw, 24),
          if flags / 0x2000 % 2 == 1 then Some(ReadWord(raw, 28)) else None, raw[32..32 + ReadWord(raw, 16)])
  }

  predicate Disjoint(b: Block, c: Block) {
    b.target + |b.data| <= c.target || c.target + |c.data| <= b.target
  }

  /** Two flash blocks, the first physically before the second: one count, two numbers, and once a family
      has been named, every later block names it. */
  predicate Follows(b: Block, c: Block) {
    b.count == c.count && b.number != c.number && (b.family.Some? ==> c.family == b.family)
  }

  /** The first `n` blocks of the file, one by one and two by two. */
  ghost predicate Readable(file: seq<Byte>, n: nat)
    requires BLOCK * n <= |file|
  {
    && (forall p: nat :: p < n ==> WellFormed(Raw(file, p)))
    && (forall p: nat, q: nat :: p < q < n && IsFlash(Raw(file, p)) && IsFlash(Raw(file, q)) ==>
          Follows(Content(Raw(file, p)), Content(Raw(file, q))))
  }

  /** Flash block `p` is there, and this is what it says. */
  ghost predicate Carries(file: seq<Byte>, n: nat, p: nat, b: Block)
    requires BLOCK * n <= |file|
  {
    p < n && WellFormed(Raw(file, p)) && IsFlash(Raw(file, p)) && Content(Raw(file, p)) == b
  }

  /** Some flash block says this. */
  ghost predicate Carried(file: seq<Byte>, n: nat, b: Block)
    requires BLOCK * n <= |file|
  {
    exists p :: Carries(file, n, p, b)
  }

  ghost predicate HasNumber(file: seq<Byte>, n: nat, k: nat)
    requires BLOCK * n <= |file|
  {
    exists c :: Carried(file, n, c) && c.number == k
  }

  /** What the parser asks of a file: readable blocks, flash among them, numbered completely, none where
      another one is. */
  ghost predicate Conforms(file: seq<Byte>) {
    var n := |file| / BLOCK;
    && file != [] && |file| % BLOCK == 0 && n < MODULUS
    && Readable(file, n)
    && (exists b :: Carried(file, n, b))
    && (forall b, k: nat :: Carried(file, n, b) && k < b.count ==> HasNumber(file, n, k))
    && (forall b, c :: Carried(file, n, b) && Carried(file, n, c) && b.number != c.number ==> Disjoint(b, c))
  }

  // ---------------------------------------------------------------- the scan, block by block

  /** Every flash block is in the table, and the variables agree with it. */
  predicate Knows(s: Scan, b: Block) {
    && b.number in s.blocks && s.blocks[b.number] == b
    && s.declared == Some(b.count)
    && (b.family.Some? ==> s.family == b.family)
  }

  /** The parser's variables say what the first `n` blocks say, and no more. */
  ghost predicate Scanned(file: seq<Byte>, n: nat, s: Scan)
    requires BLOCK * n <= |file|
  {
    && (forall b :: Carried(file, n, b) ==> Knows(s, b))
    && (forall k :: k in s.blocks ==> s.blocks[k].number == k && Carried(file, n, s.blocks[k]))
    && (s.declared.Some? ==> exists b :: Carried(file, n, b))
    && (s.family.Some? ==> exists b :: Carried(file, n, b) && b.family == s.family)
    && |s.blocks| + |s.metadata| == n
  }

  lemma FamilyNext(known: Option<nat>, block: Option<nat>, physical: nat)
    ensures NextFamily(known, block, physical).Ok? <==> (known.Some? ==> block == known)
    ensures NextFamily(known, block, physical).Ok? ==> NextFamily(known, block, physical) == Ok(block)
  {
  }

  /** What one block needs, given the variables. */
  predicate Admits(s: Scan, b: Block) {
    && (s.declared.Some? ==> s.declared.value == b.count)
    && (s.family.Some? ==> b.family == s.family)
    && b.number !in s.blocks
  }

  lemma FlagsAre(flags: nat)
    ensures Has(flags, FILE_CONTAINER) <==> flags / 0x1000 % 2 != 0
    ensures Has(flags, EXTENSION_TAGS) <==> flags / 0x8000 % 2 != 0
    ensures Has(flags, FAMILY_ID) <==> flags / 0x2000 % 2 == 1
  {
  }

  lemma ScanBlockIff(raw: seq<Byte>, physical: nat, s: Scan)
    requires |raw| == BLOCK
    ensures var r := ScanBlock(raw, physical, s);
            && (r.Ok? <==> WellFormed(raw) && (IsFlash(raw) ==> Admits(s, Content(raw))))
            && (r.Ok? && IsFlash(raw) ==>
                  var b := Content(raw);
                  r.value == Scan(s.blocks[b.number := b], s.metadata, Some(b.count), b.family))
            && (r.Ok? && !IsFlash(raw) ==> r.value == s.(metadata := s.metadata + [Content(raw)]))
  {
    var flags := ReadWord(raw, 8);
    FlagsAre(flags);
    hide ReadWord, Has, NextFamily;
    FamilyNext(s.family, if Has(flags, FAMILY_ID) then Some(ReadWord(raw, 28)) else None, physical);
  }

  lemma CarriedNext(file: seq<Byte>, n: nat)
    requires 0 < n && BLOCK * n <= |file|
    ensures var raw := Raw(file, n - 1);
            forall b :: Carried(file, n, b) <==>
              Carried(file, n - 1, b) || (WellFormed(raw) && IsFlash(raw) && Content(raw) == b)
  {
    hide WellFormed, IsFlash, Content, Raw;
    forall b ensures Carried(file, n, b) <==>
                     Carried(file, n - 1, b) || Carries(file, n, n - 1, b)
    {
      if Carried(file, n, b) {
        var p: nat :| Carries(file, n, p, b);
        assert p < n - 1 ==> Carries(file, n - 1, p, b);
      }
      if Carried(file, n - 1, b) {
        var p: nat :| Carries(file, n - 1, p, b);
        assert Carries(file, n, p, b);
      }
    }
  }

  /** The new block may follow every flash block before it. */
  ghost predicate FollowsAll(file: seq<Byte>, n: nat, b: Block)
    requires BLOCK * n <= |file|
  {
    forall c :: Carried(file, n, c) ==> Follows(c, b)
  }

  lemma AdmitsIff(file: seq<Byte>, n: nat, s: Scan, b: Block)
    requires BLOCK * n <= |file| && Scanned(file, n, s)
    ensures Admits(s, b) <==> FollowsAll(file, n, b)
  {
    hide Carried;
    if b.number in s.blocks {
      assert Carried(file, n, s.blocks[b.number]) && !Follows(s.blocks[b.number], b);
    } else if FollowsAll(file, n, b) {
      if s.declared.Some? {
        var c :| Carried(file, n, c);
        assert Follows(c, b);
      }
      if s.family.Some? {
        var c :| Carried(file, n, c) && c.family == s.family;
        assert Follows(c, b);
      }
    }
  }

  lemma ReadableNext(file: seq<Byte>, n: nat)
    requires 0 < n && BLOCK * n <= |file|
    ensures var raw := Raw(file, n - 1);
            Readable(file, n) <==>
              Readable(file, n - 1) && WellFormed(raw) && (IsFlash(raw) ==> FollowsAll(file, n - 1, Content(raw)))
  {
    hide WellFormed, IsFlash, Content, Follows, Raw;
    var raw := Raw(file, n - 1);
    if Readable(file, n) {
      if IsFlash(raw) {
        forall c | Carried(file, n - 1, c) ensures Follows(c, Content(raw)) {
          var p: nat :| Carries(file, n - 1, p, c);
        }
      }
    }
    if Readable(file, n - 1) && WellFormed(raw) && (IsFlash(raw) ==> FollowsAll(file, n - 1, Content(raw))) {
      forall p: nat, q: nat | p < q < n && IsFlash(Raw(file, p)) && IsFlash(Raw(file, q))
        ensures WellFormed(Raw(file, p)) && WellFormed(Raw(file, q)) && Follows(Content(Raw(file, p)), Content(Raw(file, q)))
      {
        if q == n - 1 {
          assert Carries(file, n - 1, p, Content(Raw(file, p)));
          assert Carried(file, n - 1, Content(Raw(file, p)));
        }
      }
    }
  }

  lemma ScannedFlash(file: seq<Byte>, n: nat, s: Scan, b: Block)
    requires 0 < n && BLOCK * n <= |file| && Scanned(file, n - 1, s) && Admits(s, b)
    requires forall c :: Carried(file, n, c) <==> Carried(file, n - 1, c) || c == b
    ensures Scanned(file, n, Scan(s.blocks[b.number := b], s.metadata, Some(b.count), b.family))
  {
    hide Carried;
    AdmitsIff(file, n - 1, s, b);
    var t := Scan(s.blocks[b.number := b], s.metadata, Some(b.count), b.family);
    forall c | Carried(file, n, c) ensures Knows(t, c) {
      if Carried(file, n - 1, c) {
        assert Follows(c, b) && Knows(s, c);
      }
    }
    assert Carried(file, n, b);
  }

  lemma ScannedTag(file: seq<Byte>, n: nat, s: Scan, b: Block)
    requires 0 < n && BLOCK * n <= |file| && Scanned(file, n - 1, s)
    requires forall c :: Carried(file, n, c) <==> Carried(file, n - 1, c)
    ensures Scanned(file, n, s.(metadata := s.metadata + [b]))
  {
    hide Carried;
    var t := s.(metadata := s.metadata + [b]);
    forall c | Carried(file, n, c) ensures Knows(t, c) {
      assert Knows(s, c);
    }
    if s.declared.Some? {
      var c :| Carried(file, n - 1, c);
      assert Carried(file, n, c);
    }
    if s.family.Some? {
      var c :| Carried(file, n - 1, c) && c.family == s.family;
      assert Carried(file, n, c);
    }
  }

  /** The scan accepts exactly the readable beginnings of a file, and then says what they say. */
  lemma {:induction false} ScanIff(file: seq<Byte>, n: nat)
    requires BLOCK * n <= |file|
    ensures ScanAll(file, n).Ok? <==> Readable(file, n)
    ensures ScanAll(file, n).Ok? ==> Scanned(file, n, ScanAll(file, n).value)
  {
    hide ScanBlock, WellFormed, IsFlash, Content, Scanned, Admits, Follows, FollowsAll, Carried;
    if n == 0 {
      ScannedNothing(file);
    } else {
      ScanIff(file, n - 1);
      ReadableNext(file, n);
      if ScanAll(file, n - 1).Ok? {
        hide Readable;
        StepIff(file, n, ScanAll(file, n - 1).value);
      }
    }
  }

  lemma ScannedNothing(file: seq<Byte>)
    ensures Readable(file, 0) && Scanned(file, 0, Scan(map[], [], None, None))
  {
    forall b ensures !Carried(file, 0, b) {
    }
  }

  lemma StepIff(file: seq<Byte>, n: nat, s: Scan)
    requires 0 < n && BLOCK * n <= |file| && Scanned(file, n - 1, s)
    ensures var raw := Raw(file, n - 1);
            var r := ScanBlock(raw, n - 1, s);
            && (r.Ok? <==> WellFormed(raw) && (IsFlash(raw) ==> FollowsAll(file, n - 1, Content(raw))))
            && (r.Ok? ==> Scanned(file, n, r.value))
  {
    hide ScanBlock, WellFormed, IsFlash, Content, Scanned, Admits, FollowsAll, Raw, Carried;
    var raw := Raw(file, n - 1);
    ScanBlockIff(raw, n - 1, s);
    CarriedNext(file, n);
    if WellFormed(raw) {
      var b := Content(raw);
      if IsFlash(raw) {
        AdmitsIff(file, n - 1, s, b);
        if Admits(s, b) {
          ScannedFlash(file, n, s, b);
        }
      } else {
        ScannedTag(file, n, s, b);
      }
    }
  }

  // ---------------------------------------------------------------- sorting and joining

  ghost predicate Separate(blocks: seq<Block>) {
    forall i, j :: 0 <= i < j < |blocks| ==> Disjoint(blocks[i], blocks[j])
  }

  ghost predicate Ascends(blocks: seq<Block>) {
    forall i, j :: 0 <= i < j < |blocks| ==> blocks[i].target <= blocks[j].target
  }

  lemma SeparateCons(block: Block, blocks: seq<Block>)
    requires Separate(blocks) && Ascends(blocks)
    requires forall b :: b in blocks ==> Disjoint(block, b) && block.target <= b.target
    ensures Separate([block] + blocks) && Ascends([block] + blocks)
  {
    hide Disjoint;
    assert forall i :: 0 <= i < |blocks| ==> blocks[i] in blocks;
  }

  lemma {:induction false} InsertSeparate(sorted: seq<Block>, block: Block)
    requires Separate(sorted) && Ascends(sorted)
    requires forall b :: b in sorted ==> Disjoint(block, b)
    ensures Separate(InsertByAddress(sorted, block)) && Ascends(InsertByAddress(sorted, block))
  {
    if sorted == [] {
    } else if block.target < sorted[0].target {
      assert forall i :: 0 <= i < |sorted| ==> sorted[0].target <= sorted[i].target;
      SeparateCons(block, sorted);
    } else {
      var rest := sorted[1..];
      assert sorted == [sorted[0]] + rest;
      InsertSeparate(rest, block);
      InsertMembers(rest, block);
      assert forall i :: 0 <= i < |rest| ==> rest[i] == sorted[i + 1];
      assert sorted[0] in sorted;
      SeparateCons(sorted[0], InsertByAddress(rest, block));
    }
  }

  lemma {:induction false} SortSeparate(blocks: seq<Block>)
    requires Separate(blocks)
    ensures Separate(ByAddress(blocks)) && Ascends(ByAddress(blocks))
  {
    if blocks != [] {
      var n := |blocks| - 1;
      SortSeparate(blocks[..n]);
      SortMembers(blocks[..n]);
      InsertSeparate(ByAddress(blocks[..n]), blocks[n]);
    }
  }

  /** Sorted blocks that do not overlap can all be joined. */
  lemma {:induction false} JoinsAll(blocks: seq<Block>)
    requires Separate(blocks) && Ascends(blocks) && forall b :: b in blocks ==> b.data != []
    ensures AttachAll(blocks).Ok? && Apart(AttachAll(blocks).value)
    ensures var segments := AttachAll(blocks).value;
            if blocks == [] then segments == []
            else
              var last := blocks[|blocks| - 1];
              segments != [] && End(segments[|segments| - 1]) == last.target + |last.data|
  {
    hide Apart;
    if blocks == [] {
      ApartNothing();
    } else {
      var n := |blocks| - 1;
      assert forall b :: b in blocks[..n] ==> b in blocks;
      JoinsAll(blocks[..n]);
      assert blocks[n] in blocks;
      if n > 0 {
        assert blocks[n - 1] in blocks && Disjoint(blocks[n - 1], blocks[n]);
      }
      AttachApart(AttachAll(blocks[..n]).value, blocks[n]);
    }
  }

  lemma ApartNothing()
    ensures Apart([])
  {
  }

  /** Numbered blocks can be sorted and joined exactly when no two of them overlap. */
  lemma JoinIff(blocks: seq<Block>)
    requires Numbered(blocks)
    ensures AttachAll(ByAddress(blocks)).Ok? <==> Separate(blocks)
  {
    SortMembers(blocks);
    if Separate(blocks) {
      SortSeparate(blocks);
      JoinsAll(ByAddress(blocks));
    }
    if AttachAll(ByAddress(blocks)).Ok? {
      SortedRebuilt(blocks);
      forall i, j | 0 <= i < j < |blocks| ensures Disjoint(blocks[i], blocks[j]) {
        assert blocks[i] in ByAddress(blocks) && blocks[j] in ByAddress(blocks);
        assert blocks[i] != blocks[j];
      }
    }
  }

  // ---------------------------------------------------------------- acceptance

  /** The table is complete exactly when every number below the count is carried. */
  lemma CompleteIff(file: seq<Byte>, n: nat, s: Scan)
    requires BLOCK * n <= |file| && Scanned(file, n, s) && Sane(s) && s.declared.Some?
    ensures |s.blocks| == s.declared.value <==> forall k: nat :: k < s.declared.value ==> HasNumber(file, n, k)
  {
    hide Carried;
    var count := s.declared.value;
    assert |s.blocks| == |s.blocks.Keys|;
    assert forall k :: k in s.blocks.Keys ==> k < count;
    forall k: nat ensures HasNumber(file, n, k) <==> k in s.blocks {
      if k in s.blocks {
        assert Carried(file, n, s.blocks[k]);
      }
      if HasNumber(file, n, k) {
        var c :| Carried(file, n, c) && c.number == k;
        assert Knows(s, c);
      }
    }
    if |s.blocks| == count {
      FullSet(s.blocks.Keys, count);
    }
    if forall k: nat :: k < count ==> HasNumber(file, n, k) {
      UptoSize(count);
      assert s.blocks.Keys == Upto(count);
    }
  }

  lemma TableInOrder(s: Scan)
    requires Sane(s) && s.declared == Some(|s.blocks|)
    ensures var blocks := InNumberOrder(s.blocks, |s.blocks|);
            && Numbered(blocks) && |blocks| == |s.blocks|
            && (forall k: nat :: k in s.blocks <==> k < |blocks|)
            && (forall k: nat :: k < |blocks| ==> blocks[k] == s.blocks[k])
  {
    var size := |s.blocks|;
    TableNumbered(s);
    assert size == |s.blocks.Keys|;
    FullSet(s.blocks.Keys, size);
    assert forall k: nat :: k in s.blocks <==> k in s.blocks.Keys;
    InNumberOrderAll(s.blocks, size, size);
  }

  /** The blocks in number order are those carried, and overlap only if those do. */
  lemma TableBlocks(file: seq<Byte>, n: nat, s: Scan)
    requires BLOCK * n <= |file| && Scanned(file, n, s) && Sane(s) && s.declared == Some(|s.blocks|)
    ensures var blocks := InNumberOrder(s.blocks, |s.blocks|);
            && Numbered(blocks)
            && (forall b :: b in blocks <==> Carried(file, n, b))
            && (Separate(blocks) <==>
                forall b, c :: Carried(file, n, b) && Carried(file, n, c) && b.number != c.number ==> Disjoint(b, c))
  {
    hide Carried, Disjoint, InNumberOrder, Sane;
    var blocks := InNumberOrder(s.blocks, |s.blocks|);
    TableInOrder(s);
    forall b ensures b in blocks <==> Carried(file, n, b) {
      if Carried(file, n, b) {
        assert Knows(s, b);
        assert blocks[b.number] == b;
      }
      if b in blocks {
        var k: nat :| k < |blocks| && blocks[k] == b;
        assert s.blocks[k] == b;
      }
    }
    hide Scanned;
    SeparateIff(blocks);
  }

  lemma SeparateIff(blocks: seq<Block>)
    requires Numbered(blocks)
    ensures Separate(blocks) <==> forall b, c :: b in blocks && c in blocks && b.number != c.number ==> Disjoint(b, c)
  {
    hide Disjoint;
    if Separate(blocks) {
      forall b, c | b in blocks && c in blocks && b.number != c.number ensures Disjoint(b, c) {
        assert blocks[b.number] == b && blocks[c.number] == c;
        DisjointBothWays(b, c);
      }
    }
  }

  lemma DisjointBothWays(b: Block, c: Block)
    ensures Disjoint(b, c) <==> Disjoint(c, b)
  {
  }

  lemma FinishIff(file: seq<Byte>, n: nat, s: Scan)
    requires BLOCK * n <= |file| && Scanned(file, n, s) && Sane(s)
    ensures Finish(s, n).Ok? <==>
            && (exists b :: Carried(file, n, b))
            && (forall b, k: nat :: Carried(file, n, b) && k < b.count ==> HasNumber(file, n, k))
            && (forall b, c :: Carried(file, n, b) && Carried(file, n, c) && b.number != c.number ==> Disjoint(b, c))
    ensures Finish(s, n).Ok? ==>
              && Finish(s, n).value.family == s.family
              && forall b :: b in Finish(s, n).value.blocks <==> Carried(file, n, b)
  {
    hide Carried, HasNumber, Disjoint, Numbered, Separate, InNumberOrder, ByAddress, AttachAll;
    if b :| Carried(file, n, b) {
      assert Knows(s, b);
      CompleteIff(file, n, s);
      if |s.blocks| == s.declared.value {
        TableBlocks(file, n, s);
        JoinIff(InNumberOrder(s.blocks, |s.blocks|));
      }
    }
  }

  /** The parser accepts a file exactly when it conforms, and the image then has the blocks of the file and
      the one family that its flash blocks name, if any does. */
  lemma ParseIff(file: seq<Byte>)
    ensures Parse(file).Ok? <==> Conforms(file)
    ensures Parse(file).Ok? ==>
              var (n, image) := (|file| / BLOCK, Parse(file).value);
              && (forall b :: b in image.blocks <==> Carried(file, n, b))
              && (forall b :: b in image.blocks && b.family.Some? ==> image.family == b.family)
              && (image.family.Some? ==> exists b :: b in image.blocks && b.family == image.family)
  {
    hide Carried, HasNumber, Disjoint, Readable, ScanAll, Finish;
    if file != [] && |file| % BLOCK == 0 && |file| / BLOCK < MODULUS {
      var n := |file| / BLOCK;
      ScanIff(file, n);
      if ScanAll(file, n).Ok? {
        ScanSane(file, n);
        FinishIff(file, n, ScanAll(file, n).value);
      }
    }
  }

  // ---------------------------------------------------------------- the family

  /** The physically first flash block. */
  ghost predicate First(file: seq<Byte>, n: nat, p: nat, b: Block)
    requires BLOCK * n <= |file|
  {
    Carries(file, n, p, b) && forall q: nat :: q < p ==> !IsFlash(Raw(file, q))
  }

  lemma {:induction false} FirstExists(file: seq<Byte>, n: nat, p: nat, b: Block) returns (q: nat, c: Block)
    requires BLOCK * n <= |file| && Readable(file, n) && Carries(file, n, p, b)
    ensures First(file, n, q, c) && q <= p
    decreases p
  {
    hide WellFormed, IsFlash, Content, Raw;
    if k: nat :| k < p && IsFlash(Raw(file, k)) {
      q, c := FirstExists(file, n, k, Content(Raw(file, k)));
    } else {
      q, c := p, b;
    }
  }

  /** The image's family is that of every block exactly when the physically first flash block names it: the
      parser refuses a block without family only after one that has it. */
  lemma FamilyIff(file: seq<Byte>)
    requires Parse(file).Ok?
    ensures var (n, image) := (|file| / BLOCK, Parse(file).value);
            (forall b :: b in image.blocks ==> b.family == image.family) <==>
            (image.family.Some? ==> exists p, b :: First(file, n, p, b) && b.family.Some?)
  {
    ParseIff(file);
    hide Parse, WellFormed, IsFlash, Content, Raw;
    var (n, image) := (|file| / BLOCK, Parse(file).value);
    if image.family.Some? {
      var b :| b in image.blocks && b.family == image.family;
      var p :| Carries(file, n, p, b);
      var q, c := FirstExists(file, n, p, b);
      assert Carried(file, n, c);
      if c.family.Some? {
        forall d | d in image.blocks ensures d.family == image.family {
          var r: nat :| Carries(file, n, r, d);
          assert q <= r;
        }
      } else {
        forall r: nat, d | First(file, n, r, d) ensures d == c {
          assert !(r < q) && !(q < r);
        }
      }
    }
  }

  /** A block whose flag word is cleared. */
  function Unflagged(raw: seq<Byte>): (r: seq<Byte>)
    requires |raw| == BLOCK
    ensures |r| == BLOCK
  {
    raw[..8] + Little(0) + raw[12..]
  }

  lemma UnflaggedWords(raw: seq<Byte>, at: nat)
    requires |raw| == BLOCK && at + 4 <= BLOCK && (at <= 4 || at >= 12)
    ensures ReadWord(Unflagged(raw), at) == ReadWord(raw, at)
    ensures ReadWord(Unflagged(raw), 8) == 0
  {
    var r := Unflagged(raw);
    assert r[8..12] == Little(0);
    ReadLittle(0, r, 8);
  }

  lemma NamedBlock(index: nat)
    requires index < 2
    ensures var raw := PackedBlock(0, index, 2, 7, [0]);
            && WellFormed(raw) && IsFlash(raw)
            && Content(raw) == Block(FAMILY_ID, index * PAYLOAD, index, 2, Some(7), [0])
  {
    var raw := PackedBlock(0, index, 2, 7, [0]);
    assert Has(FAMILY_ID, FAMILY_ID) && !Has(FAMILY_ID, FILE_CONTAINER) && !Has(FAMILY_ID, EXTENSION_TAGS);
    hide ReadWord, PackedBlock, Has;
    HeaderWord(0, index, 2, 7, [0], 0);
    HeaderWord(0, index, 2, 7, [0], 1);
    HeaderWord(0, index, 2, 7, [0], 2);
    HeaderWord(0, index, 2, 7, [0], 3);
    HeaderWord(0, index, 2, 7, [0], 4);
    HeaderWord(0, index, 2, 7, [0], 5);
    HeaderWord(0, index, 2, 7, [0], 6);
    HeaderWord(0, index, 2, 7, [0], 7);
    TrailerAndData(0, index, 2, 7, [0]);
  }

  lemma NamelessBlock()
    ensures var raw := Unflagged(PackedBlock(0, 0, 2, 7, [0]));
            && WellFormed(raw) && IsFlash(raw)
            && Content(raw) == Block(0, 0, 0, 2, None, [0])
  {
    var named := PackedBlock(0, 0, 2, 7, [0]);
    var raw := Unflagged(named);
    NamedBlock(0);
    assert !Has(0, FAMILY_ID) && !Has(0, FILE_CONTAINER) && !Has(0, EXTENSION_TAGS);
    assert raw[DATA_OFFSET..DATA_OFFSET + 1] == named[DATA_OFFSET..DATA_OFFSET + 1];
    hide ReadWord, PackedBlock, Has, Unflagged;
    UnflaggedWords(named, 0);
    UnflaggedWords(named, 4);
    UnflaggedWords(named, 508);
    UnflaggedWords(named, 12);
    UnflaggedWords(named, 16);
    UnflaggedWords(named, 20);
    UnflaggedWords(named, 24);
  }

  /** Two blocks, of which one names a family: accepted in one physical order, refused in the other. */
  lemma FamilyOrderMatters()
    ensures var (nameless, named) := (Unflagged(PackedBlock(0, 0, 2, 7, [0])), PackedBlock(0, 1, 2, 7, [0]));
            Parse(nameless + named).Ok? && Parse(named + nameless).Err?
  {
    var (nameless, named) := (Unflagged(PackedBlock(0, 0, 2, 7, [0])), PackedBlock(0, 1, 2, 7, [0]));
    NamedBlock(1);
    NamelessBlock();
    hide Parse, WellFormed, IsFlash, Content, Unflagged, PackedBlock;
    PairConforms(nameless, named);
    PairRefused(named, nameless);
  }

  lemma PairCarried(x: seq<Byte>, y: seq<Byte>)
    requires |x| == |y| == BLOCK && WellFormed(x) && WellFormed(y) && IsFlash(x) && IsFlash(y)
    ensures Follows(Content(x), Content(y)) ==> Readable(x + y, 2)
    ensures forall b :: Carried(x + y, 2, b) <==> b == Content(x) || b == Content(y)
  {
    var file := x + y;
    assert Raw(file, 0) == x && Raw(file, 1) == y;
    hide WellFormed, IsFlash, Content, Raw, Follows;
    assert Carries(file, 2, 0, Content(x)) && Carries(file, 2, 1, Content(y));
    forall b ensures Carried(file, 2, b) ==> b == Content(x) || b == Content(y) {
      if Carried(file, 2, b) {
        var p: nat :| Carries(file, 2, p, b);
        assert p == 0 || p == 1;
      }
    }
  }

  lemma PairConforms(x: seq<Byte>, y: seq<Byte>)
    requires |x| == |y| == BLOCK && WellFormed(x) && WellFormed(y) && IsFlash(x) && IsFlash(y)
    requires Content(x) == Block(0, 0, 0, 2, None, [0]) && Content(y) == Block(FAMILY_ID, PAYLOAD, 1, 2, Some(7), [0])
    ensures Parse(x + y).Ok?
  {
    hide Parse, WellFormed, IsFlash, Content, Raw, Carried, Readable;
    PairCarried(x, y);
    assert Carried(x + y, 2, Content(x)) && Carried(x + y, 2, Content(y));
    assert HasNumber(x + y, 2, 0) && HasNumber(x + y, 2, 1);
    ParseIff(x + y);
  }

  lemma PairRefused(x: seq<Byte>, y: seq<Byte>)
    requires |x| == |y| == BLOCK && WellFormed(x) && WellFormed(y) && IsFlash(x) && IsFlash(y)
    requires Content(x).family.Some? && Content(y).family.None?
    ensures Parse(x + y).Err?
  {
    var file := x + y;
    assert Raw(file, 0) == x && Raw(file, 1) == y;
    hide Parse, WellFormed, IsFlash, Content, Raw;
    ParseIff(file);
    assert !Follows(Content(x), Content(y));
  }
}
