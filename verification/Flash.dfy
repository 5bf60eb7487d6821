/** Flash images: laying payloads over a base image. */
module Flash {
  import opened Bytes
  import opened Permutations

  const ERASED: Byte := 0xff

  function Max(a: nat, b: nat): (m: nat)
    ensures a <= m && b <= m && (m == a || m == b)
  {
    if a < b then b else a
  }

  /** The byte a flash image holds at `i`, erased beyond its end. */
  function At(flash: seq<Byte>, i: nat): Byte {
    if i < |flash| then flash[i] else ERASED
  }

  predicate Covers(offset: nat, payload: seq<Byte>, i: int) {
    offset <= i < offset + |payload|
  }

  /** The payload where it lies, the base elsewhere, and erased flash in any gap between them. */
  function Overlay(base: seq<Byte>, offset: nat, payload: seq<Byte>): (merged: seq<Byte>)
    ensures |merged| == Max(|base|, offset + |payload|)
    ensures forall i: nat :: i < |merged| ==>
              merged[i] == if Covers(offset, payload, i) then payload[i - offset] else At(base, i)
  {
    seq(Max(|base|, offset + |payload|), i requires i >= 0 =>
      if Covers(offset, payload, i) then payload[i - offset] else At(base, i))
  }

  function Fill(n: nat, b: Byte): (s: seq<Byte>)
    ensures |s| == n && forall i :: 0 <= i < n ==> s[i] == b
  {
    if n == 0 then [] else Fill(n - 1, b) + [b]
  }

  /** The packer's overlay: extend with erased bytes, then replace the slice. */
  method MergeImages(base: seq<Byte>, payload: seq<Byte>, offset: nat) returns (merged: seq<Byte>)
    ensures merged == Overlay(base, offset, payload)
  {
    merged := base;
    var end := offset + |payload|;
    if end > |merged| {
      merged := merged + Fill(end - |merged|, 0xff);
    }
    merged := merged[..offset] + payload + merged[end..];
  }

  /** Two overlays commute exactly when they agree wherever both lie. */
  lemma OverlaysCommuteIff(base: seq<Byte>, o: nat, p: seq<Byte>, q: nat, r: seq<Byte>)
    ensures Overlay(Overlay(base, o, p), q, r) == Overlay(Overlay(base, q, r), o, p) <==>
            forall i :: Covers(o, p, i) && Covers(q, r, i) ==> p[i - o] == r[i - q]
  {
    var a := Overlay(Overlay(base, o, p), q, r);
    var b := Overlay(Overlay(base, q, r), o, p);
    forall i: nat | Covers(o, p, i) && Covers(q, r, i) ensures a[i] == r[i - q] && b[i] == p[i - o] {
    }
    if forall i :: Covers(o, p, i) && Covers(q, r, i) ==> p[i - o] == r[i - q] {
      assert a == b;
    }
  }

  type Piece = (nat, seq<Byte>)

  function OverlayAll(base: seq<Byte>, pieces: seq<Piece>): seq<Byte> {
    if pieces == [] then base
    else
      var last := |pieces| - 1;
      Overlay(OverlayAll(base, pieces[..last]), pieces[last].0, pieces[last].1)
  }

  ghost predicate Disjoint(pieces: seq<Piece>) {
    forall i, j, at :: 0 <= i < j < |pieces| ==>
      !(Covers(pieces[i].0, pieces[i].1, at) && Covers(pieces[j].0, pieces[j].1, at))
  }

  /** Where pieces that do not overlap lie, the result holds them; elsewhere it holds the base. */
  lemma {:induction false} OverlayAllAt(base: seq<Byte>, pieces: seq<Piece>, at: nat)
    requires Disjoint(pieces)
    ensures forall k :: 0 <= k < |pieces| && Covers(pieces[k].0, pieces[k].1, at) ==>
              At(OverlayAll(base, pieces), at) == pieces[k].1[at - pieces[k].0]
    ensures (forall k :: 0 <= k < |pieces| ==> !Covers(pieces[k].0, pieces[k].1, at)) ==>
              At(OverlayAll(base, pieces), at) == At(base, at)
  {
    if pieces != [] {
      var last := |pieces| - 1;
      var before := pieces[..last];
      assert forall k :: 0 <= k < last ==> before[k] == pieces[k];
      OverlayAllAt(base, before, at);
    }
  }

  /** The result reaches as far as the base and every piece, and no further. */
  lemma {:induction false} OverlayAllReach(base: seq<Byte>, pieces: seq<Piece>)
    ensures var n := |OverlayAll(base, pieces)|;
            && |base| <= n
            && (forall k :: 0 <= k < |pieces| ==> pieces[k].0 + |pieces[k].1| <= n)
            && (n == |base| || exists k :: 0 <= k < |pieces| && n == pieces[k].0 + |pieces[k].1|)
  {
    if pieces != [] {
      var last := |pieces| - 1;
      OverlayAllReach(base, pieces[..last]);
      assert forall k :: 0 <= k < last ==> pieces[..last][k] == pieces[k];
    }
  }

  /** Equal lengths and equal bytes at every address. */
  lemma SameFlash(a: seq<Byte>, b: seq<Byte>)
    requires |a| == |b| && forall i: nat :: At(a, i) == At(b, i)
    ensures a == b
  {
    forall i: nat | i < |a| ensures a[i] == b[i] {
      assert At(a, i) == At(b, i);
    }
  }

  // ---------------------------------------------------------------- a payload cut into pieces

  const PAYLOAD: nat := 256

  function BlockCount(length: nat): (n: nat)
    ensures n * PAYLOAD >= length && (n == 0 || (n - 1) * PAYLOAD < length)
  {
    (length + PAYLOAD - 1) / PAYLOAD
  }

  /** The `k`-th chunk of the payload. */
  function Chunk(payload: seq<Byte>, k: nat): (c: seq<Byte>)
    requires k < BlockCount(|payload|)
    ensures 0 < |c| <= PAYLOAD && k * PAYLOAD + |c| <= |payload|
    ensures k * PAYLOAD + |c| == |payload| || |c| == PAYLOAD
    ensures forall i :: 0 <= i < |c| ==> c[i] == payload[k * PAYLOAD + i]
  {
    var end := if (k + 1) * PAYLOAD < |payload| then (k + 1) * PAYLOAD else |payload|;
    payload[k * PAYLOAD..end]
  }

  /** The chunks, each at its address, in the given order. */
  ghost function Pieces(payload: seq<Byte>, address: nat, order: seq<nat>): (pieces: seq<Piece>)
    requires forall i :: 0 <= i < |order| ==> order[i] < BlockCount(|payload|)
    ensures |pieces| == |order|
    ensures forall i :: 0 <= i < |order| ==>
              pieces[i] == (address + order[i] * PAYLOAD, Chunk(payload, order[i]))
  {
    if order == [] then []
    else
      var last := |order| - 1;
      Pieces(payload, address, order[..last]) + [(address + order[last] * PAYLOAD, Chunk(payload, order[last]))]
  }

  lemma PiecesDisjoint(payload: seq<Byte>, address: nat, order: seq<nat>)
    requires Permutes(order, BlockCount(|payload|))
    ensures Disjoint(Pieces(payload, address, order))
  {
    var pieces := Pieces(payload, address, order);
    forall i, j, at | 0 <= i < j < |pieces|
      ensures !(Covers(pieces[i].0, pieces[i].1, at) && Covers(pieces[j].0, pieces[j].1, at))
    {
      assert order[i] + 1 <= order[j] || order[j] + 1 <= order[i];
    }
  }

  /** An address inside the payload lies in exactly the piece that holds its chunk. */
  lemma PieceAt(payload: seq<Byte>, address: nat, order: seq<nat>, at: nat) returns (i: nat)
    requires Permutes(order, BlockCount(|payload|)) && Covers(address, payload, at)
    ensures i < |order|
    ensures var piece := Pieces(payload, address, order)[i];
            Covers(piece.0, piece.1, at) && piece.1[at - piece.0] == payload[at - address]
  {
    hide Chunk, BlockCount;
    var k := ChunkCovers(payload, address, at);
    i := PlaceOf(order, BlockCount(|payload|), k);
    assert Pieces(payload, address, order)[i] == (address + k * PAYLOAD, Chunk(payload, k));
  }

  lemma NoPieceAt(payload: seq<Byte>, address: nat, order: seq<nat>, at: nat, i: nat)
    requires Permutes(order, BlockCount(|payload|)) && i < |order| && !Covers(address, payload, at)
    ensures var piece := Pieces(payload, address, order)[i]; !Covers(piece.0, piece.1, at)
  {
    hide Chunk, BlockCount;
    assert Pieces(payload, address, order)[i] == (address + order[i] * PAYLOAD, Chunk(payload, order[i]));
    assert |Chunk(payload, order[i])| + order[i] * PAYLOAD <= |payload|;
  }

  /** Where some piece lies, the overlay shows that piece, and the base elsewhere. */
  lemma PieceShows(base: seq<Byte>, pieces: seq<Piece>, at: nat, i: nat, byte: Byte)
    requires Disjoint(pieces) && i < |pieces| && Covers(pieces[i].0, pieces[i].1, at)
    requires pieces[i].1[at - pieces[i].0] == byte
    ensures At(OverlayAll(base, pieces), at) == byte
  {
    hide OverlayAll, Disjoint, At;
    OverlayAllAt(base, pieces, at);
  }

  lemma NothingShows(base: seq<Byte>, pieces: seq<Piece>, at: nat)
    requires Disjoint(pieces) && forall i: nat :: i < |pieces| ==> !Covers(pieces[i].0, pieces[i].1, at)
    ensures At(OverlayAll(base, pieces), at) == At(base, at)
  {
    hide OverlayAll, Disjoint, At;
    OverlayAllAt(base, pieces, at);
  }

  lemma AnyOrderAt(base: seq<Byte>, payload: seq<Byte>, address: nat, order: seq<nat>, at: nat)
    requires Permutes(order, BlockCount(|payload|))
    ensures At(OverlayAll(base, Pieces(payload, address, order)), at)
            == if Covers(address, payload, at) then payload[at - address] else At(base, at)
  {
    PiecesDisjoint(payload, address, order);
    hide Chunk, BlockCount, Pieces, Permutes, OverlayAll, At, Disjoint;
    if Covers(address, payload, at) {
      var i := PieceAt(payload, address, order, at);
      PieceShows(base, Pieces(payload, address, order), at, i, payload[at - address]);
    } else {
      forall i: nat | i < |order|
        ensures !Covers(Pieces(payload, address, order)[i].0, Pieces(payload, address, order)[i].1, at)
      {
        NoPieceAt(payload, address, order, at, i);
      }
      NothingShows(base, Pieces(payload, address, order), at);
    }
  }

  lemma LastChunk(payload: seq<Byte>)
    requires payload != []
    ensures var n := BlockCount(|payload|);
            0 < n && (n - 1) * PAYLOAD + |Chunk(payload, n - 1)| == |payload|
  {
  }

  lemma AnyOrderLength(base: seq<Byte>, payload: seq<Byte>, address: nat, order: seq<nat>)
    requires payload != [] && Permutes(order, BlockCount(|payload|))
    ensures |OverlayAll(base, Pieces(payload, address, order))| == Max(|base|, address + |payload|)
  {
    var n := BlockCount(|payload|);
    var pieces := Pieces(payload, address, order);
    var reach := |OverlayAll(base, pieces)|;
    OverlayAllReach(base, pieces);
    LastChunk(payload);
    hide OverlayAll, Chunk, BlockCount, Pieces;
    var last := PlaceOf(order, n, n - 1);
    assert pieces[last].0 + |pieces[last].1| == address + |payload|;
    if reach != |base| {
      var k :| 0 <= k < |pieces| && reach == pieces[k].0 + |pieces[k].1|;
      assert |Chunk(payload, order[k])| + order[k] * PAYLOAD <= |payload|;
    }
  }

  /** Laying the chunks over any base in any order is one overlay of the whole payload. */
  lemma AnyOrderOneOverlay(base: seq<Byte>, payload: seq<Byte>, address: nat, order: seq<nat>)
    requires payload != [] && Permutes(order, BlockCount(|payload|))
    ensures OverlayAll(base, Pieces(payload, address, order)) == Overlay(base, address, payload)
  {
    var a, b := OverlayAll(base, Pieces(payload, address, order)), Overlay(base, address, payload);
    AnyOrderLength(base, payload, address, order);
    forall at: nat ensures At(a, at) == At(b, at) {
      AnyOrderAt(base, payload, address, order, at);
    }
    SameFlash(a, b);
  }

  lemma ChunkCovers(payload: seq<Byte>, address: nat, at: nat) returns (k: nat)
    requires Covers(address, payload, at)
    ensures k < BlockCount(|payload|)
    ensures Covers(address + k * PAYLOAD, Chunk(payload, k), at)
    ensures Chunk(payload, k)[at - (address + k * PAYLOAD)] == payload[at - address]
  {
    k := (at - address) / PAYLOAD;
  }
}
