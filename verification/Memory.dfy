/** The freestanding copies: `memmove` for any overlap, and what the forward `memcpy` does. */
module Memory {
  import opened Bytes
  import Numbers

  /** Both regions lie inside memory. */
  predicate Regions(size: nat, dst: nat, src: nat, n: nat) {
    dst + n <= size && src + n <= size
  }

  /** Memory with the source's original bytes at the destination, and nothing else changed. */
  function Moved(m: seq<Byte>, dst: nat, src: nat, n: nat): (r: seq<Byte>)
    requires Regions(|m|, dst, src, n)
    ensures |r| == |m|
    ensures forall i :: 0 <= i < |m| ==> r[i] == if dst <= i < dst + n then m[src + (i - dst)] else m[i]
  {
    m[..dst] + m[src..src + n] + m[dst + n..]
  }

  /** Copying byte by byte, first byte first. */
  function Forward(m: seq<Byte>, dst: nat, src: nat, n: nat): (r: seq<Byte>)
    requires Regions(|m|, dst, src, n)
    ensures |r| == |m|
  {
    if n == 0 then m
    else
      var before := Forward(m, dst, src, n - 1);
      before[dst + n - 1 := before[src + n - 1]]
  }

  /** `memcpy`. */
  method CopyForward(memory: array<Byte>, destination: nat, source: nat, length: nat)
    requires destination + length <= memory.Length && source + length <= memory.Length
    modifies memory
    ensures memory[..] == Forward(old(memory[..]), destination, source, length)
  {
    var output, input, left: nat := destination, source, length;
    while left != 0
      invariant left <= length && output == destination + (length - left) && input == source + (length - left)
      invariant memory[..] == Forward(old(memory[..]), destination, source, length - left)
    {
      left := left - 1;
      ghost var before := memory[..];
      memory[output] := memory[input];
      assert memory[..] == before[output := before[input]];
      output, input := output + 1, input + 1;
    }
  }

  /** The offset from which the byte at offset `i` finally comes, when the destination lies `k` to the
      right of the source. */
  function Phase(i: nat, k: nat): (p: nat)
    requires 0 < k
    ensures p < k
  {
    i % k
  }

  lemma PhaseStep(i: nat, k: nat)
    requires 0 < k
    ensures i < k ==> Phase(i, k) == i
    ensures k <= i ==> Phase(i, k) == Phase(i - k, k)
  {
    if i < k {
      Numbers.DivUnique(i, k, 0, i);
    } else {
      Numbers.ModOnce(i - k, k);
    }
  }

  /** The byte the forward copy leaves at `i`: left of the source or at it, the byte asked for; to the
      right, one of the bytes between source and destination, over and over. */
  function Left(m: seq<Byte>, dst: nat, src: nat, n: nat, i: nat): Byte
    requires Regions(|m|, dst, src, n) && i < |m|
  {
    if !(dst <= i < dst + n) then m[i]
    else if dst <= src then m[src + (i - dst)]
    else m[src + Phase(i - dst, dst - src)]
  }

  lemma {:induction false} ForwardAt(m: seq<Byte>, dst: nat, src: nat, n: nat, i: nat)
    requires Regions(|m|, dst, src, n) && i < |m|
    ensures Forward(m, dst, src, n)[i] == Left(m, dst, src, n, i)
  {
    hide Phase;
    if n != 0 {
      var last := n - 1;
      ForwardAt(m, dst, src, last, i);
      ForwardAt(m, dst, src, last, src + last);
      if dst > src {
        PhaseStep(last, dst - src);
      }
    }
  }

  /** The bytes of the source repeat those before the destination. */
  ghost predicate Repeats(m: seq<Byte>, dst: nat, src: nat, n: nat)
    requires Regions(|m|, dst, src, n) && src < dst
  {
    forall i :: dst <= i < dst + n ==> Left(m, dst, src, n, i) == m[src + (i - dst)]
  }

  lemma AgreeAt(m: seq<Byte>, dst: nat, src: nat, n: nat, i: nat)
    requires Regions(|m|, dst, src, n) && i < |m|
    ensures Forward(m, dst, src, n)[i] == Moved(m, dst, src, n)[i] <==>
            !(src < dst <= i < dst + n) || Left(m, dst, src, n, i) == m[src + (i - dst)]
  {
    ForwardAt(m, dst, src, n, i);
    hide Phase, Forward;
  }

  /** For one memory, the forward copy moves correctly exactly when the destination is not to the right
      of the source, or the source is periodic with the distance between them. */
  lemma ForwardMovesIff(m: seq<Byte>, dst: nat, src: nat, n: nat)
    requires Regions(|m|, dst, src, n)
    ensures Forward(m, dst, src, n) == Moved(m, dst, src, n) <==> dst <= src || Repeats(m, dst, src, n)
  {
    var a, b := Forward(m, dst, src, n), Moved(m, dst, src, n);
    LengthKept(m, dst, src, n);
    hide Phase, Forward, Moved, Left;
    if dst > src && a == b {
      forall i | dst <= i < dst + n ensures Left(m, dst, src, n, i) == m[src + (i - dst)] {
        AgreeAt(m, dst, src, n, i);
      }
    }
    if dst <= src || Repeats(m, dst, src, n) {
      forall i | 0 <= i < |m| ensures a[i] == b[i] {
        AgreeAt(m, dst, src, n, i);
      }
      assert a == b;
    }
  }

  lemma LengthKept(m: seq<Byte>, dst: nat, src: nat, n: nat)
    requires Regions(|m|, dst, src, n)
    ensures |Forward(m, dst, src, n)| == |m| == |Moved(m, dst, src, n)|
  {
  }

  /** For all memories, exactly when the destination is not inside the source, right of its start. */
  lemma ForwardMovesAllIff(size: nat, dst: nat, src: nat, n: nat)
    requires Regions(size, dst, src, n)
    ensures (forall m: seq<Byte> :: |m| == size ==> Forward(m, dst, src, n) == Moved(m, dst, src, n))
            <==> dst <= src || src + n <= dst
  {
    hide Phase, Forward, Moved;
    if dst <= src || src + n <= dst {
      forall m: seq<Byte> | |m| == size ensures Forward(m, dst, src, n) == Moved(m, dst, src, n) {
        if dst > src {
          forall i | dst <= i < dst + n ensures Left(m, dst, src, n, i) == m[src + (i - dst)] {
            PhaseStep(i - dst, dst - src);
          }
        }
        ForwardMovesIff(m, dst, src, n);
      }
    } else {
      var m, k := Marked(size, dst), dst - src;
      ForwardMovesIff(m, dst, src, n);
      PhaseStep(k, k);
      PhaseStep(0, k);
      assert Left(m, dst, src, n, dst + k) == m[src] == 0;
    }
  }

  /** Memory that is zero but for one byte. */
  function Marked(size: nat, at: nat): (m: seq<Byte>)
    ensures |m| == size && forall i :: 0 <= i < size ==> m[i] == if i == at then 1 else 0
  {
    seq(size, i => if i == at then 1 else 0)
  }

  /** Memory once the backward copy has `left` bytes to go. */
  function Backward(m: seq<Byte>, dst: nat, src: nat, n: nat, left: nat): (r: seq<Byte>)
    requires Regions(|m|, dst, src, n) && left <= n
    ensures |r| == |m|
  {
    m[..dst + left] + m[src + left..src + n] + m[dst + n..]
  }

  /** Since the source is not to the right, the byte to copy next is still the original one. */
  lemma BackwardStep(m: seq<Byte>, dst: nat, src: nat, n: nat, left: nat)
    requires Regions(|m|, dst, src, n) && src <= dst && left < n
    ensures var before := Backward(m, dst, src, n, left + 1);
            before[dst + left := before[src + left]] == Backward(m, dst, src, n, left)
  {
    var before := Backward(m, dst, src, n, left + 1);
    assert before[src + left] == m[src + left];
    assert m[src + left..src + n] == [m[src + left]] + m[src + left + 1..src + n];
    assert m[..dst + left + 1] == m[..dst + left] + [m[dst + left]];
  }

  lemma BackwardEnds(m: seq<Byte>, dst: nat, src: nat, n: nat)
    requires Regions(|m|, dst, src, n)
    ensures Backward(m, dst, src, n, n) == m && Backward(m, dst, src, n, 0) == Moved(m, dst, src, n)
  {
  }

  /** `memmove`, over the forward copy when the destination is to the left, and last byte first
      otherwise: the destination always receives the source's original bytes. */
  method Move(memory: array<Byte>, destination: nat, source: nat, length: nat)
    requires destination + length <= memory.Length && source + length <= memory.Length
    modifies memory
    ensures memory[..] == Moved(old(memory[..]), destination, source, length)
  {
    if destination < source {
      ForwardMovesIff(memory[..], destination, source, length);
      CopyForward(memory, destination, source, length);
      return;
    }
    BackwardEnds(memory[..], destination, source, length);
    hide Moved, Backward, Forward;
    var left: nat := length;
    while left != 0
      invariant left <= length
      invariant memory[..] == Backward(old(memory[..]), destination, source, length, left)
    {
      left := left - 1;
      ghost var before := memory[..];
      BackwardStep(old(memory[..]), destination, source, length, left);
      memory[destination + left] := memory[source + left];
      assert memory[..] == before[destination + left := before[source + left]];
    }
  }

  /** The other `memmove`, with both loops in one body. */
  method MoveInline(memory: array<Byte>, destination: nat, source: nat, length: nat)
    requires destination + length <= memory.Length && source + length <= memory.Length
    modifies memory
    ensures memory[..] == Moved(old(memory[..]), destination, source, length)
  {
    var output, input, left: nat := destination, source, length;
    ForwardMovesIff(memory[..], destination, source, length);
    BackwardEnds(memory[..], destination, source, length);
    hide Moved, Backward, Repeats;
    if output < input {
      while left != 0
        invariant left <= length && output == destination + (length - left) && input == source + (length - left)
        invariant memory[..] == Forward(old(memory[..]), destination, source, length - left)
      {
        ghost var before := memory[..];
        memory[output] := memory[input];
        assert memory[..] == before[output := before[input]];
        output, input, left := output + 1, input + 1, left - 1;
      }
    } else {
      while left != 0
        invariant left <= length
        invariant memory[..] == Backward(old(memory[..]), destination, source, length, left)
      {
        left := left - 1;
        ghost var before := memory[..];
        BackwardStep(old(memory[..]), destination, source, length, left);
        memory[output + left] := memory[input + left];
        assert memory[..] == before[output + left := before[input + left]];
      }
    }
  }
}
