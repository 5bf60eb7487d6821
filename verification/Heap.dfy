/** The freestanding bump allocator: nothing is ever given back. */
module Heap {
  import opened Numbers
  import opened Options

  const SIZE: nat := 32 * 1024

  /** The range of `size_t`. */
  type Length = n: nat | n < MODULUS

  /** A length rounded up to a multiple of eight, in `size_t` arithmetic. */
  function Rounded(length: Length): (r: Length) {
    (length + 7) % MODULUS / 8 * 8
  }

  /** A block that was handed out: where it starts, what was asked for, what was taken. */
  datatype Block = Block(offset: nat, asked: Length, taken: Length)

  /** The allocator's variable, and the blocks returned so far. */
  datatype Arena = Arena(used: nat, blocks: seq<Block>)

  datatype Operation = Malloc(length: Length) | Free(pointer: Option<nat>) | Realloc(pointer: Option<nat>, length: Length)

  function Allocate(a: Arena, length: Length): (Arena, Option<nat>)
    requires a.used <= SIZE
  {
    var taken := Rounded(length);
    if taken > SIZE - a.used then (a, None)
    else (Arena(a.used + taken, a.blocks + [Block(a.used, length, taken)]), Some(a.used))
  }

  /** One call; the result is an offset into the heap, or null. */
  function Apply(a: Arena, operation: Operation): (Arena, Option<nat>)
    requires a.used <= SIZE
  {
    match operation
    case Malloc(length) => Allocate(a, length)
    case Free(_) => (a, None)
    case Realloc(pointer, length) => if pointer.None? then Allocate(a, length) else (a, None)
  }

  function Run(a: Arena, operations: seq<Operation>): Arena
    requires Valid(a)
    decreases |operations|
  {
    if operations == [] then a
    else
      ApplyKeeps(a, operations[0]);
      Run(Apply(a, operations[0]).0, operations[1..])
  }

  const EMPTY := Arena(0, [])

  /** Where block `i` ends: at the next one, or at the fill mark. */
  ghost predicate Adjoins(a: Arena, i: nat)
    requires i < |a.blocks|
  {
    var b := a.blocks[i];
    && b.offset % 8 == 0 && b.taken == Rounded(b.asked)
    && b.offset + b.taken == if i + 1 < |a.blocks| then a.blocks[i + 1].offset else a.used
  }

  /** The heap is filled from the bottom without gaps, in aligned blocks. */
  ghost predicate Valid(a: Arena) {
    && a.used % 8 == 0 && a.used <= SIZE
    && (forall i :: 0 <= i < |a.blocks| ==> Adjoins(a, i))
    && (if a.blocks == [] then a.used == 0 else a.blocks[0].offset == 0)
  }

  lemma AllocateKeeps(a: Arena, length: Length)
    requires Valid(a)
    ensures Valid(Allocate(a, length).0)
  {
    var (after, result) := Allocate(a, length);
    if result.Some? {
      hide Rounded;
      RoundedAligned(length);
      forall i | 0 <= i < |after.blocks| ensures Adjoins(after, i) {
        if i < |a.blocks| {
          assert Adjoins(a, i);
        }
      }
    }
  }

  lemma RoundedAligned(length: Length)
    ensures Rounded(length) % 8 == 0
  {
  }

  lemma ApplyKeeps(a: Arena, operation: Operation)
    requires Valid(a)
    ensures Valid(Apply(a, operation).0)
    ensures a.used <= Apply(a, operation).0.used
    ensures a.blocks <= Apply(a, operation).0.blocks
  {
    if operation.Malloc? || operation.Realloc? {
      AllocateKeeps(a, operation.length);
    }
    hide Valid;
  }

  lemma {:induction false} RunKeeps(a: Arena, operations: seq<Operation>)
    requires Valid(a)
    ensures Valid(Run(a, operations)) && a.used <= Run(a, operations).used && a.blocks <= Run(a, operations).blocks
    decreases |operations|
  {
    if operations != [] {
      ApplyKeeps(a, operations[0]);
      RunKeeps(Apply(a, operations[0]).0, operations[1..]);
    }
  }

  lemma {:induction false} BlocksOrdered(a: Arena, i: nat, j: nat)
    requires Valid(a) && i < j < |a.blocks|
    ensures a.blocks[i].offset + a.blocks[i].taken <= a.blocks[j].offset
    decreases j - i
  {
    assert Adjoins(a, i);
    if i + 1 < j {
      BlocksOrdered(a, i + 1, j);
    }
  }

  lemma {:induction false} BlockInside(a: Arena, i: nat)
    requires Valid(a) && i < |a.blocks|
    ensures a.blocks[i].offset + a.blocks[i].taken <= a.used
    decreases |a.blocks| - i
  {
    assert Adjoins(a, i);
    if i + 1 < |a.blocks| {
      BlockInside(a, i + 1);
    }
  }

  /** Over every run of calls: the blocks returned are aligned, lie inside the heap and never overlap. */
  lemma BlocksDisjoint(operations: seq<Operation>)
    ensures var a := Run(EMPTY, operations);
            && a.used % 8 == 0 && a.used <= SIZE
            && (forall i :: 0 <= i < |a.blocks| ==>
                  a.blocks[i].offset % 8 == 0 && a.blocks[i].offset + a.blocks[i].taken <= SIZE)
            && (forall i, j :: 0 <= i < j < |a.blocks| ==>
                  a.blocks[i].offset + a.blocks[i].taken <= a.blocks[j].offset)
  {
    RunKeeps(EMPTY, operations);
    var a := Run(EMPTY, operations);
    forall i | 0 <= i < |a.blocks|
      ensures a.blocks[i].offset % 8 == 0 && a.blocks[i].offset + a.blocks[i].taken <= a.used
    {
      assert Adjoins(a, i);
      BlockInside(a, i);
    }
    forall i, j | 0 <= i < j < |a.blocks|
      ensures a.blocks[i].offset + a.blocks[i].taken <= a.blocks[j].offset
    {
      BlocksOrdered(a, i, j);
    }
  }

  /** A block holds what was asked for exactly when rounding up does not wrap; otherwise it is empty. */
  lemma HoldsIff(length: Length)
    ensures length <= Rounded(length) <==> length <= MODULUS - 8
    ensures length > MODULUS - 8 ==> Rounded(length) == 0
    ensures Rounded(length) % 8 == 0 && (length <= MODULUS - 8 ==> Rounded(length) < length + 8)
  {
  }

  /** The largest length of all is granted, as a block of no bytes. */
  lemma EmptyBlock()
    ensures Allocate(EMPTY, MODULUS - 1) == (Arena(0, [Block(0, MODULUS - 1, 0)]), Some(0))
  {
    assert Rounded(MODULUS - 1) == 0;
    assert EMPTY.blocks + [Block(0, MODULUS - 1, 0)] == [Block(0, MODULUS - 1, 0)];
  }

  /** Rounding is monotone as long as it does not wrap. */
  lemma RoundedMonotone(m: Length, n: Length)
    requires m <= n <= MODULUS - 8
    ensures Rounded(m) <= Rounded(n)
  {
  }

  /** Once a length has failed, no later request at least as long succeeds, whatever is freed in
      between, except those that wrap. */
  lemma FailsForGood(a: Arena, length: Length, operations: seq<Operation>, later: Length)
    requires Valid(a) && Allocate(a, length).1.None? && length <= later
    ensures Valid(Run(a, operations))
    ensures Allocate(Run(a, operations), later).1.None? <==> later <= MODULUS - 8
  {
    RunKeeps(a, operations);
    HoldsIff(length);
    HoldsIff(later);
    if later <= MODULUS - 8 {
      RoundedMonotone(length, later);
    }
  }

  /** The allocator's static variable. */
  class FallbackHeap {
    var used: nat
    ghost var blocks: seq<Block>

    ghost function View(): Arena
      reads this
    {
      Arena(used, blocks)
    }

    constructor ()
      ensures View() == EMPTY && Valid(View())
    {
      used, blocks := 0, [];
    }

    method Malloc(length: Length) returns (result: Option<nat>)
      requires Valid(View())
      modifies this
      ensures Valid(View()) && (View(), result) == Apply(old(View()), Operation.Malloc(length))
      ensures result.None? <==> old(used) + Rounded(length) > SIZE
      ensures result.Some? ==> result.value == old(used) && used == old(used) + Rounded(length)
    {
      ApplyKeeps(View(), Operation.Malloc(length));
      var taken := (length + 7) % 0x1_0000_0000 / 8 * 8;
      if taken > 32 * 1024 - used {
        return None;
      }
      result := Some(used);
      blocks := blocks + [Block(used, length, taken)];
      used := used + taken;
    }

    method Free(pointer: Option<nat>)
      requires Valid(View())
      ensures View() == Apply(View(), Operation.Free(pointer)).0
    {
    }

    method Realloc(pointer: Option<nat>, length: Length) returns (result: Option<nat>)
      requires Valid(View())
      modifies this
      ensures Valid(View()) && (View(), result) == Apply(old(View()), Operation.Realloc(pointer, length))
    {
      if pointer.None? {
        result := Malloc(length);
      } else {
        result := None;
      }
    }
  }
}
