/** The bump allocator that execution stacks and objects are carved from, over committed pages. */
module StackHeaps {
  import opened Bits

  const PAGE_SIZE: nat := 4096

  /** A stretch of bytes, by its offset from the start of the heap. */
  datatype Block = Block(offset: nat, size: nat)

  /** Blocks that lie one after the other without overlap, all below a limit. */
  ghost predicate Stacked(blocks: seq<Block>, limit: nat) {
    && (forall i :: 0 <= i < |blocks| ==> blocks[i].offset + blocks[i].size <= limit)
    && (forall i, j :: 0 <= i < j < |blocks| ==> blocks[i].offset + blocks[i].size <= blocks[j].offset)
  }

  /** Blocks that tile the bytes below the limit: each starts where the one before it ends. */
  ghost predicate Tiles(blocks: seq<Block>, limit: nat) {
    if blocks == [] then limit == 0
    else
      var last := blocks[|blocks| - 1];
      last.size > 0 && last.offset + last.size == limit && Tiles(blocks[..|blocks| - 1], last.offset)
  }

  class StackHeap {
    const start: nat
    const capacity: nat
    var size: nat
    var committed: nat
    ghost var blocks: seq<Block>
    ghost var commits: seq<Block>

    ghost predicate Valid()
      reads this
    {
      && start % PAGE_SIZE == 0 && capacity % PAGE_SIZE == 0 && capacity + PAGE_SIZE < WORD64
      && size <= committed <= capacity && committed % PAGE_SIZE == 0
      && Stacked(blocks, size)
      && Tiles(commits, committed)
    }

    constructor (start: nat, capacity: nat)
      requires start % PAGE_SIZE == 0 && capacity % PAGE_SIZE == 0 && capacity + PAGE_SIZE < WORD64
      ensures Valid() && size == 0 && committed == 0 && blocks == [] && commits == []
      ensures this.start == start && this.capacity == capacity
    {
      this.start, this.capacity := start, capacity;
      size, committed, blocks, commits := 0, 0, [], [];
    }

    /** Rounding the size of the heap up to an alignment, or up to whole pages, is harmless. */
    lemma AllocationFits(k: nat)
      requires Valid() && Pow2(k) <= PAGE_SIZE
      ensures var offset := AlignUp(size, Pow2(k));
              size <= offset < size + Pow2(k) && (start + offset) % Pow2(k) == 0
      ensures forall n: nat :: n <= capacity ==>
                n <= AlignUp(n, PAGE_SIZE) <= capacity && AlignUp(n, PAGE_SIZE) % PAGE_SIZE == 0
    {
      Pow2Values();
      AlignUpIsLeast(size, Pow2(k), k);
      if k > 12 {
        Pow2Monotone(13, k);
      }
      MultipleOfSmallerPower(start, k, 12);
      SumOfMultiples(start, AlignUp(size, Pow2(k)), Pow2(k));
      forall n: nat | n <= capacity
        ensures n <= AlignUp(n, PAGE_SIZE) <= capacity && AlignUp(n, PAGE_SIZE) % PAGE_SIZE == 0
      {
        AlignUpIsLeast(n, PAGE_SIZE, 12);
      }
    }

    /** The capacity is never checked, so the caller must leave room. */
    method Allocate(alignment: nat, newBytes: nat, ghost k: nat) returns (address: nat)
      requires Valid() && alignment == Pow2(k) <= PAGE_SIZE
      requires AlignUp(size, alignment) + newBytes <= capacity
      modifies this
      ensures Valid()
      ensures address == start + AlignUp(old(size), alignment) && address % alignment == 0
      ensures old(size) <= address - start < old(size) + alignment
      ensures size == address - start + newBytes
      ensures blocks == old(blocks) + [Block(address - start, newBytes)]
      ensures old(commits) <= commits && old(committed) <= committed
      ensures var required := AlignUp(size, PAGE_SIZE);
              committed == if old(committed) < required then required else old(committed)
    {
      AllocationFits(k);
      var offset := AlignUp(size, alignment);
      var newSize := offset + newBytes;
      var required := AlignUp(newSize, PAGE_SIZE);
      if committed < required {
        commits := commits + [Block(committed, required - committed)];
        committed := required;
      }
      size := newSize;
      blocks := blocks + [Block(offset, newBytes)];
      return start + offset;
    }
  }
}
