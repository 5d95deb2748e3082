/** The kernel heap of src/memory.c in place: the two counters and the linked list of headers. */
module KernelHeap {
  import opened CTypes
  import opened HeapSpec

  class MemoryBlock {
    var size: uint32
    var isFree: bool
    var next: MemoryBlock?
    var data: uint32

    constructor (size: uint32, data: uint32)
      ensures this.size == size && !isFree && next == null && this.data == data
    {
      this.size, isFree, next, this.data := size, false, null, data;
    }
  }

  ghost function View(spine: seq<MemoryBlock>): (blocks: seq<Block>)
    reads spine`size, spine`isFree, spine`data
    ensures |blocks| == |spine|
    ensures forall i :: 0 <= i < |spine| ==> blocks[i] == Block(spine[i].size, spine[i].isFree, spine[i].data)
  {
    if spine == [] then []
    else
      var last := spine[|spine| - 1];
      View(spine[..|spine| - 1]) + [Block(last.size, last.isFree, last.data)]
  }

  /** A new block from what was reserved for it. */
  lemma ReservedBlock(h: Heap, size: sint32)
    ensures var (m, header, data) := HeapSpec.Reserve(h.arena, size);
            HeapSpec.NewBlock(h, size)
            == if header == NULL then (HeapSpec.Heap(m, h.blocks), false)
               else (HeapSpec.Heap(m, h.blocks + [Block(AsUnsigned(size), false, data)]), true)
  {}

  class Memory {
    var startAddr: uint32
    var endAddr: uint32
    var totalSize: uint32
    var usedSize: uint32
    var head: MemoryBlock?
    ghost var spine: seq<MemoryBlock>

    ghost predicate Valid()
      reads this`head, this`spine, spine`next
    {
      && (forall i, j :: 0 <= i < j < |spine| ==> spine[i] != spine[j])
      && head == At(0)
      && forall i :: 0 <= i < |spine| ==> spine[i].next == At(i + 1)
    }

    ghost function At(i: nat): MemoryBlock?
      reads this`spine
    {
      if i < |spine| then spine[i] else null
    }

    ghost function Blocks(): seq<Block>
      reads this`spine, spine`size, spine`isFree, spine`data
    {
      View(spine)
    }

    ghost function Arena(): Arena
      reads this`startAddr, this`totalSize, this`usedSize
    {
      HeapSpec.Arena(startAddr, totalSize, usedSize)
    }

    ghost function Heap(): Heap
      reads this, spine
    {
      HeapSpec.Heap(Arena(), Blocks())
    }

    constructor ()
      ensures Valid() && Heap() == HeapSpec.Heap(HeapSpec.Arena(0, 0, 0), []) && endAddr == 0
    {
      startAddr, endAddr, totalSize, usedSize := 0, 0, 0, 0;
      head, spine := null, [];
    }

    /** kstd_mem_init: it tests the bounds of the previous call, and takes START - END. */
    method Init(start: uint32, end: uint32) returns (status: int)
      requires Valid()
      modifies this`startAddr, this`endAddr, this`totalSize, this`usedSize
      ensures Valid()
      ensures if old(startAddr) > old(endAddr) then status == -1 && Heap() == old(Heap()) && endAddr == old(endAddr)
              else status == 0 && endAddr == end
                   && Heap() == HeapSpec.Heap(HeapSpec.Arena(start, Wrap32(start - end), 0), old(Blocks()))
    {
      hide Valid;
      if startAddr > endAddr {
        return -1;
      }
      startAddr, endAddr := start, end;
      totalSize := Wrap32(start - end);
      usedSize := 0;
      return 0;
    }

    /** kstd_mem_brk. */
    method Sbrk(size: sint32) returns (addr: uint32)
      requires Valid()
      modifies this`usedSize
      ensures Valid() && (Arena(), addr) == Brk(old(Arena()), size)
    {
      if size <= 0 {
        return NULL;
      }
      if AsSigned(Wrap32(totalSize - usedSize)) <= size {
        return NULL;
      }
      addr := Wrap32(startAddr + usedSize + size + WORD_SIZE);
      usedSize := Wrap32(usedSize + size + WORD_SIZE);
    }

    /** kstd_mem_worst: despite its name, the first free block that is large enough. */
    method Worst(size: sint32) returns (block: MemoryBlock?)
      requires Valid()
      ensures block == At(FirstFit(Blocks(), size, 0))
    {
      block := head;
      ghost var i := 0;
      while block != null
        invariant i <= |spine| && block == At(i)
        invariant FirstFit(Blocks(), size, 0) == FirstFit(Blocks(), size, i)
        decreases |spine| - i
      {
        if block.isFree {
          if AsSigned(block.size) >= size {
            return;
          }
        }
        block := block.next;
        i := i + 1;
      }
    }

    /** `block->meta.is_free = isFree`, for the block at position `i` of the list. */
    method SetFree(block: MemoryBlock, isFree: bool, ghost i: nat)
      requires Valid() && i < |spine| && block == spine[i]
      modifies block`isFree
      ensures Blocks() == old(Blocks())[i := old(Blocks())[i].(isFree := isFree)]
    {
      block.isFree := isFree;
    }

    /** The walk to the end of the list that kstd_mem_new_block starts with. */
    method Last() returns (last: MemoryBlock)
      requires Valid() && head != null
      ensures spine != [] && last == spine[|spine| - 1]
    {
      last := head;
      ghost var i := 0;
      while last.next != null
        invariant i < |spine| && last == spine[i]
        decreases |spine| - i
      {
        last := last.next;
        i := i + 1;
      }
    }

    /** kstd_mem_new_block: a header and its data behind the last block; null when the header was
        refused, where the original writes through a null pointer. */
    method NewBlock(size: sint32) returns (block: MemoryBlock?)
      requires Valid() && head != null
      modifies this`usedSize, this`spine, spine
      ensures Valid()
      ensures var (h, written) := HeapSpec.NewBlock(old(Heap()), size);
              Arena() == h.arena && Blocks() == h.blocks && (block != null <==> written)
      ensures old(spine) != [] && (block == null ==> spine == old(spine))
      ensures block != null ==> fresh(block) && spine == old(spine) + [block]
    {
      hide Valid, HeapSpec.NewBlock, HeapSpec.Reserve, Brk;
      ReservedBlock(Heap(), size);
      var last := Last();
      var header, data := Reserve(size);
      if header == NULL {
        return null;
      }
      block := Link(last, AsUnsigned(size), data);
    }

    /** Header and data of a new block. */
    method Reserve(size: sint32) returns (header: uint32, data: uint32)
      requires Valid()
      modifies this`usedSize
      ensures (Arena(), header, data) == HeapSpec.Reserve(old(Arena()), size)
    {
      header := Sbrk(HEADER);
      data := NULL;
      if header != NULL {
        data := Sbrk(size);
      }
    }

    /** The new block's fields, and `last->next = block`. */
    method Link(last: MemoryBlock, size: uint32, data: uint32) returns (block: MemoryBlock)
      requires Valid() && spine != [] && last == spine[|spine| - 1]
      modifies last`next, this`spine
      ensures Valid() && fresh(block) && spine == old(spine) + [block]
      ensures Blocks() == old(Blocks()) + [Block(size, false, data)]
    {
      block := new MemoryBlock(size, data);
      last.next := block;
      spine := spine + [block];
    }

    /** kstd_mem_malloc. */
    method Malloc(size: sint32) returns (outcome: Outcome)
      requires Valid()
      modifies this, spine
      ensures Valid() && old(spine) <= spine && fresh(spine[|old(spine)|..])
      ensures (Heap(), outcome) == HeapSpec.Malloc(old(Heap()), size)
    {
      hide Valid, Append;
      if size <= 0 {
        return Returned(NULL);
      }
      if head == null {
        outcome := FirstMalloc(size);
        return;
      }
      var worst := Worst(size);
      if worst == null {
        outcome := AppendMalloc(size);
      } else {
        outcome := Reuse(worst, size);
      }
    }

    /** The branch of kstd_mem_malloc that hands out a block of the list again. */
    method Reuse(block: MemoryBlock, size: sint32) returns (outcome: Outcome)
      requires Valid() && FirstFit(Blocks(), size, 0) < |spine| && block == spine[FirstFit(Blocks(), size, 0)]
      modifies spine`isFree
      ensures var (h, i) := (old(Heap()), FirstFit(old(Blocks()), size, 0));
              && Heap() == h.(blocks := h.blocks[i := h.blocks[i].(isFree := false)])
              && outcome == Returned(h.blocks[i].data)
    {
      SetFree(block, false, FirstFit(Blocks(), size, 0));
      return Returned(block.data);
    }

    /** The branch of kstd_mem_malloc that finds no block: it writes the new block's fields again. */
    method AppendMalloc(size: sint32) returns (outcome: Outcome)
      requires Valid() && head != null && size > 0
      modifies this`usedSize, this`spine, spine
      ensures Valid() && old(spine) <= spine && fresh(spine[|old(spine)|..])
      ensures (Heap(), outcome) == Append(old(Heap()), size)
    {
      hide Valid, HeapSpec.NewBlock, Brk;
      var block := NewBlock(size);
      if block == null {
        return Faulted;
      }
      outcome := Rewrite(block, size);
    }

    /** What malloc writes into the block it has just appended. */
    method Rewrite(block: MemoryBlock, size: sint32) returns (outcome: Outcome)
      requires Valid() && spine != [] && block == spine[|spine| - 1] && size > 0
      modifies this`usedSize, block`isFree, block`size, block`data
      ensures Valid()
      ensures (Arena(), outcome) == (Brk(old(Arena()), size).0, Returned(Brk(old(Arena()), size).1))
      ensures Blocks() == old(Blocks())[|spine| - 1 := Block(size, false, outcome.addr)]
    {
      hide Brk;
      block.isFree := false;
      block.size := size;
      block.data := Sbrk(size);
      assert Blocks() == old(Blocks())[|spine| - 1 := Block(size, false, block.data)];
      return Returned(block.data);
    }

    /** The branch of kstd_mem_malloc that creates the head. */
    method FirstMalloc(size: sint32) returns (outcome: Outcome)
      requires Valid() && head == null && size > 0
      modifies this
      ensures Valid() && old(spine) == [] && fresh(spine)
      ensures (Heap(), outcome) == HeapSpec.Malloc(old(Heap()), size)
    {
      assert spine == [];
      var header, data := Reserve(size);
      if header == NULL {
        return Faulted;
      }
      head := new MemoryBlock(AsUnsigned(size), data);
      spine := [head];
      assert Blocks() == old(Blocks()) + [Block(size, false, data)];
      return Returned(head.data);
    }

    /** kstd_mem_free. */
    method Free(addr: uint32)
      requires Valid()
      modifies spine
      ensures Valid() && Heap() == HeapSpec.Free(old(Heap()), addr)
    {
      var block := head;
      ghost var i := 0;
      while block != null
        invariant i <= |spine| && block == At(i)
        invariant Valid() && Heap() == old(Heap())
        invariant Position(Blocks(), addr, 0) == Position(Blocks(), addr, i)
        decreases |spine| - i
      {
        if block.data == addr {
          SetFree(block, true, i);
          return;
        }
        block := block.next;
        i := i + 1;
      }
    }
  }
}
