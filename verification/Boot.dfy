/** The one heap the kernel makes: what kmain of src/kernel.c passes to kstd_mem_init. */
module Boot {
  import opened CTypes
  import FramePool
  import HeapSpec

  /** The frame allocator as loaded. Nothing calls kstd_mem_pre_init, so its globals are still zero. */
  const UNTOUCHED := FramePool.Pool(0, 0, 0, 0, {})

  const FIRST_BLOCKS: uint32 := 20

  /** The address of the first blocks. */
  function Start(p: FramePool.Pool): uint32 {
    FramePool.Grant(p, FramePool.PickMany(p, FIRST_BLOCKS), FIRST_BLOCKS).1
  }

  /** The number of the next free frame, -1 when there is none. */
  function NextFree(p: FramePool.Pool): int {
    var q := FramePool.Grant(p, FramePool.PickMany(p, FIRST_BLOCKS), FIRST_BLOCKS).0;
    FramePool.SearchFrom(q.free, 1, 0, q.Bits())
  }

  /** The end passed with them: that many blocks further on. */
  function End(p: FramePool.Pool): uint32 {
    Wrap32(Start(p) + NextFree(p) * FramePool.BLOCK_SIZE)
  }

  /** The arena kstd_mem_init makes of the two. */
  function Made(p: FramePool.Pool): HeapSpec.Arena {
    HeapSpec.Arena(Start(p), Wrap32(Start(p) - End(p)), 0)
  }

  /** Both searches fail on the untouched allocator, so the heap is the 4096 bytes from address 0 on:
      START is NULL, END is one block below it, and their difference wraps to a block. brk serves every
      positive request below 4096 bytes, and the heap invariant holds. */
  lemma KernelHeapServes()
    ensures Start(UNTOUCHED) == HeapSpec.NULL && End(UNTOUCHED) == 0xFFFF_F000
    ensures Made(UNTOUCHED) == HeapSpec.Arena(0, 4096, 0)
    ensures forall size: sint32 :: HeapSpec.Refuses(Made(UNTOUCHED), size) <==> !(0 < size < 4096)
    ensures HeapSpec.Inv(HeapSpec.Heap(Made(UNTOUCHED), []))
  {
    HeapSpec.EmptyHeapInv(0, 4096);
  }

  lemma WrapsBack(start: uint32, d: int)
    ensures Wrap32(start - Wrap32(start + d)) == Wrap32(-d)
  {}

  lemma BlocksBelow(g: int)
    requires -1 <= g < 0x10_0000
    ensures 2 <= Wrap32(-(g * FramePool.BLOCK_SIZE)) < 0x8000_0000 <==> !(0 <= g <= 0x8_0000)
  {
    if g > 0 {
      assert Wrap32(-(g * FramePool.BLOCK_SIZE)) == 0x1_0000_0000 - g * FramePool.BLOCK_SIZE;
    }
  }

  /** For the same lines on any consistent allocator: nothing can ever be had from the heap exactly
      when a free frame is left behind the first blocks, unless its number is above 2^19. */
  lemma HeapStarvesIff(p: FramePool.Pool)
    requires p.Consistent() && p.maxBlocks == p.memSize / FramePool.BLOCK_SIZE
    ensures HeapSpec.Starved(Made(p)) <==> 0 <= NextFree(p) <= 0x8_0000
  {
    hide FramePool.Grant, FramePool.PickMany, FramePool.SearchFrom, HeapSpec.Starved, Wrap32;
    NextFreeBounds(p);
    BlocksBelow(NextFree(p));
    WrapsBack(Start(p), NextFree(p) * FramePool.BLOCK_SIZE);
    HeapSpec.InitStarvesIff(Start(p), End(p));
  }

  lemma NextFreeBounds(p: FramePool.Pool)
    requires p.Consistent()
    ensures NextFree(p) == -1 || 0 <= NextFree(p) < p.maxBlocks
  {
    var q := FramePool.Grant(p, FramePool.PickMany(p, FIRST_BLOCKS), FIRST_BLOCKS).0;
    assert q.free <= p.free;
    FramePool.SearchExact(q.free, 1, 0, q.Bits(), NextFree(p));
  }

  function KernelHeap(): HeapSpec.Heap {
    HeapSpec.Heap(Made(UNTOUCHED), [])
  }

  /** Malloc failing on the kernel's heap: a first request of 4076 bytes leaves a block whose address is
      NULL, and after one of 4071 bytes the next request writes through a null pointer. */
  lemma KernelHeapFails()
    ensures HeapSpec.Malloc(KernelHeap(), 4076).1 == HeapSpec.Returned(HeapSpec.NULL)
    ensures var h := HeapSpec.Malloc(KernelHeap(), 4071).0;
            && HeapSpec.Malloc(KernelHeap(), 4071).1 == HeapSpec.Returned(4095)
            && HeapSpec.Malloc(h, 1).1.Faulted?
  {
    KernelHeapServes();
    var h := KernelHeap();
    HeapSpec.MallocFailsIff(h, 4076);
    HeapSpec.MallocFailsIff(h, 4071);
    HeapSpec.AppendExact(h, 4071);
    HeapSpec.AppendKeeps(h, 4071);
    var g := HeapSpec.Malloc(h, 4071).0;
    assert g == HeapSpec.Append(h, 4071).0 && !g.blocks[0].isFree;
    HeapSpec.MallocFailsIff(g, 1);
  }
}
