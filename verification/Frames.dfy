/** The physical frame allocator of src/memory.c, in place: bitmap words, counter, nested searches.
    A 32-bit word is the sequence of its bits, lowest first, so `|= 1 << k` and `&= ~(1 << k)` update
    one position and `!= 0xffffffff` asks for a clear bit. */
module Frames {
  import opened CTypes
  import opened FramePool

  type Word = w: seq<bool> | |w| == 32 witness FULL

  const FULL: seq<bool> := seq(32, _ => true)

  /** The clear bits of a bitmap. */
  ghost function Clear(words: seq<Word>): set<int> {
    set b | 0 <= b < 32 * |words| && !words[b / 32][b % 32]
  }

  lemma SetBit(words: seq<Word>, b: int, v: bool)
    requires 0 <= b < 32 * |words|
    ensures Clear(words[b / 32 := words[b / 32][b % 32 := v]]) == if v then Clear(words) - {b} else Clear(words) + {b}
  {}

  lemma BitPlace(ip: int, jp: int)
    requires 0 <= ip && 0 <= jp < 32
    ensures (32 * ip + jp) / 32 == ip && (32 * ip + jp) % 32 == jp
  {}

  lemma NoneYet(free: set<int>, f: int, used: uint32)
    ensures free + Range(f, 0) == free && free - Range(f, 0) == free && Wrap32(used) == used
  {}

  lemma OneMore(free: set<int>, f: int, n: nat)
    ensures free + Range(f, n) + {f + n} == free + Range(f, n + 1)
    ensures free - Range(f, n) - {f + n} == free - Range(f, n + 1)
  {}

  class FrameAllocator {
    var memSize: uint32
    var maxBlocks: uint32
    var usedBlocks: uint32
    var mapEnd: uint32
    var words: array<Word>

    ghost predicate Valid()
      reads this
    {
      words.Length == maxBlocks
    }

    /** The pool this bitmap and counter stand for. */
    ghost function Pool(): Pool
      reads this, words
    {
      FramePool.Pool(memSize, maxBlocks, mapEnd, usedBlocks, Clear(words[..]))
    }

    /** kstd_mem_pre_init: the bitmap placed at `bitmap`, every frame marked used. */
    constructor (bitmap: uint32, memsize: uint32)
      ensures Valid() && fresh(words)
      ensures Pool() == Fresh(bitmap, memsize)
    {
      memSize := memsize;
      maxBlocks := memsize / BLOCK_SIZE;
      usedBlocks := memsize / BLOCK_SIZE;
      mapEnd := Wrap32(bitmap + 4 * (memsize / BLOCK_SIZE));
      words := new Word[memsize / BLOCK_SIZE](_ => FULL);
      new;
      assert Clear(words[..]) == {};
    }

    method MapSet(bit: int)
      requires Valid() && 0 <= bit < 32 * maxBlocks
      modifies words
      ensures Pool() == old(Pool()).(free := old(Pool().free) - {bit})
    {
      SetBit(words[..], bit, true);
      words[bit / 32] := words[bit / 32][bit % 32 := true];
      assert words[..] == old(words[..])[bit / 32 := old(words[..])[bit / 32][bit % 32 := true]];
    }

    method MapUnset(bit: int)
      requires Valid() && 0 <= bit < 32 * maxBlocks
      modifies words
      ensures Pool() == old(Pool()).(free := old(Pool().free) + {bit})
    {
      SetBit(words[..], bit, false);
      words[bit / 32] := words[bit / 32][bit % 32 := false];
      assert words[..] == old(words[..])[bit / 32 := old(words[..])[bit / 32][bit % 32 := false]];
    }

    /** kstd_mem_first_free. */
    method FirstFree() returns (frame: int)
      requires Valid()
      ensures frame == SearchFrom(Pool().free, 1, 0, Pool().Bits())
    {
      ghost var free := Pool().free;
      assert Weight(free, 0) == 0;
      hide SearchFrom, Weight, Clear;
      var ip := 0;
      while ip < maxBlocks
        invariant 0 <= ip <= maxBlocks
        invariant Weight(free, 32 * ip) < 1
      {
        if words[ip] != FULL {
          var jp := FirstInWord(ip);
          if jp < 32 {
            SearchExact(free, 1, 0, 32 * maxBlocks, ip * 32 + jp);
            return ip * 32 + jp;
          }
        } else {
          FullWord(ip);
        }
        ip := ip + 1;
      }
      SearchExact(free, 1, 0, 32 * maxBlocks, -1);
      return -1;
    }

    /** The inner loop of kstd_mem_first_free: the first clear bit of word `ip`, or 32. */
    method FirstInWord(ip: int) returns (jp: int)
      requires Valid() && 0 <= ip < maxBlocks
      requires Weight(Pool().free, 32 * ip) < 1
      ensures 0 <= jp <= 32
      ensures jp < 32 ==> 32 * ip + jp in Pool().free
      ensures jp < 32 ==> Weight(Pool().free, 32 * ip + jp) < 1 <= Weight(Pool().free, 32 * ip + jp + 1)
      ensures jp == 32 ==> Weight(Pool().free, 32 * (ip + 1)) < 1
    {
      hide Weight, Clear;
      ghost var free := Pool().free;
      jp := 0;
      while jp < 32
        invariant 0 <= jp <= 32
        invariant Weight(free, 32 * ip + jp) < 1
      {
        BitAt(ip, jp);
        if !words[ip][jp] {
          return;
        }
        jp := jp + 1;
      }
    }

    lemma BitIn(ip: int, jp: int)
      requires Valid() && 0 <= ip < maxBlocks && 0 <= jp < 32
      ensures 32 * ip + jp in Pool().free <==> !words[ip][jp]
    {
      BitPlace(ip, jp);
    }

    lemma BitAt(ip: int, jp: int)
      requires Valid() && 0 <= ip < maxBlocks && 0 <= jp < 32
      ensures 32 * ip + jp in Pool().free <==> !words[ip][jp]
      ensures Weight(Pool().free, 32 * ip + jp + 1)
              == Weight(Pool().free, 32 * ip + jp) + if words[ip][jp] then 0 else 32 - jp
    {
      hide Clear;
      BitIn(ip, jp);
      BitPlace(ip, jp);
    }

    lemma FullBit(ip: int, jp: int)
      requires Valid() && 0 <= ip < maxBlocks && 0 <= jp < 32 && words[ip] == FULL
      ensures 32 * ip + jp !in Pool().free
    {
      hide Clear;
      assert FULL[jp];
      BitIn(ip, jp);
    }

    lemma FullWord(ip: int)
      requires Valid() && 0 <= ip < maxBlocks && words[ip] == FULL
      ensures Weight(Pool().free, 32 * (ip + 1)) == Weight(Pool().free, 32 * ip)
    {
      hide Clear, Weight;
      ghost var free := Pool().free;
      forall c | 32 * ip <= c < 32 * (ip + 1) ensures c !in free {
        FullBit(ip, c - 32 * ip);
      }
      WeightSkips(free, 32 * ip, 32 * (ip + 1));
    }

    /** kstd_mem_mmap_ffbs as written: the test inside the innermost loop guards nothing (its `if`
        ends in a semicolon) and the count is never reset. */
    method FindFirstRun(size: uint32) returns (frame: int)
      requires Valid()
      ensures frame == if size == 0 then -1 else SearchFrom(Pool().free, size, 0, Pool().Bits())
    {
      if size == 0 {
        return -1;
      }
      if size == 1 {
        frame := FirstFree();
        return;
      }
      ghost var clear := Pool().free;
      assert Weight(clear, 0) == 0;
      hide SearchFrom, Weight, Clear;
      var ip, free := 0, 0;
      while ip < maxBlocks
        invariant 0 <= ip <= maxBlocks
        invariant free == Weight(clear, 32 * ip) < size
      {
        if words[ip] != FULL {
          var jp;
          jp, free := ScanWord(ip, free, size);
          if jp < 32 {
            SearchExact(clear, size, 0, 32 * maxBlocks, ip * 32 + jp);
            return ip * 32 + jp;
          }
        } else {
          FullWord(ip);
        }
        ip := ip + 1;
      }
      SearchExact(clear, size, 0, 32 * maxBlocks, -1);
      return -1;
    }

    /** The two inner loops of kstd_mem_mmap_ffbs: the bit of word `ip` the search returns from, or 32,
        and the running count. */
    method ScanWord(ip: int, counted: int, size: uint32) returns (jp: int, free: int)
      requires Valid() && 0 <= ip < maxBlocks
      requires counted == Weight(Pool().free, 32 * ip) < size
      ensures 0 <= jp <= 32
      ensures jp < 32 ==> 32 * ip + jp in Pool().free
      ensures jp < 32 ==> Weight(Pool().free, 32 * ip + jp) < size <= Weight(Pool().free, 32 * ip + jp + 1)
      ensures jp == 32 ==> free == Weight(Pool().free, 32 * (ip + 1)) < size
    {
      hide Weight, Clear;
      ghost var clear := Pool().free;
      free := counted;
      jp := 0;
      while jp < 32
        invariant 0 <= jp <= 32
        invariant free == Weight(clear, 32 * ip + jp) < size
      {
        BitAt(ip, jp);
        if !words[ip][jp] {
          var kp := jp;
          while kp < 32
            invariant jp <= kp <= 32
            invariant free == Weight(clear, 32 * ip + jp) + (kp - jp) < size
          {
            free := free + 1;
            if free == size {
              return;
            }
            kp := kp + 1;
          }
        }
        jp := jp + 1;
      }
    }

    /** kstd_mem_pre_init_region. The loop runs while the block count is >= 0. */
    method InitRegion(base: uint32, regionSize: uint32)
      requires Valid() && base / BLOCK_SIZE + FramesOf(regionSize) <= 32 * maxBlocks
      modifies this`usedBlocks, words
      ensures Valid() && Pool() == OpenRegion(old(Pool()), base, regionSize)
    {
      var align, blocks := base / BLOCK_SIZE, regionSize / BLOCK_SIZE;
      ghost var first, done, count := align, 0, FramesOf(regionSize);
      NoneYet(Pool().free, first, usedBlocks);
      hide Range, Clear, Wrap32, FramesOf;
      while blocks >= 0
        invariant 0 <= done == align - first == count - 1 - blocks <= count
        invariant Valid() && usedBlocks == Wrap32(old(usedBlocks) - done)
        invariant Pool().free == old(Pool().free) + Range(first, done)
      {
        MapUnset(align);
        OneMore(old(Pool().free), first, done);
        align := align + 1;
        CountsDown(old(usedBlocks), done);
        usedBlocks := Wrap32(usedBlocks - 1);
        blocks := blocks - 1;
        done := done + 1;
      }
    }

    /** kstd_mem_pre_deinit_region. */
    method DeinitRegion(base: uint32, regionSize: uint32)
      requires Valid() && base / BLOCK_SIZE + FramesOf(regionSize) <= 32 * maxBlocks
      modifies this`usedBlocks, words
      ensures Valid() && Pool() == CloseRegion(old(Pool()), base, regionSize)
    {
      var align, blocks := base / BLOCK_SIZE, regionSize / BLOCK_SIZE;
      ghost var first, done, count := align, 0, FramesOf(regionSize);
      NoneYet(Pool().free, first, usedBlocks);
      hide Range, Clear, Wrap32, FramesOf;
      while blocks >= 0
        invariant 0 <= done == align - first == count - 1 - blocks <= count
        invariant Valid() && usedBlocks == Wrap32(old(usedBlocks) + done)
        invariant Pool().free == old(Pool().free) - Range(first, done)
      {
        MapSet(align);
        OneMore(old(Pool().free), first, done);
        align := align + 1;
        WrapLater(old(usedBlocks) + done, 1);
        usedBlocks := Wrap32(usedBlocks + 1);
        blocks := blocks - 1;
        done := done + 1;
      }
    }

    /** kstd_mem_pre_alloc_block. */
    method AllocBlock() returns (addr: uint32)
      requires Valid()
      modifies this`usedBlocks, words
      ensures Valid() && (Pool(), addr) == Grant(old(Pool()), PickOne(old(Pool())), 1)
    {
      if Wrap32(maxBlocks - usedBlocks) <= 0 {
        return NULL;
      }
      var frame := FirstFree();
      if frame == -1 {
        return NULL;
      }
      SearchBounds(Pool().free, 1, 0, 32 * maxBlocks);
      MapSet(frame);
      assert Range(frame, 1) == {frame};
      addr := Wrap32(frame * BLOCK_SIZE + mapEnd);
      usedBlocks := Wrap32(usedBlocks + 1);
    }

    /** The loop of kstd_mem_pre_alloc_blocks. */
    method TakeRun(frame: nat, n: uint32)
      requires Valid() && frame + n <= 32 * maxBlocks
      modifies words
      ensures Pool() == old(Pool()).(free := old(Pool().free) - Range(frame, n))
    {
      NoneYet(Pool().free, frame, usedBlocks);
      hide Range, Clear;
      for ip := 0 to n
        invariant Pool() == old(Pool()).(free := old(Pool().free) - Range(frame, ip))
      {
        OneMore(old(Pool().free), frame, ip);
        MapSet(frame + ip);
      }
    }

    /** The loop of kstd_mem_pre_free_blocks. */
    method FreeRun(frame: nat, n: uint32)
      requires Valid() && (n > 0 ==> frame + n <= 32 * maxBlocks)
      modifies words
      ensures Pool() == old(Pool()).(free := old(Pool().free) + Range(frame, n))
    {
      NoneYet(Pool().free, frame, usedBlocks);
      hide Range, Clear;
      for ip := 0 to n
        invariant Pool() == old(Pool()).(free := old(Pool().free) + Range(frame, ip))
      {
        OneMore(old(Pool().free), frame, ip);
        MapUnset(frame + ip);
      }
    }

    /** kstd_mem_pre_alloc_blocks. The bitmap has room for the run it picks; in a consistent pool it
        always does (FramePool.ManyStaysInBitmap). */
    method AllocBlocks(size: uint32) returns (addr: uint32)
      requires Valid()
      requires PickMany(Pool(), size) == -1 || PickMany(Pool(), size) + size <= 32 * maxBlocks
      modifies this`usedBlocks, words
      ensures Valid() && (Pool(), addr) == Grant(old(Pool()), PickMany(old(Pool()), size), size)
    {
      if Wrap32(maxBlocks - usedBlocks) <= size {
        return NULL;
      }
      var frame := FindFirstRun(size);
      if frame == -1 {
        return NULL;
      }
      SearchBounds(Pool().free, size, 0, 32 * maxBlocks);
      TakeRun(frame, size);
      addr := Wrap32(frame * BLOCK_SIZE + mapEnd);
      usedBlocks := Wrap32(usedBlocks + size);
    }

    /** kstd_mem_pre_free_block. */
    method FreeBlock(block: uint32)
      requires Valid() && Pool().FrameOf(block) < 32 * maxBlocks
      modifies this`usedBlocks, words
      ensures Valid() && Pool() == Release(old(Pool()), block, 1)
    {
      var frame := Wrap32(block - mapEnd) / BLOCK_SIZE;
      MapUnset(frame);
      assert Range(frame, 1) == {frame};
      usedBlocks := Wrap32(usedBlocks - 1);
    }

    /** kstd_mem_pre_free_blocks. */
    method FreeBlocks(block: uint32, size: uint32)
      requires Valid() && (size > 0 ==> Pool().FrameOf(block) + size <= 32 * maxBlocks)
      modifies this`usedBlocks, words
      ensures Valid() && Pool() == Release(old(Pool()), block, size)
    {
      var frame := Wrap32(block - mapEnd) / BLOCK_SIZE;
      FreeRun(frame, size);
      usedBlocks := Wrap32(usedBlocks - size);
    }
  }

  /** One call of a run on the allocator itself. In a safe world every bit it touches is in the
      bitmap, and it does what the state machine does. */
  method Perform(a: FrameAllocator, c: Call, ghost live: set<int>) returns (addr: uint32)
    requires a.Valid() && World(a.Pool(), live).Safe() && Owed(World(a.Pool(), live), c)
    modifies a, a.words
    ensures a.Valid() && a.words == old(a.words)
    ensures a.Pool() == Step(World(old(a.Pool()), live), c).pool
    ensures c.AllocOne? || c.AllocMany? ==> addr == Grant(old(a.Pool()), Picked(old(a.Pool()), c), Asked(c)).1
  {
    addr := NULL;
    match c
    case Open(base, size) =>
      RangeInside(base / BLOCK_SIZE, FramesOf(size), a.maxBlocks);
      a.InitRegion(base, size);
    case Close(base, size) =>
      RangeInside(base / BLOCK_SIZE, FramesOf(size), a.maxBlocks);
      a.DeinitRegion(base, size);
    case AllocOne => addr := a.AllocBlock();
    case AllocMany(n) =>
      ManyStaysInBitmap(a.Pool(), n);
      addr := a.AllocBlocks(n);
    case FreeMany(block, n) =>
      RangeInside(a.Pool().FrameOf(block), n, a.maxBlocks);
      a.FreeBlocks(block, n);
  }

  lemma RangeInside(f: int, n: nat, max: nat)
    ensures Range(f, n) <= Range(0, max) && n > 0 ==> 0 <= f && f + n <= max
  {
    if n > 0 && Range(f, n) <= Range(0, max) {
      assert f in Range(f, n) && f + n - 1 in Range(f, n);
    }
  }

  /** Whole runs: from a safe world, calls that meet their duties and multi-frame requests that find
      their fronts free leave the allocator in the state machine's final, safe state. */
  method PerformAll(a: FrameAllocator, calls: seq<Call>, ghost live: set<int>)
    requires a.Valid() && World(a.Pool(), live).Safe()
    requires DutiesMet(World(a.Pool(), live), calls) && FrontsFree(World(a.Pool(), live), calls)
    modifies a, a.words
    ensures a.Valid() && a.Pool() == Run(World(old(a.Pool()), live), calls).pool
    ensures Run(World(old(a.Pool()), live), calls).Safe()
    decreases |calls|
  {
    RunsAreSafe(World(a.Pool(), live), calls);
    if calls != [] {
      ghost var next := Step(World(a.Pool(), live), calls[0]);
      StepSafeIff(World(a.Pool(), live), calls[0]);
      var _ := Perform(a, calls[0], live);
      assert World(a.Pool(), next.live) == next;
      PerformAll(a, calls[1..], next.live);
    }
  }

  lemma {:induction false} SearchBounds(free: set<int>, n: nat, b: nat, bits: int)
    ensures SearchFrom(free, n, b, bits) == -1 || b <= SearchFrom(free, n, b, bits) < bits
    decreases bits - b
  {
    if b < bits && !(b in free && Weight(free, b + 1) >= n) {
      SearchBounds(free, n, b + 1, bits);
    }
  }
}
