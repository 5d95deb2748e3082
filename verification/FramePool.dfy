/** The frame allocator of src/memory.c as a state machine on values: a set of free frames and a counter. */
module FramePool {
  import opened CTypes

  const BLOCK_SIZE := 4096
  const NULL: uint32 := 0

  /** `bits` is the number of bits of the bitmap, 32 for every managed frame. */
  datatype Pool = Pool(memSize: uint32, maxBlocks: uint32, mapEnd: uint32, used: uint32, free: set<int>) {
    function Bits(): int {
      32 * maxBlocks
    }

    /** The address handed out for a frame: 32-bit arithmetic. */
    function Addr(frame: int): uint32 {
      Wrap32(frame * BLOCK_SIZE + mapEnd)
    }

    /** The frame number recovered from an address. */
    function FrameOf(addr: uint32): int {
      Wrap32(addr - mapEnd) / BLOCK_SIZE
    }

    /** Bitmap and counter agree, and every bit past the managed frames is set. */
    ghost predicate Consistent() {
      && free <= Range(0, maxBlocks)
      && used + |free| == maxBlocks
    }

    /** The pool lies in the address space without wrapping, above address 0. */
    ghost predicate Placed() {
      && maxBlocks == memSize / BLOCK_SIZE
      && 0 < mapEnd
      && mapEnd + memSize <= 0x1_0000_0000
    }
  }

  // ---- the search -------------------------------------------------------------------------

  /** The running count of the nested search: a free bit adds every bit of its word from itself on. */
  function Weight(free: set<int>, b: int): nat {
    if b <= 0 then 0
    else Weight(free, b - 1) + if b - 1 in free then 32 - (b - 1) % 32 else 0
  }

  /** The first free bit from `b` on at which the running count reaches `n`, or -1. */
  function SearchFrom(free: set<int>, n: nat, b: nat, bits: int): int
    decreases bits - b
  {
    if b >= bits then -1
    else if b in free && Weight(free, b + 1) >= n then b
    else SearchFrom(free, n, b + 1, bits)
  }

  lemma {:induction false} WeightMonotone(free: set<int>, a: int, b: int)
    requires a <= b
    ensures Weight(free, a) <= Weight(free, b)
    decreases b - a
  {
    if a < b {
      WeightMonotone(free, a, b - 1);
    }
  }

  lemma {:induction false} WeightSkips(free: set<int>, a: int, b: int)
    requires 0 <= a <= b
    requires forall c :: a <= c < b ==> c !in free
    ensures Weight(free, a) == Weight(free, b)
    decreases b - a
  {
    if a < b {
      WeightSkips(free, a, b - 1);
    }
  }

  /** The search is pinned down by the running count alone: the start is free, the count first
      reaches `n` there, and it fails exactly when the total count stays below `n`. */
  lemma {:induction false} SearchExact(free: set<int>, n: nat, b: nat, bits: int, r: int)
    requires n > 0 && b <= bits
    requires Weight(free, b) < n
    ensures SearchFrom(free, n, b, bits) == r <==>
            if r == -1 then Weight(free, bits) < n
            else b <= r < bits && r in free && Weight(free, r) < n <= Weight(free, r + 1)
    decreases bits - b
  {
    if b < bits {
      if b in free && Weight(free, b + 1) >= n {
        WeightMonotone(free, b + 1, bits);
        if b < r {
          WeightMonotone(free, b + 1, r);
        }
      } else {
        assert Weight(free, b + 1) < n;
        SearchExact(free, n, b + 1, bits, r);
      }
    }
  }

  /** With n == 1 the same count describes kstd_mem_first_free: the least free bit, -1 when none is. */
  lemma {:induction false} SearchOneIsLeast(free: set<int>, b: nat, bits: int)
    requires forall c :: c in free ==> b <= c < bits
    ensures SearchFrom(free, 1, b, bits) == -1 <==> free == {}
    ensures free != {} ==> SearchFrom(free, 1, b, bits) in free
    ensures forall c :: c in free ==> SearchFrom(free, 1, b, bits) <= c
    decreases bits - b
  {
    if b >= bits {
      assert free == {};
    } else if b !in free {
      SearchOneIsLeast(free, b + 1, bits);
    }
  }

  // ---- the operations ---------------------------------------------------------------------

  function FramesOf(size: uint32): uint32 {
    size / BLOCK_SIZE + 1
  }

  function OpenRegion(p: Pool, base: uint32, size: uint32): Pool {
    p.(free := p.free + Range(base / BLOCK_SIZE, FramesOf(size)), used := Wrap32(p.used - FramesOf(size)))
  }

  function CloseRegion(p: Pool, base: uint32, size: uint32): Pool {
    p.(free := p.free - Range(base / BLOCK_SIZE, FramesOf(size)), used := Wrap32(p.used + FramesOf(size)))
  }

  /** Marks `n` frames from `f` used. */
  function Take(p: Pool, f: int, n: uint32): Pool {
    p.(free := p.free - Range(f, n), used := Wrap32(p.used + n))
  }

  function Release(p: Pool, addr: uint32, n: uint32): Pool {
    p.(free := p.free + Range(p.FrameOf(addr), n), used := Wrap32(p.used - n))
  }

  /** The frame kstd_mem_pre_alloc_block takes, -1 when it returns NULL. */
  function PickOne(p: Pool): int {
    if Wrap32(p.maxBlocks - p.used) <= 0 then -1
    else SearchFrom(p.free, 1, 0, p.Bits())
  }

  /** The first frame kstd_mem_pre_alloc_blocks takes, -1 when it returns NULL. */
  function PickMany(p: Pool, n: uint32): int {
    if Wrap32(p.maxBlocks - p.used) <= n || n == 0 then -1
    else SearchFrom(p.free, n, 0, p.Bits())
  }

  function Grant(p: Pool, f: int, n: uint32): (Pool, uint32) {
    if f == -1 then (p, NULL) else (Take(p, f, n), p.Addr(f))
  }

  // ---- what each operation keeps, and exactly when ------------------------------------------

  lemma UnionSize(a: set<int>, b: set<int>)
    ensures |a + b| == |a| + |b| - |a * b|
  {}

  lemma SubsetSize(a: set<int>, b: set<int>)
    requires a <= b
    ensures |a| <= |b|
    ensures |b - a| == |b| - |a|
  {}

  lemma DifferenceSize(a: set<int>, b: set<int>)
    ensures |a - b| == |a| - |a * b|
    ensures |a * b| <= |b|
    ensures |a * b| == |b| ==> b <= a
  {
    assert a == (a - b) + (a * b);
    SubsetSize(a * b, b);
    if |a * b| == |b| {
      assert b - (a * b) == {};
    }
  }

  /** The counter arithmetic, 32-bit wrap included. */
  lemma OpenedCount(used: uint32, n: uint32, free: nat, both: nat, max: nat)
    requires used + free == max && both <= n && free + n - both <= max
    ensures Wrap32(used - n) + (free + n - both) == max <==> both == 0
  {}

  lemma ClosedCount(used: uint32, n: uint32, free: nat, both: nat, max: uint32)
    requires used + free == max && both <= n && both <= free
    ensures Wrap32(used + n) + (free - both) == max <==> both == n
  {}

  /** Adding frames to the free set and subtracting them from the counter keeps the allocator
      consistent exactly when the frames are managed ones and none was already free. */
  lemma OpeningKeepsIff(p: Pool, f: int, n: uint32)
    requires p.Consistent()
    ensures p.(free := p.free + Range(f, n), used := Wrap32(p.used - n)).Consistent()
            <==> Range(f, n) <= Range(0, p.maxBlocks) && Range(f, n) !! p.free
  {
    var r, pool := Range(f, n), Range(0, p.maxBlocks);
    RangeSize(f, n);
    RangeSize(0, p.maxBlocks);
    if r <= pool {
      SubsetSize(p.free + r, pool);
      UnionSize(p.free, r);
      SubsetSize(p.free * r, r);
      OpenedCount(p.used, n, |p.free|, |p.free * r|, p.maxBlocks);
      assert |p.free * r| == 0 <==> r !! p.free;
    }
  }

  /** Dually, closing frames is sound exactly when every one of them was free. */
  lemma ClosingKeepsIff(p: Pool, f: int, n: uint32)
    requires p.Consistent()
    ensures p.(free := p.free - Range(f, n), used := Wrap32(p.used + n)).Consistent()
            <==> Range(f, n) <= p.free
  {
    var r := Range(f, n);
    RangeSize(f, n);
    DifferenceSize(p.free, r);
    SubsetSize(p.free * r, p.free);
    ClosedCount(p.used, n, |p.free|, |p.free * r|, p.maxBlocks);
    if r <= p.free {
      assert p.free * r == r;
    }
  }

  /** Opening a region whose frames are managed and not free, in numbers: size / 4096 + 1 frames from
      base / 4096 on become free, the counter loses as many, and the allocator stays consistent. */
  lemma OpenExact(p: Pool, base: uint32, size: uint32)
    requires p.Consistent()
    requires base / 4096 + size / 4096 + 1 <= p.maxBlocks
    requires Range(base / 4096, size / 4096 + 1) !! p.free
    ensures var q := OpenRegion(p, base, size);
            && q.Consistent() && q == p.(free := q.free, used := q.used)
            && q.free == p.free + Range(base / 4096, size / 4096 + 1)
            && q.used == p.used - (size / 4096 + 1)
  {
    var f, n := base / 4096, size / 4096 + 1;
    OpenFits(p, f, n);
    OpeningKeepsIff(p, f, n);
    hide Pool.Consistent, Range;
  }

  lemma OpenFits(p: Pool, f: nat, n: nat)
    requires p.Consistent() && f + n <= p.maxBlocks && Range(f, n) !! p.free
    ensures n <= p.used && Range(f, n) <= Range(0, p.maxBlocks)
  {
    RangeSize(f, n);
    RangeSize(0, p.maxBlocks);
    UnionSize(p.free, Range(f, n));
    SubsetSize(p.free + Range(f, n), Range(0, p.maxBlocks));
    assert p.free * Range(f, n) == {};
  }

  /** Closing a region of free frames, in numbers. */
  lemma CloseExact(p: Pool, base: uint32, size: uint32)
    requires p.Consistent()
    requires Range(base / 4096, size / 4096 + 1) <= p.free
    ensures var q := CloseRegion(p, base, size);
            && q.Consistent() && q == p.(free := q.free, used := q.used)
            && q.free == p.free - Range(base / 4096, size / 4096 + 1)
            && q.used == p.used + (size / 4096 + 1)
  {
    var f, n := base / 4096, size / 4096 + 1;
    CloseFits(p, f, n);
    ClosingKeepsIff(p, f, n);
    hide Pool.Consistent, Range;
  }

  lemma CloseFits(p: Pool, f: nat, n: nat)
    requires p.Consistent() && Range(f, n) <= p.free
    ensures p.used + n <= p.maxBlocks
  {
    RangeSize(f, n);
    SubsetSize(Range(f, n), p.free);
  }

  /** The strict guard of the multi-frame search bounds the run inside the bitmap words, so its
      bit writes stay in memory even where the run covers frames that are not free. */
  lemma ManyStaysInBitmap(p: Pool, n: uint32)
    requires p.Consistent()
    ensures PickMany(p, n) != -1 ==> PickMany(p, n) in p.free && PickMany(p, n) + n <= p.Bits()
  {
    if PickMany(p, n) != -1 {
      RangeSize(0, p.maxBlocks);
      SearchExact(p.free, n, 0, p.Bits(), PickMany(p, n));
      SubsetSize(p.free, Range(0, p.maxBlocks));
    }
  }

  lemma PickOneIsLeast(p: Pool)
    requires p.Consistent()
    ensures PickOne(p) == -1 <==> p.free == {}
    ensures p.free != {} ==> PickOne(p) in p.free && forall c :: c in p.free ==> PickOne(p) <= c
  {
    SearchOneIsLeast(p.free, 0, p.Bits());
    assert p.free == {} <==> |p.free| == 0;
  }

  /** Single-frame allocation is complete and lowest-first: NULL exactly when nothing is free (so
      the -1 fallback is dead), otherwise the least free frame, at a nonzero address from which
      kstd_mem_pre_free_block recovers the frame and undoes the allocation. */
  lemma OneIsComplete(p: Pool)
    requires p.Consistent() && p.Placed()
    ensures PickOne(p) == -1 <==> p.free == {}
    ensures p.free != {} ==> PickOne(p) in p.free && forall c :: c in p.free ==> PickOne(p) <= c
    ensures Grant(p, PickOne(p), 1).1 == NULL <==> p.free == {}
    ensures p.free != {} ==> var (q, addr) := Grant(p, PickOne(p), 1);
              q.Consistent() && q.FrameOf(addr) == PickOne(p) && Release(q, addr, 1) == p
  {
    PickOneIsLeast(p);
    if p.free != {} {
      AddressRoundTrip(p, PickOne(p));
      GrantThenRelease(p, PickOne(p), 1);
      ClosingKeepsIff(p, PickOne(p), 1);
    }
  }

  lemma AddressRoundTrip(p: Pool, f: int)
    requires p.Placed() && 0 <= f < p.maxBlocks
    ensures p.Addr(f) == p.mapEnd + BLOCK_SIZE * f
    ensures p.FrameOf(p.Addr(f)) == f
    ensures p.Addr(f) != NULL
  {}

  /** Freeing the frames just granted restores bitmap and counter exactly, provided they were free. */
  lemma GrantThenRelease(p: Pool, f: int, n: uint32)
    requires p.Placed() && 0 <= f < p.maxBlocks
    requires Range(f, n) <= p.free
    ensures Release(Take(p, f, n), p.Addr(f), n) == p
  {
    AddressRoundTrip(p, f);
    assert p.free - Range(f, n) + Range(f, n) == p.free;
  }

  // ---- safety over whole runs -------------------------------------------------------------

  /** One call of the allocator's interface. */
  datatype Call =
    | Open(base: uint32, size: uint32)
    | Close(base: uint32, size: uint32)
    | AllocOne
    | AllocMany(n: uint32)
    | FreeMany(addr: uint32, n: uint32)

  /** The pool with the frames callers hold. */
  datatype World = World(pool: Pool, live: set<int>) {
    ghost predicate Safe() {
      && pool.Consistent()
      && pool.Placed()
      && live <= Range(0, pool.maxBlocks)
      && live !! pool.free
    }
  }

  function Picked(p: Pool, c: Call): int {
    match c
    case AllocOne => PickOne(p)
    case AllocMany(n) => PickMany(p, n)
    case _ => -1
  }

  function Asked(c: Call): uint32 {
    match c
    case AllocOne => 1
    case AllocMany(n) => n
    case _ => 0
  }

  /** The frames a call gives to its caller. */
  function Given(p: Pool, c: Call): set<int> {
    if Picked(p, c) == -1 then {} else Range(Picked(p, c), Asked(c))
  }

  function Step(w: World, c: Call): World {
    match c
    case Open(base, size) => w.(pool := OpenRegion(w.pool, base, size))
    case Close(base, size) => w.(pool := CloseRegion(w.pool, base, size))
    case FreeMany(addr, n) => World(Release(w.pool, addr, n), w.live - Range(w.pool.FrameOf(addr), n))
    case _ => World(Grant(w.pool, Picked(w.pool, c), Asked(c)).0, w.live + Given(w.pool, c))
  }

  /** What callers owe: open only reserved managed frames, close only free ones, free only frames
      they hold. kstd_mem_pre_free_block is the case n == 1. */
  ghost predicate Owed(w: World, c: Call) {
    match c
    case Open(base, size) =>
      var r := Range(base / BLOCK_SIZE, FramesOf(size));
      r <= Range(0, w.pool.maxBlocks) && r !! w.pool.free && r !! w.live
    case Close(base, size) => Range(base / BLOCK_SIZE, FramesOf(size)) <= w.pool.free
    case FreeMany(addr, n) => Range(w.pool.FrameOf(addr), n) <= w.live
    case _ => true
  }

  /** What the multi-frame search needs of the bitmap, as it is written: whichever free bit its running
      count first reaches `n` at, the `n` frames from there on are free. Nothing is asked of the bitmap
      by a request that is refused for its size. */
  ghost predicate FrontFree(p: Pool, n: uint32) {
    || n == 0
    || |p.free| <= n
    || forall b :: 0 <= b && b in p.free && Weight(p.free, b) < n <= Weight(p.free, b + 1) ==> Range(b, n) <= p.free
  }

  lemma FrontFreeExact(p: Pool, n: uint32)
    requires p.Consistent()
    ensures FrontFree(p, n) <==> Given(p, AllocMany(n)) <= p.free
  {
    if n != 0 && n < |p.free| {
      var r := PickMany(p, n);
      SearchExact(p.free, n, 0, p.Bits(), r);
      forall b | 0 <= b && b in p.free && Weight(p.free, b) < n <= Weight(p.free, b + 1) ensures b == r {
        WeightMonotone(p.free, b + 1, p.Bits());
        SearchExact(p.free, n, 0, p.Bits(), b);
      }
    }
  }

  /** kstd_mem_pre_alloc_block never hands out a frame that is not free, and asks nothing of its
      caller for that; the multi-frame search as written does (see SearchOverlaps). */
  ghost predicate Granted(w: World, c: Call) {
    c.AllocMany? ==> FrontFree(w.pool, c.n)
  }

  lemma SingleAlwaysGranted(w: World)
    requires w.Safe()
    ensures Given(w.pool, AllocOne) <= w.pool.free && Given(w.pool, AllocOne) !! w.live
    ensures Step(w, AllocOne).Safe()
  {
    OneIsComplete(w.pool);
    AllocSafeIff(w, AllocOne);
  }

  lemma GrantSafeIff(w: World, f: int, n: uint32)
    requires w.Safe()
    ensures World(Take(w.pool, f, n), w.live + Range(f, n)).Safe() <==> Range(f, n) <= w.pool.free
    ensures Range(f, n) <= w.pool.free ==> Range(f, n) !! w.live
  {
    ClosingKeepsIff(w.pool, f, n);
  }

  lemma ReleaseSafe(w: World, f: int, n: uint32)
    requires w.Safe() && Range(f, n) <= w.live
    ensures World(w.pool.(free := w.pool.free + Range(f, n), used := Wrap32(w.pool.used - n)),
                  w.live - Range(f, n)).Safe()
  {
    OpeningKeepsIff(w.pool, f, n);
  }

  lemma OpenSafe(w: World, f: int, n: uint32)
    requires w.Safe() && Range(f, n) <= Range(0, w.pool.maxBlocks) && Range(f, n) !! w.pool.free && Range(f, n) !! w.live
    ensures w.(pool := w.pool.(free := w.pool.free + Range(f, n), used := Wrap32(w.pool.used - n))).Safe()
  {
    OpeningKeepsIff(w.pool, f, n);
  }

  lemma CloseSafe(w: World, f: int, n: uint32)
    requires w.Safe() && Range(f, n) <= w.pool.free
    ensures w.(pool := w.pool.(free := w.pool.free - Range(f, n), used := Wrap32(w.pool.used + n))).Safe()
  {
    ClosingKeepsIff(w.pool, f, n);
  }

  lemma AllocSafeIff(w: World, c: Call)
    requires w.Safe() && (c.AllocOne? || c.AllocMany?)
    ensures Step(w, c).Safe() <==> Given(w.pool, c) <= w.pool.free
    ensures Given(w.pool, c) <= w.pool.free ==> Given(w.pool, c) !! w.live
  {
    if Picked(w.pool, c) == -1 {
      assert Step(w, c) == w.(live := w.live + {});
    } else {
      GrantSafeIff(w, Picked(w.pool, c), Asked(c));
    }
  }

  /** A multi-frame request keeps a safe world safe exactly when its front is free. */
  lemma ManySafeIff(w: World, n: uint32)
    requires w.Safe()
    ensures Step(w, AllocMany(n)).Safe() <==> FrontFree(w.pool, n)
    ensures FrontFree(w.pool, n) ==>
              Given(w.pool, AllocMany(n)) <= w.pool.free && Given(w.pool, AllocMany(n)) !! w.live
  {
    AllocSafeIff(w, AllocMany(n));
    FrontFreeExact(w.pool, n);
  }

  /** One step that meets its duties is safe exactly when a multi-frame request finds its front free;
      every other call is safe outright. What a safe step hands out was free and held by nobody. */
  lemma StepSafeIff(w: World, c: Call)
    requires w.Safe() && Owed(w, c)
    ensures Step(w, c).Safe() <==> Granted(w, c)
    ensures Granted(w, c) ==> Given(w.pool, c) <= w.pool.free && Given(w.pool, c) !! w.live
  {
    hide World.Safe, Range, FrontFree, PickOne, PickMany;
    match c
    case AllocOne => SingleAlwaysGranted(w);
    case AllocMany(n) => ManySafeIff(w, n);
    case FreeMany(addr, n) => ReleaseSafe(w, w.pool.FrameOf(addr), n);
    case Open(base, size) => OpenSafe(w, base / BLOCK_SIZE, FramesOf(size));
    case Close(base, size) => CloseSafe(w, base / BLOCK_SIZE, FramesOf(size));
  }

  function Run(w: World, calls: seq<Call>): World
    decreases |calls|
  {
    if calls == [] then w else Run(Step(w, calls[0]), calls[1..])
  }

  /** Every call of a run meets its caller's duties when its turn comes. */
  ghost predicate DutiesMet(w: World, calls: seq<Call>)
    decreases |calls|
  {
    calls == [] || (Owed(w, calls[0]) && DutiesMet(Step(w, calls[0]), calls[1..]))
  }

  /** Every multi-frame request of a run finds its front free. */
  ghost predicate FrontsFree(w: World, calls: seq<Call>)
    decreases |calls|
  {
    calls == [] || (Granted(w, calls[0]) && FrontsFree(Step(w, calls[0]), calls[1..]))
  }

  ghost predicate StaysSafe(w: World, calls: seq<Call>)
    decreases |calls|
  {
    w.Safe() && (calls == [] || StaysSafe(Step(w, calls[0]), calls[1..]))
  }

  /** Nothing a run hands out was held when it was handed out. */
  ghost predicate NeverShared(w: World, calls: seq<Call>)
    decreases |calls|
  {
    calls == [] || (Given(w.pool, calls[0]) !! w.live && NeverShared(Step(w, calls[0]), calls[1..]))
  }

  /** A run whose callers do their duties stays safe from its first to its last step exactly when its
      multi-frame requests find their fronts free; then no frame is ever held twice. */
  lemma {:induction false} RunsAreSafe(w: World, calls: seq<Call>)
    requires w.Safe() && DutiesMet(w, calls)
    ensures StaysSafe(w, calls) <==> FrontsFree(w, calls)
    ensures FrontsFree(w, calls) ==> Run(w, calls).Safe() && NeverShared(w, calls)
    decreases |calls|
  {
    if calls != [] {
      StepSafeIff(w, calls[0]);
      if Granted(w, calls[0]) {
        RunsAreSafe(Step(w, calls[0]), calls[1..]);
      } else {
        assert !StaysSafe(Step(w, calls[0]), calls[1..]);
      }
    }
  }

  /** Without multi-frame requests the callers' duties are all a run needs: opening, closing,
      kstd_mem_pre_alloc_block and freeing are safe however they are interleaved. */
  lemma {:induction false} SingleRunsAreSafe(w: World, calls: seq<Call>)
    requires w.Safe() && DutiesMet(w, calls)
    requires forall i :: 0 <= i < |calls| ==> !calls[i].AllocMany?
    ensures StaysSafe(w, calls) && Run(w, calls).Safe() && NeverShared(w, calls)
    decreases |calls|
  {
    if calls != [] {
      StepSafeIff(w, calls[0]);
      SingleRunsAreSafe(Step(w, calls[0]), calls[1..]);
    }
  }

  /** A call may open frame `f`. */
  predicate Opens(c: Call, f: int) {
    c.Open? && c.base / 4096 <= f <= c.base / 4096 + c.size / 4096
  }

  /** No call of the run hands frame `f` out. */
  ghost predicate NeverGiven(w: World, calls: seq<Call>, f: int)
    decreases |calls|
  {
    calls == [] || (f !in Given(w.pool, calls[0]) && NeverGiven(Step(w, calls[0]), calls[1..], f))
  }

  lemma ClosedStep(w: World, c: Call, f: int)
    requires w.Safe() && Owed(w, c) && Granted(w, c)
    requires f !in w.pool.free && f !in w.live && !Opens(c, f)
    ensures f !in Given(w.pool, c)
    ensures f !in Step(w, c).pool.free && f !in Step(w, c).live
  {
    StepSafeIff(w, c);
  }

  /** A frame that is neither free nor held, as after closing its region, is not handed out by any
      safe run until a call opens it again. */
  lemma {:induction false} ClosedStaysClosed(w: World, calls: seq<Call>, f: int)
    requires w.Safe() && DutiesMet(w, calls) && FrontsFree(w, calls)
    requires f !in w.pool.free && f !in w.live
    requires forall i :: 0 <= i < |calls| ==> !Opens(calls[i], f)
    ensures NeverGiven(w, calls, f)
    ensures f !in Run(w, calls).pool.free && f !in Run(w, calls).live
    decreases |calls|
  {
    if calls != [] {
      StepSafeIff(w, calls[0]);
      ClosedStep(w, calls[0], f);
      ClosedStaysClosed(Step(w, calls[0]), calls[1..], f);
    }
  }

  /** So a closed region stays closed: after a close, none of its frames comes back before it is opened. */
  lemma CloseThenRun(w: World, base: uint32, size: uint32, calls: seq<Call>, f: int)
    requires w.Safe() && Range(base / 4096, size / 4096 + 1) <= w.pool.free
    requires base / 4096 <= f <= base / 4096 + size / 4096
    requires DutiesMet(Step(w, Close(base, size)), calls) && FrontsFree(Step(w, Close(base, size)), calls)
    requires forall i :: 0 <= i < |calls| ==> !Opens(calls[i], f)
    ensures NeverGiven(Step(w, Close(base, size)), calls, f)
  {
    StepSafeIff(w, Close(base, size));
    CloseExact(w.pool, base, size);
    assert f in Range(base / 4096, size / 4096 + 1);
    ClosedStaysClosed(Step(w, Close(base, size)), calls, f);
  }

  /** The state kstd_mem_pre_init leaves. */
  function Fresh(bitmap: uint32, memSize: uint32): Pool {
    var max := memSize / BLOCK_SIZE;
    Pool(memSize, max, Wrap32(bitmap + 4 * max), max, {})
  }

  /** The run of any system starts safe, when its memory lies behind the bitmap without wrapping. */
  lemma FreshIsSafe(bitmap: uint32, memSize: uint32)
    requires 0 < bitmap + 4 * (memSize / BLOCK_SIZE) && bitmap + 4 * (memSize / BLOCK_SIZE) + memSize <= 0x1_0000_0000
    ensures World(Fresh(bitmap, memSize), {}).Safe()
  {}

  /** The frames lie right behind the bitmap of one word each, and there are as many as fit the memory. */
  lemma FreshLayout(bitmap: uint32, memSize: uint32)
    requires bitmap + 4 * (memSize / 4096) + memSize <= 0x1_0000_0000
    ensures var p := Fresh(bitmap, memSize);
            && p.memSize == memSize && p.maxBlocks * 4096 <= memSize < (p.maxBlocks + 1) * 4096
            && p.used == p.maxBlocks && p.free == {}
            && forall f :: 0 <= f < p.maxBlocks ==> p.Addr(f) == bitmap + 4 * p.maxBlocks + 4096 * f
  {}

  /** In a safe world two held frames are disjoint 4096-byte ranges inside the managed memory, and
      no bit past the managed frames is clear. */
  lemma LiveFramesDisjoint(w: World, f: int, g: int)
    requires w.Safe() && f in w.live && g in w.live && f != g
    ensures w.pool.mapEnd <= w.pool.Addr(f) && w.pool.Addr(f) + BLOCK_SIZE <= w.pool.mapEnd + w.pool.memSize
    ensures w.pool.Addr(f) + BLOCK_SIZE <= w.pool.Addr(g) || w.pool.Addr(g) + BLOCK_SIZE <= w.pool.Addr(f)
    ensures forall b :: w.pool.maxBlocks <= b < w.pool.Bits() ==> b !in w.pool.free
  {}

  /** A world of five frames. */
  function Five(used: uint32, free: set<int>, live: set<int>): World {
    World(Pool(5 * BLOCK_SIZE, 5, 0x10_0000, used, free), live)
  }

  /** Calls that lead to an overlap: five frames opened, two of them taken, the first given back. */
  const OVERLAP: seq<Call> := [Open(0, 4 * BLOCK_SIZE), AllocOne, AllocOne, FreeMany(0x10_0000, 1)]

  /** The search as written can pick a run that is not free. From the start, with five frames, the
      calls above meet their duties and leave frames 0, 2, 3 and 4 free and frame 1 held; then a request
      for two frames gets frames 0 and 1. */
  lemma SearchOverlaps()
    ensures var w0 := World(Fresh(0x10_0000 - 20, 5 * BLOCK_SIZE), {});
            var w := Run(w0, OVERLAP);
            && w0.Safe() && DutiesMet(w0, OVERLAP) && w.Safe()
            && w.pool.free == {0, 2, 3, 4} && w.live == {1}
            && Given(w.pool, AllocMany(2)) == {0, 1} && !Step(w, AllocMany(2)).Safe()
  {
    FreshIsSafe(0x10_0000 - 20, 5 * BLOCK_SIZE);
    assert World(Fresh(0x10_0000 - 20, 5 * BLOCK_SIZE), {}) == Five(5, {}, {});
    OpensFive();
    TakesFirst();
    TakesSecond();
    GivesFirst();
    hide World.Safe, Owed, Step, Given;
    FourCalls(Five(5, {}, {}), Five(0, {0, 1, 2, 3, 4}, {}), Five(1, {1, 2, 3, 4}, {0}), Five(2, {2, 3, 4}, {0, 1}),
              Five(1, {0, 2, 3, 4}, {1}), OVERLAP);
    TakesTwo(Five(1, {0, 2, 3, 4}, {1}));
  }

  lemma OpensFive()
    requires Five(5, {}, {}).Safe()
    ensures Owed(Five(5, {}, {}), Open(0, 4 * BLOCK_SIZE))
    ensures Step(Five(5, {}, {}), Open(0, 4 * BLOCK_SIZE)) == Five(0, {0, 1, 2, 3, 4}, {})
    ensures Five(0, {0, 1, 2, 3, 4}, {}).Safe()
  {
    assert Range(0, 5) == {0, 1, 2, 3, 4};
    StepSafeIff(Five(5, {}, {}), Open(0, 4 * BLOCK_SIZE));
  }

  lemma TakesFirst()
    requires Five(0, {0, 1, 2, 3, 4}, {}).Safe()
    ensures Step(Five(0, {0, 1, 2, 3, 4}, {}), AllocOne) == Five(1, {1, 2, 3, 4}, {0})
    ensures Five(1, {1, 2, 3, 4}, {0}).Safe()
  {
    TakesLeast(Five(0, {0, 1, 2, 3, 4}, {}), 0);
    assert {0, 1, 2, 3, 4} - {0} == {1, 2, 3, 4};
  }

  lemma TakesSecond()
    requires Five(1, {1, 2, 3, 4}, {0}).Safe()
    ensures Step(Five(1, {1, 2, 3, 4}, {0}), AllocOne) == Five(2, {2, 3, 4}, {0, 1})
    ensures Five(2, {2, 3, 4}, {0, 1}).Safe()
  {
    TakesLeast(Five(1, {1, 2, 3, 4}, {0}), 1);
    assert {1, 2, 3, 4} - {1} == {2, 3, 4} && {0} + {1} == {0, 1};
  }

  lemma GivesFirst()
    requires Five(2, {2, 3, 4}, {0, 1}).Safe()
    ensures Owed(Five(2, {2, 3, 4}, {0, 1}), FreeMany(0x10_0000, 1))
    ensures Step(Five(2, {2, 3, 4}, {0, 1}), FreeMany(0x10_0000, 1)) == Five(1, {0, 2, 3, 4}, {1})
    ensures Five(1, {0, 2, 3, 4}, {1}).Safe()
  {
    var w := Five(2, {2, 3, 4}, {0, 1});
    assert w.pool.FrameOf(0x10_0000) == 0 && Range(0, 1) == {0};
    assert {2, 3, 4} + {0} == {0, 2, 3, 4} && {0, 1} - {0} == {1};
    StepSafeIff(w, FreeMany(0x10_0000, 1));
  }

  lemma TakesLeast(w: World, f: nat)
    requires w.Safe() && f in w.pool.free && forall c :: c in w.pool.free ==> f <= c
    ensures Step(w, AllocOne).Safe()
    ensures Step(w, AllocOne)
            == World(w.pool.(free := w.pool.free - {f}, used := Wrap32(w.pool.used + 1)), w.live + {f})
  {
    PickOneIsLeast(w.pool);
    SingleAlwaysGranted(w);
    assert Range(f, 1) == {f};
  }

  lemma TakesTwo(w: World)
    requires w.Safe() && w.pool.free == {0, 2, 3, 4}
    ensures Given(w.pool, AllocMany(2)) == {0, 1} && !Step(w, AllocMany(2)).Safe()
  {
    assert |w.pool.free| == 4;
    assert Weight(w.pool.free, 1) == 32;
    SearchExact(w.pool.free, 2, 0, w.pool.Bits(), 0);
    assert Range(0, 2) == {0, 1} && 1 !in w.pool.free;
    AllocSafeIff(w, AllocMany(2));
  }

  lemma FourCalls(w0: World, w1: World, w2: World, w3: World, w4: World, calls: seq<Call>)
    requires |calls| == 4
    requires Owed(w0, calls[0]) && Step(w0, calls[0]) == w1
    requires Owed(w1, calls[1]) && Step(w1, calls[1]) == w2
    requires Owed(w2, calls[2]) && Step(w2, calls[2]) == w3
    requires Owed(w3, calls[3]) && Step(w3, calls[3]) == w4
    ensures DutiesMet(w0, calls) && Run(w0, calls) == w4
  {
    OneCall(w3, calls[3..]);
    OneCall(w2, calls[2..]);
    OneCall(w1, calls[1..]);
    OneCall(w0, calls);
    assert calls[1..][1..] == calls[2..] && calls[2..][1..] == calls[3..] && calls[3..][1..] == [];
  }

  lemma OneCall(w: World, calls: seq<Call>)
    requires calls != []
    ensures DutiesMet(w, calls) <==> Owed(w, calls[0]) && DutiesMet(Step(w, calls[0]), calls[1..])
    ensures Run(w, calls) == Run(Step(w, calls[0]), calls[1..])
  {}

  // ---- bump mode ----------------------------------------------------------------------------

  /** From one free interval the search returns its first frame exactly when the request fits the
      rest of that frame's bitmap word. */
  lemma BumpSearch(lo: nat, hi: int, n: nat, bits: int)
    requires lo < hi <= bits && n > 0
    ensures SearchFrom(Range(lo, hi - lo), n, 0, bits) == lo <==> lo % 32 + n <= 32
  {
    var free := Range(lo, hi - lo);
    WeightSkips(free, 0, lo);
    SearchExact(free, n, 0, bits, lo);
  }

  ghost predicate Interval(p: Pool, lo: nat, hi: int) {
    && lo <= hi <= p.maxBlocks
    && p.free == Range(lo, hi - lo)
  }

  datatype Chunk = Chunk(first: int, count: nat)

  function Next(p: Pool, c: Call): Pool {
    Grant(p, Picked(p, c), Asked(c)).0
  }

  function Handed(p: Pool, c: Call): seq<Chunk> {
    if Picked(p, c) == -1 then [] else [Chunk(Picked(p, c), Asked(c))]
  }

  /** The runs handed out by successive requests. */
  function Grants(p: Pool, calls: seq<Call>): seq<Chunk>
    decreases |calls|
  {
    if calls == [] then [] else Handed(p, calls[0]) + Grants(Next(p, calls[0]), calls[1..])
  }

  function After(p: Pool, calls: seq<Call>): Pool
    decreases |calls|
  {
    if calls == [] then p else After(Next(p, calls[0]), calls[1..])
  }

  // The specification bump mode refines: two numbers, no bitmap.

  predicate Refused(free: int, c: Call) {
    free <= (if c.AllocMany? then c.n else 0) || Asked(c) == 0
  }

  function BumpTo(lo: nat, hi: int, c: Call): nat {
    if Refused(hi - lo, c) then lo else lo + Asked(c)
  }

  function BumpChunk(lo: nat, hi: int, c: Call): seq<Chunk> {
    if Refused(hi - lo, c) then [] else [Chunk(lo, Asked(c))]
  }

  function Bump(lo: nat, hi: int, calls: seq<Call>): seq<Chunk>
    decreases |calls|
  {
    if calls == [] then [] else BumpChunk(lo, hi, calls[0]) + Bump(BumpTo(lo, hi, calls[0]), hi, calls[1..])
  }

  function BumpEnd(lo: nat, hi: int, calls: seq<Call>): nat
    decreases |calls|
  {
    if calls == [] then lo else BumpEnd(BumpTo(lo, hi, calls[0]), hi, calls[1..])
  }

  /** A request fits the rest of the bitmap word that the front of the interval is in. */
  predicate FitsWord(lo: nat, c: Call) {
    (c.AllocOne? || c.AllocMany?) && lo % 32 + Asked(c) <= 32
  }

  predicate RunFits(lo: nat, hi: int, calls: seq<Call>)
    decreases |calls|
  {
    calls == [] || (FitsWord(lo, calls[0]) && RunFits(BumpTo(lo, hi, calls[0]), hi, calls[1..]))
  }

  /** The bump pointer's chunks lie one after the other, so no two overlap. */
  lemma {:induction false} BumpIsConsecutive(lo: nat, hi: int, calls: seq<Call>, i: nat, j: nat)
    requires i < j < |Bump(lo, hi, calls)|
    ensures lo <= Bump(lo, hi, calls)[i].first
    ensures Bump(lo, hi, calls)[i].first + Bump(lo, hi, calls)[i].count <= Bump(lo, hi, calls)[j].first
    decreases |calls|
  {
    var lo', k := BumpTo(lo, hi, calls[0]), |BumpChunk(lo, hi, calls[0])|;
    if i >= k {
      BumpIsConsecutive(lo', hi, calls[1..], i - k, j - k);
    } else if j >= k {
      BumpStartsAbove(lo', hi, calls[1..], j - k);
    }
  }

  lemma {:induction false} BumpStartsAbove(lo: nat, hi: int, calls: seq<Call>, j: nat)
    requires j < |Bump(lo, hi, calls)|
    ensures lo <= Bump(lo, hi, calls)[j].first
    decreases |calls|
  {
    var k := |BumpChunk(lo, hi, calls[0])|;
    if j >= k {
      BumpStartsAbove(BumpTo(lo, hi, calls[0]), hi, calls[1..], j - k);
    }
  }

  ghost predicate BumpState(p: Pool, lo: nat, hi: int) {
    p.Consistent() && p.Placed() && Interval(p, lo, hi)
  }

  lemma BumpPick(p: Pool, lo: nat, hi: int, c: Call)
    requires BumpState(p, lo, hi) && FitsWord(lo, c)
    ensures Picked(p, c) == if Refused(hi - lo, c) then -1 else lo
  {
    RangeSize(lo, hi - lo);
    if Asked(c) > 0 && lo < hi {
      BumpSearch(lo, hi, Asked(c), p.Bits());
      BumpSearch(lo, hi, 1, p.Bits());
    }
  }

  lemma BumpTake(p: Pool, lo: nat, hi: int, n: uint32)
    requires BumpState(p, lo, hi) && lo < hi && lo + n <= hi
    ensures p.Addr(lo) == p.mapEnd + BLOCK_SIZE * lo
    ensures BumpState(Take(p, lo, n), lo + n, hi)
    ensures Release(Take(p, lo, n), p.Addr(lo), n) == p
  {
    FrontTaken(p, lo, hi, n);
    hide Release, Range, Pool.Addr, Interval;
    AddressRoundTrip(p, lo);
    GrantThenRelease(p, lo, n);
    ClosingKeepsIff(p, lo, n);
  }

  lemma FrontTaken(p: Pool, lo: nat, hi: int, n: uint32)
    requires Interval(p, lo, hi) && lo + n <= hi
    ensures Range(lo, n) <= p.free && Interval(Take(p, lo, n), lo + n, hi)
  {
    assert p.free - Range(lo, n) == Range(lo + n, hi - lo - n);
  }

  /** One request that fits the word does what the bump pointer does, and freeing what it took
      restores bitmap and counter exactly. */
  lemma BumpStep(p: Pool, lo: nat, hi: int, c: Call)
    requires BumpState(p, lo, hi) && FitsWord(lo, c)
    ensures Handed(p, c) == BumpChunk(lo, hi, c)
    ensures BumpState(Next(p, c), BumpTo(lo, hi, c), hi)
    ensures Refused(hi - lo, c) ==> Next(p, c) == p
    ensures !Refused(hi - lo, c) ==>
              var addr := Grant(p, Picked(p, c), Asked(c)).1;
              addr == p.mapEnd + BLOCK_SIZE * lo && Release(Next(p, c), addr, Asked(c)) == p
  {
    hide BumpState, Grant, Take, Release, Picked;
    BumpPick(p, lo, hi, c);
    if Refused(hi - lo, c) {
      GrantNothing(p, c);
    } else {
      GrantAt(p, c, lo);
      BumpTake(p, lo, hi, Asked(c));
    }
  }

  lemma GrantNothing(p: Pool, c: Call)
    requires Picked(p, c) == -1
    ensures Next(p, c) == p && Handed(p, c) == []
  {}

  lemma GrantAt(p: Pool, c: Call, f: nat)
    requires Picked(p, c) == f
    ensures Next(p, c) == Take(p, f, Asked(c)) && Handed(p, c) == [Chunk(f, Asked(c))]
    ensures Grant(p, Picked(p, c), Asked(c)).1 == p.Addr(f)
  {}

  /** Bump mode starts with the first region opened. */
  lemma OpenedRegionIsBump(p: Pool, base: uint32, size: uint32)
    requires p.Consistent() && p.Placed() && p.free == {}
    requires base / BLOCK_SIZE + FramesOf(size) <= p.maxBlocks
    ensures BumpState(OpenRegion(p, base, size), base / BLOCK_SIZE, base / BLOCK_SIZE + FramesOf(size))
  {
    var r := Range(base / BLOCK_SIZE, FramesOf(size));
    assert p.free + r == r;
    OpeningKeepsIff(p, base / BLOCK_SIZE, FramesOf(size));
  }

  /** A whole run whose requests fit their words is a bump pointer: the same grants in the same
      order, and what is free stays the one interval above the pointer. */
  lemma {:induction false} BumpRunsRefine(p: Pool, lo: nat, hi: int, calls: seq<Call>)
    requires BumpState(p, lo, hi) && RunFits(lo, hi, calls)
    ensures Grants(p, calls) == Bump(lo, hi, calls)
    ensures BumpState(After(p, calls), BumpEnd(lo, hi, calls), hi)
    decreases |calls|
  {
    if calls != [] {
      BumpStep(p, lo, hi, calls[0]);
      BumpRunsRefine(Next(p, calls[0]), BumpTo(lo, hi, calls[0]), hi, calls[1..]);
    }
  }
}
