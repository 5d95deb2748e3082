/** The kernel heap of src/memory.c on values: a bump `brk` under a first-fit list of blocks. */
module HeapSpec {
  import opened CTypes

  const HEADER := 16   // sizeof(MEMORY_BLOCK): 8 bytes of `meta`, which is not packed itself, and two pointers
  const WORD_SIZE := 4   // sizeof(void *)
  const NULL: uint32 := 0

  datatype Block = Block(size: uint32, isFree: bool, data: uint32)

  /** The pool brk bumps through. */
  datatype Arena = Arena(start: uint32, total: uint32, used: uint32) {
    /** A pool below 2^31 bytes that does not wrap the address space. */
    ghost predicate Placed() {
      && total < 0x8000_0000
      && start + total + WORD_SIZE <= 0x1_0000_0000
      && used < total + WORD_SIZE
    }
  }

  datatype Heap = Heap(arena: Arena, blocks: seq<Block>)

  /** A faulting malloc wrote through the null header pointer a refused brk left. */
  datatype Outcome = Returned(addr: uint32) | Faulted

  // ---- operations -------------------------------------------------------------------------

  predicate Refuses(m: Arena, size: sint32) {
    size <= 0 || AsSigned(Wrap32(m.total - m.used)) <= size
  }

  /** kstd_mem_brk: the reserved chunk's top end is what it returns. */
  function Brk(m: Arena, size: sint32): (Arena, uint32) {
    if Refuses(m, size) then (m, NULL)
    else (m.(used := Wrap32(m.used + size + WORD_SIZE)), Wrap32(m.start + m.used + size + WORD_SIZE))
  }

  function FirstFit(blocks: seq<Block>, size: sint32, i: nat): nat
    requires i <= |blocks|
    ensures i <= FirstFit(blocks, size, i) <= |blocks|
    decreases |blocks| - i
  {
    if i == |blocks| || (blocks[i].isFree && AsSigned(blocks[i].size) >= size) then i
    else FirstFit(blocks, size, i + 1)
  }

  /** The two reservations of a new block, header and data; without a header there is no data. */
  function Reserve(m: Arena, size: sint32): (Arena, uint32, uint32) {
    var (m1, header) := Brk(m, HEADER);
    if header == NULL then (m1, NULL, NULL)
    else
      var (m2, data) := Brk(m1, size);
      (m2, header, data)
  }

  /** kstd_mem_new_block, and the head's creation: one block more at the end; the heap and whether
      the header was there to be written. */
  function NewBlock(h: Heap, size: sint32): (Heap, bool) {
    var (m, header, data) := Reserve(h.arena, size);
    if header == NULL then (Heap(m, h.blocks), false)
    else (Heap(m, h.blocks + [Block(AsUnsigned(size), false, data)]), true)
  }

  /** A malloc that grows the list. Behind the head it reserves the data a second time. */
  function Append(h: Heap, size: sint32): (Heap, Outcome) {
    var (h1, written) := NewBlock(h, size);
    var n := |h.blocks|;
    if !written then (h1, Faulted)
    else if n == 0 then (h1, Returned(h1.blocks[n].data))
    else
      var (m, data) := Brk(h1.arena, size);
      (Heap(m, h1.blocks[n := Block(AsUnsigned(size), false, data)]), Returned(data))
  }

  function Malloc(h: Heap, size: sint32): (Heap, Outcome) {
    if size <= 0 then (h, Returned(NULL))
    else
      var i := FirstFit(h.blocks, size, 0);
      if i == |h.blocks| then Append(h, size)
      else (h.(blocks := h.blocks[i := h.blocks[i].(isFree := false)]), Returned(h.blocks[i].data))
  }

  function Position(blocks: seq<Block>, addr: uint32, i: nat): nat
    requires i <= |blocks|
    ensures i <= Position(blocks, addr, i) <= |blocks|
    decreases |blocks| - i
  {
    if i == |blocks| || blocks[i].data == addr then i else Position(blocks, addr, i + 1)
  }

  function Free(h: Heap, addr: uint32): Heap {
    var i := Position(h.blocks, addr, 0);
    if i == |h.blocks| then h else h.(blocks := h.blocks[i := h.blocks[i].(isFree := true)])
  }

  // ---- brk ----------------------------------------------------------------------------------

  /** One brk: it refuses exactly when the request does not leave a spare byte of the total, and
      otherwise reserves the next `size + WORD_SIZE` bytes and returns their upper end. */
  lemma BrkExact(m: Arena, size: sint32)
    requires m.Placed()
    ensures Brk(m, size).0.Placed()
    ensures Refuses(m, size) <==> size <= 0 || m.total <= m.used + size
    ensures Refuses(m, size) ==> Brk(m, size) == (m, NULL)
    ensures !Refuses(m, size) ==>
              Brk(m, size) == (m.(used := m.used + size + WORD_SIZE), m.start + m.used + size + WORD_SIZE)
  {}

  /** A chunk of a run of brk calls: its bounds, and what was asked. */
  datatype Chunk = Chunk(low: int, high: int, size: int)

  function BrkRun(m: Arena, sizes: seq<sint32>): Arena
    decreases |sizes|
  {
    if sizes == [] then m else BrkRun(Brk(m, sizes[0]).0, sizes[1..])
  }

  /** The chunks reserved, each from the pointers returned. */
  function Reserved(m: Arena, sizes: seq<sint32>): seq<Chunk>
    decreases |sizes|
  {
    if sizes == [] then []
    else
      var (m1, p) := Brk(m, sizes[0]);
      (if p == NULL then [] else [Chunk(p - sizes[0] - WORD_SIZE, p, sizes[0])]) + Reserved(m1, sizes[1..])
  }

  /** Over every run of brk the use exceeds the total by at most WORD_SIZE - 1. */
  lemma {:induction false} BrkRunBounded(m: Arena, sizes: seq<sint32>)
    requires m.Placed()
    ensures BrkRun(m, sizes).Placed() && m.used <= BrkRun(m, sizes).used < m.total + WORD_SIZE
    decreases |sizes|
  {
    if sizes != [] {
      BrkExact(m, sizes[0]);
      BrkRunBounded(Brk(m, sizes[0]).0, sizes[1..]);
    }
  }

  /** Once the total is reached every later brk refuses and nothing is reserved. */
  lemma {:induction false} BrkExhausted(m: Arena, sizes: seq<sint32>)
    requires m.Placed() && m.used >= m.total
    ensures BrkRun(m, sizes) == m && Reserved(m, sizes) == []
    decreases |sizes|
  {
    if sizes != [] {
      BrkExact(m, sizes[0]);
      BrkExhausted(m, sizes[1..]);
    }
  }

  lemma {:induction false} ReservedAbove(m: Arena, sizes: seq<sint32>, j: nat)
    requires m.Placed() && j < |Reserved(m, sizes)|
    ensures m.start + m.used <= Reserved(m, sizes)[j].low
    ensures Reserved(m, sizes)[j].low + Reserved(m, sizes)[j].size + WORD_SIZE == Reserved(m, sizes)[j].high
    ensures Reserved(m, sizes)[j].high < m.start + m.total + WORD_SIZE
    decreases |sizes|
  {
    BrkExact(m, sizes[0]);
    var (m1, p) := Brk(m, sizes[0]);
    var k := if p == NULL then 0 else 1;
    if j >= k {
      ReservedAbove(m1, sizes[1..], j - k);
    }
  }

  /** Over every run of brk the reserved chunks are disjoint, in the order of the calls, inside the
      pool. */
  lemma {:induction false} ReservedDisjoint(m: Arena, sizes: seq<sint32>, i: nat, j: nat)
    requires m.Placed() && i < j < |Reserved(m, sizes)|
    ensures m.start <= Reserved(m, sizes)[i].low < Reserved(m, sizes)[i].high <= Reserved(m, sizes)[j].low
    ensures Reserved(m, sizes)[j].high < m.start + m.total + WORD_SIZE
    decreases |sizes|
  {
    BrkExact(m, sizes[0]);
    var (m1, p) := Brk(m, sizes[0]);
    var k := if p == NULL then 0 else 1;
    ReservedAbove(m, sizes, j);
    if i >= k {
      ReservedDisjoint(m1, sizes[1..], i - k, j - k);
    } else {
      ReservedAbove(m1, sizes[1..], j - k);
    }
  }

  /** What a list of chunks takes up. */
  function Span(chunks: seq<Chunk>): int {
    if chunks == [] then 0
    else Span(chunks[..|chunks| - 1]) + chunks[|chunks| - 1].size + WORD_SIZE
  }

  lemma {:induction false} ReservedFirst(m: Arena, sizes: seq<sint32>)
    requires m.Placed() && Reserved(m, sizes) != []
    ensures Reserved(m, sizes)[0].low == m.start + m.used
    decreases |sizes|
  {
    BrkExact(m, sizes[0]);
    if Brk(m, sizes[0]).1 == NULL {
      ReservedFirst(m, sizes[1..]);
    }
  }

  /** Each chunk begins where the one before it ends. */
  lemma {:induction false} ReservedAdjacent(m: Arena, sizes: seq<sint32>, j: nat)
    requires m.Placed() && j + 1 < |Reserved(m, sizes)|
    ensures Reserved(m, sizes)[j + 1].low == Reserved(m, sizes)[j].high
    decreases |sizes|
  {
    BrkExact(m, sizes[0]);
    var (m1, p) := Brk(m, sizes[0]);
    var k := if p == NULL then 0 else 1;
    if j >= k {
      ReservedAdjacent(m1, sizes[1..], j - k);
    } else {
      ReservedFirst(m1, sizes[1..]);
    }
  }

  /** Any two chunks of a run. What brk returns is a chunk's upper end, so a caller who counts its
      bytes from there stays below a later caller's pointer exactly when it asked for no more than all
      chunks after its own, up to that one, take up. */
  lemma {:induction false} TopEndsOverlapIff(m: Arena, sizes: seq<sint32>, i: nat, j: nat)
    requires m.Placed() && i < j < |Reserved(m, sizes)|
    ensures var cs := Reserved(m, sizes);
            && cs[j].high == cs[i].high + Span(cs[i + 1..j + 1])
            && (cs[i].high + cs[i].size <= cs[j].high <==> cs[i].size <= Span(cs[i + 1..j + 1]))
    decreases j - i
  {
    var cs := Reserved(m, sizes);
    ReservedAbove(m, sizes, j);
    ReservedAdjacent(m, sizes, j - 1);
    assert cs[i + 1..j + 1][..j - i - 1] == cs[i + 1..j];
    if i + 1 < j {
      TopEndsOverlapIff(m, sizes, i, j - 1);
    } else {
      assert cs[i + 1..j] == [];
    }
  }

  /** So 100 bytes and then 8: the first caller's bytes reach past the second's pointer. */
  lemma TopEndsOverlap()
    ensures var cs := Reserved(Arena(0x10_0000, 4096, 0), [100, 8]);
            |cs| == 2 && cs[0].high < cs[1].high < cs[0].high + cs[0].size
  {
    var m := Arena(0x10_0000, 4096, 0);
    var m1 := Brk(m, 100).0;
    assert Reserved(m1, [8]) == [Chunk(m.start + 104, m.start + 116, 8)];
    assert [100, 8][1..] == [8];
  }

  /** An arena from which nothing can be had. */
  ghost predicate Starved(m: Arena) {
    forall size: sint32 :: Refuses(m, size)
  }

  lemma {:induction false} StarvedForever(m: Arena, sizes: seq<sint32>)
    requires Starved(m)
    ensures BrkRun(m, sizes) == m && Reserved(m, sizes) == []
    decreases |sizes|
  {
    if sizes != [] {
      assert Refuses(m, sizes[0]);
      StarvedForever(m, sizes[1..]);
    }
  }

  /** kstd_mem_init sets the total to START - END. Every later brk is refused, over every run,
      exactly when that difference, modulo 2^32, is not at least 2 and below 2^31: as for every pool whose end
      lies above its start by no more than 2^31. */
  lemma InitStarvesIff(start: uint32, end: uint32)
    ensures var m := Arena(start, Wrap32(start - end), 0);
            && (Starved(m) <==> !(2 <= m.total < 0x8000_0000))
            && (Starved(m) <==> forall sizes :: BrkRun(m, sizes) == m)
            && (Starved(m) ==> forall sizes :: Reserved(m, sizes) == [])
            && (start <= end <= start + 0x8000_0000 ==> Starved(m))
  {
    var m := Arena(start, Wrap32(start - end), 0);
    if Starved(m) {
      assert Refuses(m, 1);
      forall sizes ensures BrkRun(m, sizes) == m && Reserved(m, sizes) == [] {
        StarvedForever(m, sizes);
      }
    } else {
      assert !Refuses(m, 1);
      var once: seq<sint32> := [1];
      assert BrkRun(m, once) == BrkRun(Brk(m, 1).0, once[1..]) && once[1..] == [];
      assert BrkRun(m, once) != m;
    }
  }

  // ---- the heap invariant -------------------------------------------------------------------

  /** What the blocks account for: header and pointer word once, data and pointer word once for the
      head and twice for every other block. */
  function Account(blocks: seq<Block>): nat {
    if blocks == [] then 0
    else
      var n := |blocks| - 1;
      Account(blocks[..n]) + HEADER + WORD_SIZE
      + (if n == 0 then 1 else 2) * (blocks[n].size + WORD_SIZE)
  }

  ghost predicate Increasing(blocks: seq<Block>) {
    forall i, j :: 0 <= i < j < |blocks| ==> blocks[i].data < blocks[j].data
  }

  ghost predicate Inv(h: Heap) {
    && h.arena.Placed()
    && Increasing(h.blocks)
    && (forall i :: 0 <= i < |h.blocks| ==> h.arena.start < h.blocks[i].data <= h.arena.start + h.arena.used)
    && (forall i :: 0 <= i < |h.blocks| ==> 0 < h.blocks[i].size < 0x8000_0000)
    && h.arena.used == Account(h.blocks)
  }

  /** No brk of this malloc refuses: it reuses a block, or the pool has room for every piece. */
  ghost predicate Served(h: Heap, size: sint32) {
    size <= 0 || FirstFit(h.blocks, size, 0) < |h.blocks| ||
    (var m1 := Brk(h.arena, HEADER).0;
     && !Refuses(h.arena, HEADER) && !Refuses(m1, size)
     && (h.blocks == [] || !Refuses(Brk(m1, size).0, size)))
  }

  /** Appending adds one block above all others and accounts for it. */
  lemma AppendExact(h: Heap, size: sint32)
    requires Inv(h) && size > 0 && FirstFit(h.blocks, size, 0) == |h.blocks| && Served(h, size)
    ensures Append(h, size).1.Returned?
    ensures var (g, p) := (Append(h, size).0, Append(h, size).1.addr);
            && g == Heap(h.arena.(used := g.arena.used), h.blocks + [Block(size, false, p)])
            && g.arena.Placed() && p == h.arena.start + g.arena.used && h.arena.used < g.arena.used
            && g.arena.used == h.arena.used + HEADER + WORD_SIZE
                               + (if h.blocks == [] then 1 else 2) * (size + WORD_SIZE)
  {
    var m1 := Brk(h.arena, HEADER).0;
    BrkExact(h.arena, HEADER);
    BrkExact(m1, size);
    BrkExact(Brk(m1, size).0, size);
  }

  lemma AppendKeeps(h: Heap, size: sint32)
    requires Inv(h) && size > 0 && FirstFit(h.blocks, size, 0) == |h.blocks| && Served(h, size)
    ensures Inv(Append(h, size).0)
  {
    hide Inv, Append;
    AppendExact(h, size);
    var (g, p) := (Append(h, size).0, Append(h, size).1.addr);
    GrownKeeps(h, g.arena.used, Block(size, false, p));
  }

  /** A block above all others, accounted for, keeps the invariant. */
  lemma GrownKeeps(h: Heap, used: uint32, b: Block)
    requires Inv(h) && h.arena.(used := used).Placed() && h.arena.used < used && b.data == h.arena.start + used
    requires 0 < b.size < 0x8000_0000
    requires used == h.arena.used + HEADER + WORD_SIZE + (if h.blocks == [] then 1 else 2) * (b.size + WORD_SIZE)
    ensures Inv(Heap(h.arena.(used := used), h.blocks + [b]))
  {
    hide Account, Increasing;
    AppendAccount(h.blocks, b);
    AppendIncreasing(h.blocks, b);
  }

  lemma AppendIncreasing(blocks: seq<Block>, b: Block)
    requires Increasing(blocks) && forall i :: 0 <= i < |blocks| ==> blocks[i].data < b.data
    ensures Increasing(blocks + [b])
  {}

  lemma AppendAccount(blocks: seq<Block>, b: Block)
    ensures Account(blocks + [b])
            == Account(blocks) + HEADER + WORD_SIZE + (if blocks == [] then 1 else 2) * (b.size + WORD_SIZE)
  {}

  lemma {:induction false} FlagIsNoAccount(blocks: seq<Block>, i: nat, isFree: bool)
    requires i < |blocks|
    ensures Account(blocks[i := blocks[i].(isFree := isFree)]) == Account(blocks)
  {
    var n := |blocks| - 1;
    var after := blocks[i := blocks[i].(isFree := isFree)];
    if i < n {
      assert after[..n] == blocks[..n][i := blocks[..n][i].(isFree := isFree)];
      FlagIsNoAccount(blocks[..n], i, isFree);
    } else {
      assert after[..n] == blocks[..n];
    }
  }

  lemma FlagKeeps(h: Heap, i: nat, isFree: bool)
    requires Inv(h) && i < |h.blocks|
    ensures Inv(h.(blocks := h.blocks[i := h.blocks[i].(isFree := isFree)]))
  {
    FlagIsNoAccount(h.blocks, i, isFree);
  }

  lemma {:induction false} FirstFitIsFirst(blocks: seq<Block>, size: sint32, i: nat)
    requires i <= |blocks|
    ensures var k := FirstFit(blocks, size, i);
            && (k < |blocks| ==> blocks[k].isFree && AsSigned(blocks[k].size) >= size)
            && forall j :: i <= j < k ==> !(blocks[j].isFree && AsSigned(blocks[j].size) >= size)
    decreases |blocks| - i
  {
    if i < |blocks| {
      FirstFitIsFirst(blocks, size, i + 1);
    }
  }

  lemma {:induction false} PositionIsFirst(blocks: seq<Block>, addr: uint32, i: nat)
    requires i <= |blocks|
    ensures var k := Position(blocks, addr, i);
            && (k < |blocks| ==> blocks[k].data == addr)
            && forall j :: i <= j < k ==> blocks[j].data != addr
    decreases |blocks| - i
  {
    if i < |blocks| {
      PositionIsFirst(blocks, addr, i + 1);
    }
  }

  /** free(p) marks exactly the block malloc returned p for, wherever it is in the list. */
  lemma FreeFlipsExactly(h: Heap, i: nat)
    requires Inv(h) && i < |h.blocks|
    ensures Free(h, h.blocks[i].data) == h.(blocks := h.blocks[i := h.blocks[i].(isFree := true)])
  {
    PositionIsFirst(h.blocks, h.blocks[i].data, 0);
  }

  // ---- refinement of a map --------------------------------------------------------------------

  datatype Cell = Cell(size: int, isFree: bool)

  /** The blocks as a map from address to size and flag. */
  function AsMap(blocks: seq<Block>): map<uint32, Cell> {
    if blocks == [] then map[]
    else
      var b := blocks[|blocks| - 1];
      AsMap(blocks[..|blocks| - 1])[b.data := Cell(b.size, b.isFree)]
  }

  datatype Call = Alloc(size: sint32) | Release(addr: uint32)

  predicate Fits(m: map<uint32, Cell>, a: uint32, size: int)
  {
    a in m && m[a].isFree && m[a].size >= size
  }

  /** The answers the map allows: NULL for a size that is not positive, otherwise the least fitting
      free address, or when none fits an address above all others. */
  ghost predicate Allowed(m: map<uint32, Cell>, c: Call, r: uint32) {
    c.Alloc? ==>
      if c.size <= 0 then r == NULL
      else if exists a :: Fits(m, a, c.size) then
        Fits(m, r, c.size) && forall a :: Fits(m, a, c.size) ==> r <= a
      else
        r != NULL && forall a :: a in m ==> a < r
  }

  /** What a call does to the map, given its answer. */
  function MapNext(m: map<uint32, Cell>, c: Call, r: uint32): map<uint32, Cell> {
    match c
    case Alloc(size) =>
      if size <= 0 then m
      else if r in m then m[r := m[r].(isFree := false)]
      else m[r := Cell(size, false)]
    case Release(addr) =>
      if addr in m then m[addr := m[addr].(isFree := true)] else m
  }

  lemma {:induction false} AsMapAt(blocks: seq<Block>, a: uint32)
    requires Increasing(blocks)
    ensures a in AsMap(blocks) <==> Position(blocks, a, 0) < |blocks|
    ensures a in AsMap(blocks) ==> var b := blocks[Position(blocks, a, 0)];
              b.data == a && AsMap(blocks)[a] == Cell(b.size, b.isFree)
  {
    PositionIsFirst(blocks, a, 0);
    if blocks != [] {
      var n := |blocks| - 1;
      AsMapAt(blocks[..n], a);
      PositionIsFirst(blocks[..n], a, 0);
    }
  }

  /** Every listed block is found in the map under its address. */
  lemma ListedInMap(blocks: seq<Block>, i: nat)
    requires Increasing(blocks) && i < |blocks|
    ensures blocks[i].data in AsMap(blocks)
    ensures AsMap(blocks)[blocks[i].data] == Cell(blocks[i].size, blocks[i].isFree)
  {}

  lemma {:induction false} FlagInMap(blocks: seq<Block>, i: nat, isFree: bool)
    requires Increasing(blocks) && i < |blocks|
    ensures AsMap(blocks[i := blocks[i].(isFree := isFree)])
            == AsMap(blocks)[blocks[i].data := Cell(blocks[i].size, isFree)]
  {
    var n := |blocks| - 1;
    var after := blocks[i := blocks[i].(isFree := isFree)];
    if i < n {
      assert after[..n] == blocks[..n][i := blocks[..n][i].(isFree := isFree)];
      FlagInMap(blocks[..n], i, isFree);
    } else {
      assert after[..n] == blocks[..n];
    }
  }

  function Step(h: Heap, c: Call): (Heap, Outcome) {
    match c
    case Alloc(size) => Malloc(h, size)
    case Release(addr) => (Free(h, addr), Returned(NULL))
  }

  ghost predicate StepServed(h: Heap, c: Call) {
    c.Alloc? ==> Served(h, c.size)
  }

  lemma ReuseAllowed(h: Heap, size: sint32)
    requires Inv(h) && size > 0 && FirstFit(h.blocks, size, 0) < |h.blocks|
    ensures Allowed(AsMap(h.blocks), Alloc(size), h.blocks[FirstFit(h.blocks, size, 0)].data)
  {
    var m, k := AsMap(h.blocks), FirstFit(h.blocks, size, 0);
    FirstFitIsFirst(h.blocks, size, 0);
    ListedInMap(h.blocks, k);
    assert Fits(m, h.blocks[k].data, size);
    forall a | Fits(m, a, size) ensures h.blocks[k].data <= a {
      AsMapAt(h.blocks, a);
    }
  }

  lemma AppendAllowed(h: Heap, size: sint32)
    requires Inv(h) && size > 0 && FirstFit(h.blocks, size, 0) == |h.blocks| && Served(h, size)
    ensures Append(h, size).1.Returned?
    ensures Allowed(AsMap(h.blocks), Alloc(size), Append(h, size).1.addr)
  {
    var m := AsMap(h.blocks);
    FirstFitIsFirst(h.blocks, size, 0);
    AppendExact(h, size);
    forall a | a in m ensures a <= h.arena.start + h.arena.used && !Fits(m, a, size) {
      AsMapAt(h.blocks, a);
    }
  }

  /** One served call keeps the invariant and does to the map what the map specification says. */
  lemma StepRefines(h: Heap, c: Call)
    requires Inv(h) && StepServed(h, c)
    ensures Step(h, c).1.Returned? && Inv(Step(h, c).0)
    ensures Allowed(AsMap(h.blocks), c, Step(h, c).1.addr)
    ensures AsMap(Step(h, c).0.blocks) == MapNext(AsMap(h.blocks), c, Step(h, c).1.addr)
  {
    match c
    case Release(addr) =>
      var i := Position(h.blocks, addr, 0);
      AsMapAt(h.blocks, addr);
      if i < |h.blocks| {
        FlagKeeps(h, i, true);
        FlagInMap(h.blocks, i, true);
      }
    case Alloc(size) =>
      if size > 0 {
        var i := FirstFit(h.blocks, size, 0);
        if i < |h.blocks| {
          ReuseAllowed(h, size);
          FlagKeeps(h, i, false);
          FlagInMap(h.blocks, i, false);
          ListedInMap(h.blocks, i);
        } else {
          AppendAllowed(h, size);
          AppendMaps(h, size);
        }
      }
  }

  lemma AppendMaps(h: Heap, size: sint32)
    requires Inv(h) && size > 0 && FirstFit(h.blocks, size, 0) == |h.blocks| && Served(h, size)
    ensures Append(h, size).1.Returned? && Inv(Append(h, size).0)
    ensures AsMap(Append(h, size).0.blocks) == MapNext(AsMap(h.blocks), Alloc(size), Append(h, size).1.addr)
  {
    AppendExact(h, size);
    AppendKeeps(h, size);
    var g, p := Append(h, size).0, Append(h, size).1.addr;
    assert g.blocks[..|h.blocks|] == h.blocks;
    AsMapAt(h.blocks, p);
  }

  // ---- runs -----------------------------------------------------------------------------------

  function Run(h: Heap, calls: seq<Call>): Heap
    decreases |calls|
  {
    if calls == [] then h else Run(Step(h, calls[0]).0, calls[1..])
  }

  ghost predicate RunServed(h: Heap, calls: seq<Call>)
    decreases |calls|
  {
    calls == [] || (StepServed(h, calls[0]) && RunServed(Step(h, calls[0]).0, calls[1..]))
  }

  /** The calls of a run with their answers. */
  function Answers(h: Heap, calls: seq<Call>): seq<uint32>
    decreases |calls|
  {
    if calls == [] then []
    else
      var (g, o) := Step(h, calls[0]);
      [if o.Returned? then o.addr else NULL] + Answers(g, calls[1..])
  }

  ghost predicate MapRun(m: map<uint32, Cell>, calls: seq<Call>, answers: seq<uint32>, end: map<uint32, Cell>)
    decreases |calls|
  {
    if calls == [] then answers == [] && end == m
    else
      && answers != [] && Allowed(m, calls[0], answers[0])
      && MapRun(MapNext(m, calls[0], answers[0]), calls[1..], answers[1..], end)
  }

  /** An empty heap on a pool below 2^31 bytes. */
  lemma EmptyHeapInv(start: uint32, total: uint32)
    requires total < 0x8000_0000 && start + total + WORD_SIZE <= 0x1_0000_0000
    ensures Inv(Heap(Arena(start, total, 0), []))
  {}

  /** Over every run in which no brk refuses, the list refines the map: each answer is one the map
      allows, the final list is the final map, addresses strictly increase along the list, and the
      bytes in use are what the blocks account for. */
  lemma {:induction false} RunRefines(h: Heap, calls: seq<Call>)
    requires Inv(h) && RunServed(h, calls)
    ensures MapRun(AsMap(h.blocks), calls, Answers(h, calls), AsMap(Run(h, calls).blocks))
    ensures Inv(Run(h, calls))
    decreases |calls|
  {
    if calls != [] {
      StepRefines(h, calls[0]);
      RunRefines(Step(h, calls[0]).0, calls[1..]);
    }
  }

  // ---- when a malloc fails ------------------------------------------------------------------------

  /** In a heap that keeps its invariant: malloc writes through a null pointer exactly when no block is
      reused and the pool has no room for a header; it returns NULL for a positive size exactly when
      there is room for the header but not for all of the data; and it is served otherwise. */
  lemma MallocFailsIff(h: Heap, size: sint32)
    requires Inv(h)
    ensures var grows := size > 0 && FirstFit(h.blocks, size, 0) == |h.blocks|;
            var (total, used) := (h.arena.total, h.arena.used + HEADER);
            var data := if h.blocks == [] then size else 2 * size + WORD_SIZE;
            && (Malloc(h, size).1.Faulted? <==> grows && total <= used)
            && (Malloc(h, size).1 == Returned(NULL) <==>
                  size <= 0 || (grows && used < total <= used + WORD_SIZE + data))
            && (Served(h, size) <==> !grows || used + WORD_SIZE + data < total)
  {
    var m1 := Brk(h.arena, HEADER).0;
    BrkExact(h.arena, HEADER);
    if size > 0 && FirstFit(h.blocks, size, 0) == |h.blocks| && !Refuses(h.arena, HEADER) {
      BrkExact(m1, size);
      BrkExact(Brk(m1, size).0, size);
    }
  }

  lemma UnservedAppend(h: Heap, size: sint32)
    requires Inv(h) && size > 0 && FirstFit(h.blocks, size, 0) == |h.blocks| && !Served(h, size)
    ensures Malloc(h, size).1.Returned? ==> Malloc(h, size).1.addr == NULL && !Inv(Malloc(h, size).0)
  {
    MallocFailsIff(h, size);
    if Malloc(h, size).1.Returned? {
      var g := Malloc(h, size).0;
      assert |g.blocks| == |h.blocks| + 1 && g.blocks[|h.blocks|].data == NULL;
    }
  }

  /** A call returns and keeps the invariant exactly when no brk of it refuses. */
  lemma StepServedIff(h: Heap, c: Call)
    requires Inv(h)
    ensures Step(h, c).1.Returned? && Inv(Step(h, c).0) <==> StepServed(h, c)
  {
    if StepServed(h, c) {
      StepRefines(h, c);
    } else {
      UnservedAppend(h, c.size);
    }
  }

  /** Every call of the run returns, and the invariant holds from its start to its end. */
  ghost predicate StaysSound(h: Heap, calls: seq<Call>)
    decreases |calls|
  {
    && Inv(h)
    && (calls == [] || (Step(h, calls[0]).1.Returned? && StaysSound(Step(h, calls[0]).0, calls[1..])))
  }

  /** So does a run, exactly when none of its brk calls refuses. */
  lemma {:induction false} RunServedIff(h: Heap, calls: seq<Call>)
    requires Inv(h)
    ensures StaysSound(h, calls) <==> RunServed(h, calls)
    decreases |calls|
  {
    if calls != [] {
      StepServedIff(h, calls[0]);
      if StepServed(h, calls[0]) {
        RunServedIff(Step(h, calls[0]).0, calls[1..]);
      }
    }
  }

  /** Sizes and addresses never change: blocks are only added at the end and flags flipped. */
  lemma {:induction false} BlocksStay(h: Heap, calls: seq<Call>, i: nat)
    requires i < |h.blocks|
    ensures |h.blocks| <= |Run(h, calls).blocks|
    ensures Run(h, calls).blocks[i].size == h.blocks[i].size && Run(h, calls).blocks[i].data == h.blocks[i].data
    decreases |calls|
  {
    if calls != [] {
      BlocksStay(Step(h, calls[0]).0, calls[1..], i);
    }
  }

  // ---- where blocks lie -------------------------------------------------------------------------

  /** Every block's address is the top of what it and the blocks before it account for. */
  ghost predicate Stacked(h: Heap) {
    forall i :: 0 <= i < |h.blocks| ==> h.blocks[i].data == h.arena.start + Account(h.blocks[..i + 1])
  }

  /** The address of a block's header: the top of its chunk, below the data. */
  function HeaderAt(h: Heap, i: nat): int
    requires i <= |h.blocks|
  {
    h.arena.start + Account(h.blocks[..i]) + HEADER + WORD_SIZE
  }

  /** A header is written where HeaderAt says. */
  lemma HeaderReserved(h: Heap, size: sint32)
    requires Inv(h) && !Refuses(h.arena, HEADER)
    ensures Reserve(h.arena, size).1 == HeaderAt(h, |h.blocks|)
  {
    BrkExact(h.arena, HEADER);
    assert h.blocks[..|h.blocks|] == h.blocks;
  }

  lemma StackedFlag(h: Heap, i: nat, isFree: bool)
    requires Stacked(h) && i < |h.blocks|
    ensures Stacked(h.(blocks := h.blocks[i := h.blocks[i].(isFree := isFree)]))
  {
    var after := h.blocks[i := h.blocks[i].(isFree := isFree)];
    forall k | 0 <= k < |after| ensures after[k].data == h.arena.start + Account(after[..k + 1]) {
      var front := h.blocks[..k + 1];
      if i <= k {
        FlagIsNoAccount(front, i, isFree);
        assert after[..k + 1] == front[i := front[i].(isFree := isFree)];
      } else {
        assert after[..k + 1] == front;
      }
    }
  }

  lemma StackedGrown(h: Heap, g: Heap, b: Block)
    requires Stacked(h) && g.arena.start == h.arena.start && g.blocks == h.blocks + [b]
    requires b.data == g.arena.start + Account(g.blocks)
    ensures Stacked(g)
  {
    hide Account;
    forall k | 0 <= k < |g.blocks| ensures g.blocks[k].data == g.arena.start + Account(g.blocks[..k + 1]) {
      if k < |h.blocks| {
        assert g.blocks[..k + 1] == h.blocks[..k + 1];
      } else {
        assert g.blocks[..k + 1] == g.blocks;
      }
    }
  }

  lemma InvAccounts(h: Heap)
    requires Inv(h)
    ensures h.arena.used == Account(h.blocks)
  {}

  lemma StackedAppend(h: Heap, size: sint32)
    requires Inv(h) && Stacked(h) && size > 0 && FirstFit(h.blocks, size, 0) == |h.blocks| && Served(h, size)
    ensures Stacked(Append(h, size).0)
  {
    hide Append, Inv, Account, FirstFit, Served, Stacked;
    AppendExact(h, size);
    AppendKeeps(h, size);
    var (g, p) := (Append(h, size).0, Append(h, size).1.addr);
    InvAccounts(g);
    StackedGrown(h, g, Block(size, false, p));
  }

  lemma StackedStep(h: Heap, c: Call)
    requires Inv(h) && Stacked(h) && StepServed(h, c)
    ensures Stacked(Step(h, c).0)
  {
    match c
    case Release(addr) =>
      var i := Position(h.blocks, addr, 0);
      if i < |h.blocks| {
        StackedFlag(h, i, true);
      }
    case Alloc(size) =>
      if size > 0 {
        var i := FirstFit(h.blocks, size, 0);
        if i < |h.blocks| {
          StackedFlag(h, i, false);
        } else {
          StackedAppend(h, size);
        }
      }
  }

  lemma {:induction false} StackedRun(h: Heap, calls: seq<Call>)
    requires Inv(h) && Stacked(h) && RunServed(h, calls)
    ensures Inv(Run(h, calls)) && Stacked(Run(h, calls))
    decreases |calls|
  {
    if calls != [] {
      StepRefines(h, calls[0]);
      StackedStep(h, calls[0]);
      StackedRun(Step(h, calls[0]).0, calls[1..]);
    }
  }

  /** What lies between the addresses of two blocks: all that the later ones account for. */
  function Gap(blocks: seq<Block>, i: nat, j: nat): nat
    requires i <= j < |blocks|
    decreases j
  {
    if i == j then 0 else Gap(blocks, i, j - 1) + HEADER + WORD_SIZE + 2 * (blocks[j].size + WORD_SIZE)
  }

  lemma {:induction false} GapAccounts(blocks: seq<Block>, i: nat, j: nat)
    requires i <= j < |blocks|
    ensures Account(blocks[..j + 1]) == Account(blocks[..i + 1]) + Gap(blocks, i, j)
    decreases j
  {
    if i < j {
      assert blocks[..j + 1][..j] == blocks[..j];
      GapAccounts(blocks, i, j - 1);
    }
  }

  lemma AccountLast(blocks: seq<Block>, i: nat)
    requires i < |blocks|
    ensures Account(blocks[..i + 1]) == Account(blocks[..i]) + HEADER + WORD_SIZE
                                        + (if i == 0 then 1 else 2) * (blocks[i].size + WORD_SIZE)
  {
    assert blocks[..i + 1][..i] == blocks[..i];
  }

  /** A caller who counts its block's bytes from the address malloc returned stays below a later
      block's address exactly when the block is no larger than the gap between them; it stays below
      the next block's header exactly when the block has at most HEADER + WORD_SIZE bytes; and its own
      header ends below its data exactly when the chunks of data are as large as a header. */
  lemma StackedMeetIff(h: Heap, i: nat, j: nat)
    requires Stacked(h) && i < j < |h.blocks|
    ensures var (b, d) := (h.blocks[i], h.blocks[j]);
            && (b.data + b.size <= d.data <==> b.size <= Gap(h.blocks, i, j))
            && (b.data + b.size <= HeaderAt(h, i + 1) <==> b.size <= HEADER + WORD_SIZE)
            && (HeaderAt(h, i) + HEADER <= b.data <==> HEADER <= (if i == 0 then 1 else 2) * (b.size + WORD_SIZE))
  {
    GapAccounts(h.blocks, i, j);
    AccountLast(h.blocks, i);
  }

  /** That holds of any two blocks after every served run from the empty heap. */
  lemma BlocksMeetIff(start: uint32, total: uint32, calls: seq<Call>, i: nat, j: nat)
    requires total < 0x8000_0000 && start + total + WORD_SIZE <= 0x1_0000_0000
    requires RunServed(Heap(Arena(start, total, 0), []), calls)
    requires i < j < |Run(Heap(Arena(start, total, 0), []), calls).blocks|
    ensures var h := Run(Heap(Arena(start, total, 0), []), calls);
            var (b, d) := (h.blocks[i], h.blocks[j]);
            && (b.data + b.size <= d.data <==> b.size <= Gap(h.blocks, i, j))
            && (b.data + b.size <= HeaderAt(h, i + 1) <==> b.size <= HEADER + WORD_SIZE)
            && (HeaderAt(h, i) + HEADER <= b.data <==> HEADER <= (if i == 0 then 1 else 2) * (b.size + WORD_SIZE))
  {
    StackedRun(Heap(Arena(start, total, 0), []), calls);
    StackedMeetIff(Run(Heap(Arena(start, total, 0), []), calls), i, j);
  }

  lemma FirstBlock(m: Arena)
    requires m == Arena(0x10_0000, 4096, 0)
    ensures Step(Heap(m, []), Alloc(100)).0 == Heap(m.(used := 124), [Block(100, false, m.start + 124)])
  {}

  lemma SecondBlock(m: Arena, b: Block)
    requires m == Arena(0x10_0000, 4096, 124) && !b.isFree
    ensures Step(Heap(m, [b]), Alloc(8)).0 == Heap(m.(used := 168), [b, Block(8, false, m.start + 168)])
  {
    var m1, m2 := m.(used := 144), m.(used := 156);
    assert FirstFit([b], 8, 0) == 1;
    assert Brk(m, HEADER) == (m1, m.start + 144) && Brk(m1, 8) == (m2, m.start + 156);
    assert Reserve(m, 8) == (m2, m.start + 144, m.start + 156);
    assert Brk(m2, 8) == (m.(used := 168), m.start + 168);
  }

  /** After malloc(100) and malloc(8) the first caller's bytes meet the second's block. */
  lemma BlocksMeet()
    ensures var h := Run(Heap(Arena(0x10_0000, 4096, 0), []), [Alloc(100), Alloc(8)]);
            && |h.blocks| == 2
            && h.blocks[0].data < h.blocks[1].data < h.blocks[0].data + h.blocks[0].size
  {
    var m, b := Arena(0x10_0000, 4096, 0), Block(100, false, 0x10_0000 + 124);
    FirstBlock(m);
    SecondBlock(m.(used := 124), b);
    RunTwo(Heap(m, []), Alloc(100), Alloc(8));
  }

  lemma RunTwo(h: Heap, c: Call, d: Call)
    ensures Run(h, [c, d]) == Step(Step(h, c).0, d).0
  {
    assert [c, d][1..] == [d] && [d][1..] == [];
    assert Run(h, [c, d]) == Run(Step(h, c).0, [d]);
  }
}
