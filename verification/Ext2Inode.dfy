/** Inode addressing of drivers/ext2/ext2.c and what its reads find through the disk driver. After
    "The Second Extended File System: Internal Layout", section "Locating an Inode". */
module Ext2Inode {
  import opened CTypes
  import opened Ata
  import Ide
  import opened Ext2Dir

  const INODE_SIZE := 256
  const WINDOW := 1024
  const WINDOW_SECTORS := 2
  const INDEX_LIMIT := 0x100_0000   // 2^32 / INODE_SIZE
  const DIR_SECTORS: uint8 := 6
  const DIR_WORDS := 128   // 32-bit words in a sector

  // ---- numbers ---------------------------------------------------------------------------------------

  function BlockGroup(inode: uint32, perGroup: uint32): uint32
    requires perGroup > 0
  {
    Wrap32(inode - 1) / perGroup
  }

  function InodeIndex(inode: uint32, perGroup: uint32): uint32
    requires perGroup > 0
  {
    Wrap32(inode - 1) % perGroup
  }

  lemma OnlyZero(d: int, k: int)
    requires -d < d * k < d
    ensures k == 0
  {}

  lemma DivMod(q: nat, r: nat, d: nat)
    requires r < d
    ensures (q * d + r) / d == q && (q * d + r) % d == r
  {
    var n := q * d + r;
    assert n == d * (n / d) + n % d;
    assert d * (n / d - q) == r - n % d;
    OnlyZero(d, n / d - q);
  }

  /** Group and index name each inode once: they give the number back, and every pair in range is
      the group and index of exactly the inode it gives. */
  lemma GroupIndexBijection(inode: uint32, group: nat, index: nat, perGroup: uint32)
    requires perGroup > 0 && inode > 0
    ensures BlockGroup(inode, perGroup) * perGroup + InodeIndex(inode, perGroup) + 1 == inode
    ensures index < perGroup && group * perGroup + index + 1 < 0x1_0000_0000 ==>
              (BlockGroup(inode, perGroup) == group && InodeIndex(inode, perGroup) == index
               <==> inode == group * perGroup + index + 1)
  {
    if index < perGroup {
      DivMod(group, index, perGroup);
    }
  }

  function Shifted(log: nat): nat {
    if log == 0 then WINDOW else 2 * Shifted(log - 1)
  }

  lemma {:induction false} ShiftedAtLeast(log: nat)
    ensures Shifted(log) >= WINDOW && (log > 0 ==> Shifted(log) >= 2 * WINDOW)
  {
    if log > 0 {
      ShiftedAtLeast(log - 1);
    }
  }

  /** The block of the table a record is in, for blocks of Shifted(log) bytes. */
  function ContainingBlock(index: uint32, log: nat): nat
    requires Shifted(log) > 0
  {
    Wrap32(index * INODE_SIZE) / Shifted(log)
  }

  /** The sector read_inode reads from: 32-bit arithmetic throughout. */
  function InodeSector(table: uint32, index: uint32, log: nat): uint32
    requires Shifted(log) > 0
  {
    Wrap32(2 * Wrap32(table + ContainingBlock(index, log)))
  }

  /** Where read_inode then looks in what it read. */
  function InodeOffset(index: uint32): nat {
    index % (WINDOW / INODE_SIZE) * INODE_SIZE
  }

  /** The place on the disk it looks at, in bytes. */
  function InodeByte(table: uint32, index: uint32, log: nat): nat
    requires Shifted(log) > 0
  {
    512 * InodeSector(table, index, log) + InodeOffset(index)
  }

  /** Neither the index times the record size nor the sector number wraps. */
  predicate InRange(table: uint32, index: uint32) {
    index < INDEX_LIMIT && table + index / 4 < 0x8000_0000
  }

  lemma WrapMultiple(k: int, x: int)
    ensures Wrap32(0x1_0000_0000 * k + x) == Wrap32(x)
  {}

  lemma WrapTwice(x: nat)
    ensures Wrap32(2 * Wrap32(x)) == Wrap32(2 * x)
  {
    var k := x / 0x1_0000_0000;
    assert x == 0x1_0000_0000 * k + Wrap32(x);
    WrapMultiple(2 * k, 2 * Wrap32(x));
  }

  lemma WrappedProduct(index: uint32)
    ensures Wrap32(index * INODE_SIZE) == index % INDEX_LIMIT * INODE_SIZE
    ensures Wrap32(index * INODE_SIZE) / WINDOW == index % INDEX_LIMIT / 4
  {
    var k, r := index / INDEX_LIMIT, index % INDEX_LIMIT;
    assert index * INODE_SIZE == 0x1_0000_0000 * k + r * INODE_SIZE;
  }

  /** For 1024-byte blocks the sector and offset are those of the index modulo INDEX_LIMIT. */
  lemma SectorOf(table: uint32, index: uint32)
    ensures Shifted(0) == WINDOW
    ensures InodeSector(table, index, 0) == Wrap32(2 * (table + index % INDEX_LIMIT / 4))
    ensures InodeOffset(index) == 256 * (index % 4) == 256 * (index % INDEX_LIMIT % 4)
  {
    WrappedProduct(index);
    WrapTwice(table + index % INDEX_LIMIT / 4);
    SameQuarter(index);
    hide Wrap32;
  }

  lemma SameQuarter(index: nat)
    ensures index % 4 == index % INDEX_LIMIT % 4
  {
    var k, r := index / INDEX_LIMIT, index % INDEX_LIMIT;
    assert index == INDEX_LIMIT * k + r;
    Quarters(0x40_0000 * k, r);
  }

  lemma Quarters(k: int, r: nat)
    ensures (4 * k + r) % 4 == r % 4
  {}

  /** The byte addressed is the inode's byte in the table exactly for 1024-byte blocks and as long as
      neither the index nor the table reaches its bound. */
  lemma InodeByteExact(table: uint32, index: uint32, log: nat)
    requires table > 0
    ensures Shifted(log) > 0
    ensures InodeByte(table, index, log) == table * Shifted(log) + index * INODE_SIZE
            <==> log == 0 && InRange(table, index)
  {
    ShiftedAtLeast(log);
    if log == 0 {
      SectorOf(table, index);
      SmallBlocks(table, index, InodeSector(table, index, 0));
    } else {
      var s := InodeSector(table, index, log);
      SectorAtMost(table, index, log);
      TablesApart(table, Shifted(log));
      assert 512 * s + InodeOffset(index) <= table * WINDOW + index * INODE_SIZE;
    }
  }

  lemma SmallBlocks(table: uint32, index: uint32, s: uint32)
    requires s == Wrap32(2 * (table + index % INDEX_LIMIT / 4))
    ensures 512 * s + 256 * (index % 4) == table * WINDOW + index * INODE_SIZE <==> InRange(table, index)
  {
    assert index == 4 * (index / 4) + index % 4;
    if index < INDEX_LIMIT {
      assert index % INDEX_LIMIT == index;
    } else {
      assert index % INDEX_LIMIT / 4 < index / 4;
    }
  }

  lemma SectorAtMost(table: uint32, index: uint32, log: nat)
    requires Shifted(log) >= WINDOW
    ensures InodeSector(table, index, log) <= 2 * (table + index / 4)
  {
    hide ContainingBlock;
    BlockAtMost(index, log);
    WrapTwice(table + ContainingBlock(index, log));
    WrapAtMost(2 * (table + ContainingBlock(index, log)));
  }

  lemma BlockAtMost(index: uint32, log: nat)
    requires Shifted(log) >= WINDOW
    ensures ContainingBlock(index, log) <= index / 4
  {
    WrapAtMost(index * INODE_SIZE);
    QuotientAtMost(Wrap32(index * INODE_SIZE), Shifted(log));
  }

  lemma WrapAtMost(x: nat)
    ensures Wrap32(x) <= x
  {}

  lemma QuotientAtMost(n: nat, block: nat)
    requires block >= WINDOW
    ensures n / block * WINDOW <= n
  {
    DivTimes(n, block);
    TimesMore(n / block, block);
  }

  lemma DivTimes(n: nat, d: nat)
    requires d > 0
    ensures 0 <= n / d && n / d * d <= n
  {
    assert n == d * (n / d) + n % d;
  }

  lemma TimesMore(q: nat, block: nat)
    requires block >= WINDOW
    ensures q * WINDOW <= q * block
  {
    assert q * block == q * WINDOW + q * (block - WINDOW);
  }

  lemma TablesApart(table: nat, block: nat)
    requires table > 0 && block >= 2 * WINDOW
    ensures table * block > table * WINDOW
  {}

  /** For 1024-byte blocks: a record lies whole in the two sectors read, and the bytes looked at for two
      inodes are disjoint exactly when their indices differ modulo INDEX_LIMIT; otherwise they are the
      same bytes. */
  lemma RecordsDisjoint(table: uint32, index: uint32, other: uint32)
    ensures Shifted(0) > 0 && InodeOffset(index) + INODE_SIZE <= WINDOW
    ensures var (a, b) := (InodeByte(table, index, 0), InodeByte(table, other, 0));
            && (a + INODE_SIZE <= b || b + INODE_SIZE <= a <==> index % INDEX_LIMIT != other % INDEX_LIMIT)
            && (index % INDEX_LIMIT == other % INDEX_LIMIT ==> a == b)
  {
    SectorOf(table, index);
    SectorOf(table, other);
    var i, j := index % INDEX_LIMIT, other % INDEX_LIMIT;
    if i / 4 != j / 4 {
      WrapsApart(table, i / 4, j / 4);
    } else {
      assert i == 4 * (i / 4) + i % 4 && j == 4 * (j / 4) + j % 4;
    }
  }

  lemma WrapsApart(table: uint32, a: nat, b: nat)
    requires a < 0x8000_0000 && b < 0x8000_0000 && a != b
    ensures Wrap32(2 * (table + a)) as int + 2 <= Wrap32(2 * (table + b))
            || Wrap32(2 * (table + b)) as int + 2 <= Wrap32(2 * (table + a))
  {
    StaysEven(table + a);
    StaysEven(table + b);
    StayApart(2 * (table + a), 2 * (table + b));
    hide Wrap32;
  }

  lemma StaysEven(x: nat)
    ensures Wrap32(2 * x) % 2 == 0
  {
    assert 2 * x == 0x1_0000_0000 * (2 * x / 0x1_0000_0000) + Wrap32(2 * x);
  }

  lemma StayApart(x: nat, y: nat)
    requires x != y && -0x1_0000_0000 < x - y < 0x1_0000_0000
    ensures Wrap32(x) != Wrap32(y)
  {}

  /** Indices 0 and 2^24 are looked for in the same place. */
  lemma IndicesCollide(table: uint32)
    ensures Shifted(0) > 0 && InodeByte(table, 0, 0) == InodeByte(table, INDEX_LIMIT, 0)
  {
    RecordsDisjoint(table, 0, INDEX_LIMIT);
  }

  // ---- through the driver ------------------------------------------------------------------------------

  /** 16-bit word `w` of a disk. */
  function DiskWord(d: Disk, w: nat): uint16
    requires w / SECTOR_WORDS < |d.sectors|
  {
    d.sectors[w / SECTOR_WORDS][w % SECTOR_WORDS]
  }

  /** read_inode reads the two sectors of the window, but the driver puts the second one 2048 bytes
      on. So of the record at InodeOffset the buffer holds the words at the byte addressed exactly when
      the index is 0 or 1 modulo 4; otherwise it holds what was in the buffer before. */
  lemma InodeInBuffer(before: seq<uint16>, after: seq<uint16>, d: Disk, table: uint32, index: uint32, k: nat)
    requires k < INODE_SIZE / 2 && InodeOffset(index) / 2 + k < |after|
    requires InodeSector(table, index, 0) + 1 < |d.sectors|
    requires Ide.Filled(before, after, d, InodeSector(table, index, 0), WINDOW_SECTORS)
    ensures InodeByte(table, index, 0) / 2 + k < SECTOR_WORDS * |d.sectors|
    ensures after[InodeOffset(index) / 2 + k]
            == if index % 4 < 2 then DiskWord(d, InodeByte(table, index, 0) / 2 + k)
               else before[InodeOffset(index) / 2 + k]
    ensures table > 0 && InRange(table, index) ==>
              InodeByte(table, index, 0) == table * WINDOW + index * INODE_SIZE
  {
    var sector, j := InodeSector(table, index, 0), InodeOffset(index) / 2 + k;
    InodeWord(table, index, k);
    InSector(sector, j);
    if table > 0 {
      InodeByteExact(table, index, 0);
    }
    hide InodeSector, InodeOffset, InodeByte;
    assert j / Ide.STRIDE == 0 && j % Ide.STRIDE == j;
    if index % 4 < 2 {
      assert after[j] == d.sectors[sector][j];
    }
  }

  /** Which 16-bit word of the disk word `k` of an inode is. */
  lemma InodeWord(table: uint32, index: uint32, k: nat)
    requires k < INODE_SIZE / 2
    ensures Shifted(0) == WINDOW && InodeOffset(index) / 2 + k == 128 * (index % 4) + k
    ensures InodeByte(table, index, 0) / 2 + k
            == SECTOR_WORDS * InodeSector(table, index, 0) + InodeOffset(index) / 2 + k
  {
    SectorOf(table, index);
  }

  lemma InSector(sector: nat, r: nat)
    requires r < 2 * SECTOR_WORDS
    ensures (SECTOR_WORDS * sector + r) / SECTOR_WORDS == sector + (if r < SECTOR_WORDS then 0 else 1)
    ensures r < SECTOR_WORDS ==> (SECTOR_WORDS * sector + r) % SECTOR_WORDS == r
  {}

  function Joined(low: int, high: int): int {
    low + 0x1_0000 * high
  }

  /** The 32-bit words of a run of 16-bit ones. */
  function Words32(s: seq<uint16>): (r: seq<uint32>)
    ensures |r| == |s| / 2
  {
    if |s| < 2 then [] else [Joined(s[0], s[1])] + Words32(s[2..])
  }

  lemma FirstWord(s: seq<uint16>)
    requires |s| >= 2
    ensures Words32(s) == [Joined(s[0], s[1])] + Words32(s[2..])
  {}

  lemma {:induction false} Words32Front(a: seq<uint16>, b: seq<uint16>)
    requires |a| % 2 == 0
    ensures Words32(a + b) == Words32(a) + Words32(b)
  {
    if a == [] {
      assert a + b == b && Words32(a) == [];
    } else {
      hide Words32;
      var c := a + b;
      assert c[0] == a[0] && c[1] == a[1] && c[2..] == a[2..] + b;
      FirstWord(a);
      FirstWord(c);
      Words32Front(a[2..], b);
      Regroup([Joined(a[0], a[1])], Words32(a[2..]), Words32(b));
    }
  }

  lemma {:induction false} Words32At(s: seq<uint16>, i: nat)
    requires 2 * i + 1 < |s|
    ensures Words32(s)[i] == s[2 * i] + 0x1_0000 * (s[2 * i + 1] as int)
  {
    if i > 0 {
      Words32At(s[2..], i - 1);
    }
  }

  /** What `n` sectors from `sector` on leave in a buffer. */
  function FilledBuffer(before: seq<uint16>, d: Disk, sector: nat, n: nat): seq<uint16> {
    seq(|before|, j requires 0 <= j < |before| =>
      if j / Ide.STRIDE < n && j % Ide.STRIDE < SECTOR_WORDS && sector + j / Ide.STRIDE < |d.sectors|
      then d.sectors[sector + j / Ide.STRIDE][j % Ide.STRIDE] else before[j])
  }

  lemma FilledBy(before: seq<uint16>, d: Disk, sector: nat, n: nat)
    ensures Ide.Filled(before, FilledBuffer(before, d, sector, n), d, sector, n)
  {}

  /** A directory written from the start of a sector on, with whatever follows it. */
  ghost predicate Begins(d: Disk, sector: nat, records: seq<Record>, tail: seq<uint32>)
    requires AllWritable(records)
  {
    && sector < |d.sectors| && |EncodeAll(records) + tail| >= DIR_WORDS
    && Words32(d.sectors[sector]) == (EncodeAll(records) + tail)[..DIR_WORDS]
  }

  /** Whatever was in the buffer before, the walk over it reads the directory. */
  ghost predicate AlwaysRead(d: Disk, sector: nat, n: nat, length: nat, records: seq<Record>) {
    forall before, after :: |before| == length && Ide.Filled(before, after, d, sector, n)
                            ==> Walk(Words32(after), 0, Listed(records))
  }

  lemma FirstChunk(s: seq<uint16>)
    requires SECTOR_WORDS <= |s|
    ensures Ide.Chunk(s, 0) + s[SECTOR_WORDS..] == s
  {}

  /** The buffer's words after the read: the first sector, and behind it what does not depend on it. */
  lemma FirstSector(before: seq<uint16>, after: seq<uint16>, d: Disk, sector: nat, n: nat)
    requires 0 < n && sector < |d.sectors| && SECTOR_WORDS <= |after| && Ide.Filled(before, after, d, sector, n)
    ensures Words32(after) == Words32(d.sectors[sector]) + Words32(after[SECTOR_WORDS..])
  {
    hide Words32, Ide.Filled;
    Ide.ChunkFilled(before, after, d, sector, n, 0);
    FirstChunk(after);
    hide Ide.Chunk;
    Words32Front(d.sectors[sector], after[SECTOR_WORDS..]);
  }

  /** A directory whose records end before word 128 of its block is found through the driver: after the
      sectors are read into the buffer, the walk over it reads exactly the stored records. */
  lemma DirectoryThroughDriver(before: seq<uint16>, after: seq<uint16>, d: Disk, sector: nat, n: nat,
                               records: seq<Record>, tail: seq<uint32>)
    requires AllWritable(records) && AllLegible(records) && 0 < n && |Body(records)| < DIR_WORDS
    requires Begins(d, sector, records, tail)
    requires Ide.STRIDE <= |after| && Ide.Filled(before, after, d, sector, n)
    ensures Walk(Words32(after), 0, Listed(records))
  {
    var first, rest := Words32(d.sectors[sector]), Words32(after[SECTOR_WORDS..]);
    FirstSector(before, after, d, sector, n);
    CutBody(Body(records), tail, first);
    hide Words32, Body, Walk, Listed, AllLegible, Readable;
    CutReadable(first, |Body(records)|, rest);
    WalkEncoded([], records, first[|Body(records)|..] + rest);
  }

  lemma CutReadable(first: seq<uint32>, k: nat, rest: seq<uint32>)
    requires k < |first| && first[k] == 0 && |rest| >= 6
    ensures Readable(first[k..] + rest) && (first[k..] + rest)[0] == 0
    ensures [] + first[..k] + (first[k..] + rest) == first + rest
  {}

  lemma CutBody(body: seq<uint32>, tail: seq<uint32>, first: seq<uint32>)
    requires |body| < DIR_WORDS <= |body + [0, 0] + tail|
    requires first == (body + [0, 0] + tail)[..DIR_WORDS]
    ensures first[..|body|] == body && first[|body|] == 0
  {}

  /** The word at which record `k` begins, or the zero inode behind the last one. */
  function Place(records: seq<Record>, k: nat): int
    requires k <= |records|
  {
    if k == 0 then 0 else records[0].size / 4 + Place(records[1..], k - 1)
  }

  lemma {:induction false} LastPlace(records: seq<Record>)
    requires AllWritable(records)
    ensures Place(records, |records|) == |Body(records)|
  {
    if records != [] {
      LastPlace(records[1..]);
    }
  }

  /** The first place a walk comes to at or behind word 128. */
  lemma {:induction false} FirstPast(records: seq<Record>, from: nat) returns (k: nat)
    requires AllWritable(records) && AllLegible(records)
    requires from < DIR_WORDS + 63 && from + Place(records, |records|) >= DIR_WORDS
    ensures k <= |records| && DIR_WORDS <= from + Place(records, k) < DIR_WORDS + 63
    decreases |records|
  {
    if from >= DIR_WORDS {
      k := 0;
    } else {
      assert Legible(records[0]) && 0 <= records[0].size / 4 <= 63;
      AllSplit(records);
      var j := FirstPast(records[1..], from + records[0].size / 4);
      k := j + 1;
    }
  }

  lemma WalkOneRecord(dir: seq<uint32>, c: nat, records: seq<Record>)
    requires records != [] && Walk(dir, c, Listed(records))
    ensures records[0].size >= 0 && Walk(dir, c + records[0].size / 4, Listed(records[1..]))
  {
    assert Listed(records)[1..] == Listed(records[1..]);
  }

  /** A walk that reads the records comes to every place between them and finds there a zero inode
      exactly when there are no records left. */
  lemma {:induction false} StopsRight(dir: seq<uint32>, c: nat, records: seq<Record>, k: nat)
    requires k <= |records| && Walk(dir, c, Listed(records))
    ensures 0 <= c + Place(records, k) < |dir|
    ensures dir[c + Place(records, k)] % 0x100 == 0 <==> k == |records|
    decreases k
  {
    hide Walk, Listed;
    if k == 0 {
      StopsHere(dir, c, records);
    } else {
      WalkOneRecord(dir, c, records);
      StopsRight(dir, c + records[0].size / 4, records[1..], k - 1);
    }
  }

  lemma StopsHere(dir: seq<uint32>, c: nat, records: seq<Record>)
    requires Walk(dir, c, Listed(records))
    ensures c < |dir| && (dir[c] % 0x100 == 0 <==> records == [])
  {}

  /** Old contents that mislead the walk over a directory that is too long. */
  lemma Misled(d: Disk, sector: nat, n: nat, length: nat, records: seq<Record>)
    requires AllWritable(records) && AllLegible(records) && |Body(records)| >= DIR_WORDS && Ide.STRIDE <= length
    ensures !AlwaysRead(d, sector, n, length, records)
  {
    hide Walk, Body, Place, FilledBuffer, Words32, AllWritable, AllLegible, Listed;
    LastPlace(records);
    var k := FirstPast(records, 0);
    var v: uint16 := if k == |records| then 1 else 0;
    var before: seq<uint16> := seq(length, _ => v);
    var after := FilledBuffer(before, d, sector, n);
    FilledBy(before, d, sector, n);
    OldWord(before, d, sector, n, Place(records, k), v);
    NotRead(Words32(after), records, k);
  }

  /** No walk reads the records where one of their places holds the wrong inode. */
  lemma NotRead(dir: seq<uint32>, records: seq<Record>, k: nat)
    requires k <= |records| && 0 <= Place(records, k) < |dir|
    requires dir[Place(records, k)] % 0x100 == 0 <==> k != |records|
    ensures !Walk(dir, 0, Listed(records))
  {
    hide Walk, Listed, Place;
    if Walk(dir, 0, Listed(records)) {
      StopsRight(dir, 0, records, k);
    }
  }

  lemma OldPart(before: seq<uint16>, d: Disk, sector: nat, n: nat, j: nat)
    requires SECTOR_WORDS <= j < Ide.STRIDE <= |before|
    ensures |FilledBuffer(before, d, sector, n)| == |before| && FilledBuffer(before, d, sector, n)[j] == before[j]
  {
    assert j % Ide.STRIDE == j;
  }

  /** Between the first sector's words and byte 2048 the buffer is as before. */
  lemma OldWord(before: seq<uint16>, d: Disk, sector: nat, n: nat, p: nat, v: uint16)
    requires Ide.STRIDE <= |before| && DIR_WORDS <= p < DIR_WORDS + 63 && v < 0x100
    requires before[2 * p] == v
    ensures p < |Words32(FilledBuffer(before, d, sector, n))|
    ensures Words32(FilledBuffer(before, d, sector, n))[p] % 0x100 == v
  {
    var after := FilledBuffer(before, d, sector, n);
    OldPart(before, d, sector, n, 2 * p);
    hide FilledBuffer, Words32;
    Words32At(after, p);
    var high: nat := after[2 * p + 1];
    LowByte(v, 0x100 * high);
  }

  /** Whatever the buffer held before, a directory is read right through the driver if and only if its
      records end before word 128: the words that should follow are 2048 bytes further on. */
  lemma DirectoryReadIff(d: Disk, sector: nat, n: nat, length: nat, records: seq<Record>, tail: seq<uint32>)
    requires AllWritable(records) && AllLegible(records) && 0 < n && Ide.STRIDE <= length
    requires Begins(d, sector, records, tail)
    ensures AlwaysRead(d, sector, n, length, records) <==> |Body(records)| < DIR_WORDS
  {
    if |Body(records)| < DIR_WORDS {
      forall before, after | |before| == length && Ide.Filled(before, after, d, sector, n)
        ensures Walk(Words32(after), 0, Listed(records))
      {
        DirectoryThroughDriver(before, after, d, sector, n, records, tail);
      }
    } else {
      Misled(d, sector, n, length, records);
    }
  }

  /** ext2_find_in_dir's read and search, given the directory's block: when the sector addressed is
      delivered and a directory that ends in it begins there, what it answers is the last record of the
      name, or that there is none. */
  method FindThroughDriver(driver: Ide.Driver, drive: uint8, block: uint32, name: seq<uint8>, buffer: array<uint16>,
                           stale: uint8, error: uint8, ghost records: seq<Record>, ghost tail: seq<uint32>)
    returns (inode: uint32)
    requires driver.Valid() && Ide.Holds(DIR_SECTORS, buffer[..])
    requires var lba := Wrap32(2 * block);
             && Ide.CheckCode(driver.devices, drive, DIR_SECTORS, lba) == 0 && driver.devices[drive].kind.AtaDisk?
             && HoldsDirectory(driver.DiskOf(drive), Ide.SectorFor(driver.devices[drive], lba), records, tail)
    requires 0 !in name
    modifies driver`buses, driver`noIntr, buffer
    ensures driver.Valid() && FoundLast(records, name, inode)
  {
    var lba := Wrap32(2 * block);
    ghost var sector := Ide.SectorFor(driver.devices[drive], lba);
    ghost var before := buffer[..];
    StoredParts(records);
    var _ := driver.ReadSectors(drive, DIR_SECTORS, lba, buffer, stale, error);
    hide Words32, Walk, Listed, Body, EncodeAll, FoundLast, Ends, Entries;
    ReadFills(driver.DiskOf(drive), sector, before, buffer[..]);
    DirectoryThroughDriver(before, buffer[..], driver.DiskOf(drive), sector,
                           Ide.Readable(driver.DiskOf(drive), sector, DIR_SECTORS), records, tail);
    WalkIsEntries(Words32(buffer[..]), Listed(records));
    LastMatchExact(records, name);
    inode := FindInDir(Words32(buffer[..]), name);
  }

  /** A directory begins at a sector the device delivers, and its records end in it. */
  ghost predicate HoldsDirectory(d: Disk, sector: int, records: seq<Record>, tail: seq<uint32>) {
    && Ide.Clean(d, sector) && AllStorable(records)
    && (StoredParts(records); Begins(d, sector, records, tail) && |Body(records)| < DIR_WORDS)
  }

  lemma ReadFills(d: Disk, sector: int, before: seq<uint16>, after: seq<uint16>)
    requires Ide.Clean(d, sector)
    requires exists err :: Ide.Read(d, sector, DIR_SECTORS, before, after, err)
    ensures var k := Ide.Readable(d, sector, DIR_SECTORS);
            0 < k && Ide.Filled(before, after, d, sector, k)
  {}
}
