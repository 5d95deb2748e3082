/** Directory blocks of drivers/ext2/ext2.c: words into bytes, entries, and the walk by record length.
    Layout after "The Second Extended File System: Internal Layout", section "Linked List Directory". */
module Ext2Dir {
  import opened CTypes
  import opened CStrings

  const FILE_NOT_FOUND: uint32 := 0

  // ---- words and bytes --------------------------------------------------------------------------

  function ByteOf(w: uint32, k: nat): uint8
    requires k < 4
  {
    if k == 0 then w % 0x100
    else if k == 1 then w / 0x100 % 0x100
    else if k == 2 then w / 0x1_0000 % 0x100
    else w / 0x100_0000
  }

  /** The little-endian bytes of a run of words. */
  function Unpack(words: seq<uint32>): (r: seq<uint8>)
    ensures |r| == 4 * |words|
  {
    if words == [] then []
    else
      var w := words[0];
      [ByteOf(w, 0), ByteOf(w, 1), ByteOf(w, 2), ByteOf(w, 3)] + Unpack(words[1..])
  }

  function WordOf(a: int, b: int, c: int, d: int): int {
    a + 0x100 * b + 0x1_0000 * c + 0x100_0000 * d
  }

  function Pack(bytes: seq<uint8>): (r: seq<uint32>)
    requires |bytes| % 4 == 0
    ensures 4 * |r| == |bytes|
  {
    if bytes == [] then []
    else
      [WordOf(bytes[0], bytes[1], bytes[2], bytes[3])] + Pack(bytes[4..])
  }

  lemma {:induction false} UnpackAt(words: seq<uint32>, i: nat)
    requires i < 4 * |words|
    ensures Unpack(words)[i] == ByteOf(words[i / 4], i % 4)
  {
    if i >= 4 {
      assert (i - 4) / 4 == i / 4 - 1 && (i - 4) % 4 == i % 4;
      UnpackAt(words[1..], i - 4);
    }
  }

  lemma UnpackDigit(words: seq<uint32>, k: nat, j: nat)
    requires k < |words| && j < 4
    ensures Unpack(words)[4 * k + j] == ByteOf(words[k], j)
  {
    hide Unpack, ByteOf;
    FourParts(k, j);
    UnpackAt(words, 4 * k + j);
  }

  lemma FourParts(k: nat, j: nat)
    requires j < 4
    ensures (4 * k + j) / 4 == k && (4 * k + j) % 4 == j
  {}

  /** Little-endian: a word's bytes are its digits in base 256, the lowest first. */
  lemma LittleEndian(words: seq<uint32>, k: nat)
    requires k < |words|
    ensures var b := Unpack(words);
            words[k] == b[4 * k] + 256 * b[4 * k + 1] as int + 65536 * b[4 * k + 2] as int + 16777216 * b[4 * k + 3] as int
  {
    hide ByteOf, Unpack;
    UnpackDigit(words, k, 0);
    UnpackDigit(words, k, 1);
    UnpackDigit(words, k, 2);
    UnpackDigit(words, k, 3);
    WordOfBytes(words[k]);
  }

  lemma WordOfBytes(w: uint32)
    ensures WordOf(ByteOf(w, 0), ByteOf(w, 1), ByteOf(w, 2), ByteOf(w, 3)) == w
  {
    assert w / 0x1_0000 == w / 0x100 / 0x100 && w / 0x100_0000 == w / 0x1_0000 / 0x100;
  }

  lemma BytesOfWord(a: uint8, b: uint8, c: uint8, d: uint8)
    ensures var w := WordOf(a, b, c, d);
            ByteOf(w, 0) == a && ByteOf(w, 1) == b && ByteOf(w, 2) == c && ByteOf(w, 3) == d
  {
    var w := WordOf(a, b, c, d);
    assert w / 0x100 == b + 0x100 * c + 0x1_0000 * d;
    assert w / 0x1_0000 == c + 0x100 * d;
    assert w / 0x100_0000 == d;
  }

  /** Repacking whole words is the identity, and so is unpacking packed bytes. */
  lemma {:induction false} PackUnpacked(words: seq<uint32>)
    ensures Pack(Unpack(words)) == words
  {
    if words != [] {
      WordOfBytes(words[0]);
      assert Unpack(words)[4..] == Unpack(words[1..]);
      PackUnpacked(words[1..]);
    }
  }

  lemma {:induction false} UnpackPacked(bytes: seq<uint8>)
    requires |bytes| % 4 == 0
    ensures Unpack(Pack(bytes)) == bytes
  {
    if bytes != [] {
      var words := Pack(bytes);
      assert words[0] == WordOf(bytes[0], bytes[1], bytes[2], bytes[3]) && words[1..] == Pack(bytes[4..]);
      BytesOfWord(bytes[0], bytes[1], bytes[2], bytes[3]);
      UnpackPacked(bytes[4..]);
      hide ByteOf, WordOf, Pack;
      assert Unpack(words) == bytes[..4] + bytes[4..];
    }
  }

  /** getdata: the first `len` bytes of the words from `start` on, at the front of `data`. */
  method GetData(data: array<uint8>, len: nat, start: nat, from: seq<uint32>)
    requires len <= data.Length && start <= |from| && len <= 4 * (|from| - start)
    modifies data
    ensures data[..] == Unpack(from[start..])[..len] + old(data[len..])
  {
    ghost var bytes := Unpack(from[start..]);
    var i := 0;
    while i < len
      invariant i <= len
      invariant forall k :: 0 <= k < i ==> data[k] == bytes[k]
      invariant forall k :: i <= k < data.Length ==> data[k] == old(data[k])
    {
      UnpackFrom(from, start, i);
      // The four branches of the original differ in `index` alone.
      var index := i % 4;
      data[i] := ByteOf(from[i + start - index - 3 * (i / 4)], index);
      i := i + 1;
    }
  }

  /** Byte `i` from word `start` on, at the word index the code computes. */
  lemma UnpackFrom(from: seq<uint32>, start: nat, i: nat)
    requires start <= |from| && i < 4 * (|from| - start)
    ensures var at := i + start - i % 4 - 3 * (i / 4);
            0 <= at < |from| && Unpack(from[start..])[i] == ByteOf(from[at], i % 4)
  {
    UnpackAt(from[start..], i);
    assert i + start - i % 4 - 3 * (i / 4) == start + i / 4;
  }

  // ---- entries --------------------------------------------------------------------------------------

  datatype Dirent = Dirent(inode: nat, size: nat, name: seq<uint8>)

  /** The code keeps bits 16 to 19 of the second word as the name length. */
  function NameLength(w: uint32): nat {
    w / 0x1_0000 % 0x10
  }

  /** The words an entry at the front of `s` is read from are there. */
  predicate Readable(s: seq<uint32>) {
    |s| >= 2 && NameLength(s[1]) <= 4 * (|s| - 2)
  }

  function Decode(s: seq<uint32>): Dirent
    requires Readable(s)
  {
    Dirent(s[0] % 0x100, s[1] % 0x100, Unpack(s[2..])[..NameLength(s[1])])
  }

  /** ext2_read_dirent. */
  method ReadDirent(data: seq<uint32>, index: nat) returns (d: Dirent)
    requires index <= |data| && Readable(data[index..])
    ensures d == Decode(data[index..])
  {
    var inode := data[index] % 0x100;
    var size := data[index + 1] % 0x100;
    var nameLen := data[index + 1] / 0x1_0000 % 0x10;
    var name := new uint8[nameLen];
    GetData(name, nameLen, index + 2, data);
    assert data[index..][2..] == data[index + 2..];
    d := Dirent(inode, size, name[..]);
  }

  /** The walk by record length from word `curr` reads exactly `list` and ends at a zero inode. */
  ghost predicate Walk(dir: seq<uint32>, curr: nat, list: seq<Dirent>)
    decreases |list|
  {
    && curr <= |dir| && Readable(dir[curr..])
    && var d := Decode(dir[curr..]);
       if d.inode == 0 then list == []
       else list != [] && list[0] == d && Walk(dir, curr + d.size / 4, list[1..])
  }

  /** There is one such list at most. */
  lemma {:induction false} WalkUnique(dir: seq<uint32>, curr: nat, a: seq<Dirent>, b: seq<Dirent>)
    requires Walk(dir, curr, a) && Walk(dir, curr, b)
    ensures a == b
    decreases |a|
  {
    if a != [] {
      WalkUnique(dir, curr + a[0].size / 4, a[1..], b[1..]);
    }
  }

  // ---- how a walk goes on --------------------------------------------------------------------------

  /** The walk reads an entry at word `c` and does not stop there. */
  predicate Live(dir: seq<uint32>, c: nat) {
    c <= |dir| && Readable(dir[c..]) && Decode(dir[c..]).inode != 0
  }

  function Next(dir: seq<uint32>, c: nat): nat
    requires Live(dir, c)
  {
    c + Decode(dir[c..]).size / 4
  }

  /** The next `n` entries the walk reads do not stop it. */
  predicate Stays(dir: seq<uint32>, c: nat, n: nat)
    decreases n
  {
    n == 0 || (Live(dir, c) && Stays(dir, Next(dir, c), n - 1))
  }

  ghost predicate GoesOnForever(dir: seq<uint32>, c: nat) {
    forall n: nat :: Stays(dir, c, n)
  }

  ghost predicate ReadsSomeList(dir: seq<uint32>, c: nat) {
    exists list :: Walk(dir, c, list)
  }

  /** One of the next `n` entries is a live record shorter than a word. */
  predicate MeetsShort(dir: seq<uint32>, c: nat, n: nat)
    decreases n
  {
    n > 0 && Live(dir, c) && (Decode(dir[c..]).size < 4 || MeetsShort(dir, Next(dir, c), n - 1))
  }

  /** One of the next `n` entries is the zero inode. */
  predicate Ends(dir: seq<uint32>, c: nat, n: nat)
    decreases n
  {
    && n > 0 && c <= |dir| && Readable(dir[c..])
    && (Decode(dir[c..]).inode == 0 || Ends(dir, Next(dir, c), n - 1))
  }

  /** One of the next `n` entries is not in the words that are there. */
  predicate Leaves(dir: seq<uint32>, c: nat, n: nat)
    decreases n
  {
    && n > 0
    && (!(c <= |dir| && Readable(dir[c..])) || (Live(dir, c) && Leaves(dir, Next(dir, c), n - 1)))
  }

  /** The entries of a walk that ends. */
  function Entries(dir: seq<uint32>, c: nat, n: nat): seq<Dirent>
    requires Ends(dir, c, n)
    decreases n
  {
    var d := Decode(dir[c..]);
    if d.inode == 0 then [] else [d] + Entries(dir, Next(dir, c), n - 1)
  }

  /** A walk at a live record shorter than a word does not move, ... */
  lemma {:induction false} ShortStays(dir: seq<uint32>, c: nat, n: nat)
    requires Live(dir, c) && Decode(dir[c..]).size < 4
    ensures Stays(dir, c, n)
    decreases n
  {
    if n > 0 {
      ShortStays(dir, c, n - 1);
    }
  }

  /** ... so one that gets to such a record goes on for ever, ... */
  lemma {:induction false} MeetsShortStays(dir: seq<uint32>, c: nat, k: nat, n: nat)
    requires MeetsShort(dir, c, k)
    ensures Stays(dir, c, n)
    decreases n
  {
    if Decode(dir[c..]).size < 4 {
      ShortStays(dir, c, n);
    } else if n > 0 {
      MeetsShortStays(dir, Next(dir, c), k - 1, n - 1);
    }
  }

  /** ... and one that has made as many steps as there are words has met one. */
  lemma {:induction false} StaysMeetsShort(dir: seq<uint32>, c: nat, n: nat)
    requires Stays(dir, c, n) && n > 0 && n + c > |dir|
    ensures MeetsShort(dir, c, n)
    decreases n
  {
    if Decode(dir[c..]).size >= 4 {
      StaysMeetsShort(dir, Next(dir, c), n - 1);
    }
  }

  /** A walk that meets, now or later, a live record shorter than a word reads no finite list. */
  lemma {:induction false} ShortRecordNeverEnds(dir: seq<uint32>, c: nat, n: nat, list: seq<Dirent>)
    requires MeetsShort(dir, c, n)
    ensures !Walk(dir, c, list)
    decreases |list|
  {
    if list != [] {
      if Decode(dir[c..]).size < 4 {
        ShortRecordNeverEnds(dir, c, n, list[1..]);
      } else {
        ShortRecordNeverEnds(dir, Next(dir, c), n - 1, list[1..]);
      }
    }
  }

  lemma {:induction false} EntriesWalk(dir: seq<uint32>, c: nat, n: nat)
    requires Ends(dir, c, n)
    ensures Walk(dir, c, Entries(dir, c, n))
    decreases n
  {
    if Decode(dir[c..]).inode != 0 {
      EntriesWalk(dir, Next(dir, c), n - 1);
      WalkBack(dir, c, Entries(dir, Next(dir, c), n - 1));
    }
  }

  /** A walk takes one of three ways, ... */
  lemma {:induction false} SomeOutcome(dir: seq<uint32>, c: nat, n: nat)
    requires n > 0 && n + c > |dir|
    ensures Ends(dir, c, n) || MeetsShort(dir, c, n) || Leaves(dir, c, n)
    decreases n
  {
    if Live(dir, c) && Decode(dir[c..]).size >= 4 {
      SomeOutcome(dir, Next(dir, c), n - 1);
    }
  }

  lemma {:induction false} LeavesNotStays(dir: seq<uint32>, c: nat, n: nat)
    requires Leaves(dir, c, n)
    ensures !Stays(dir, c, n) && !Ends(dir, c, n)
    decreases n
  {
    if Live(dir, c) {
      LeavesNotStays(dir, Next(dir, c), n - 1);
    }
  }

  lemma {:induction false} LeavesNeverEnds(dir: seq<uint32>, c: nat, n: nat, list: seq<Dirent>)
    requires Leaves(dir, c, n)
    ensures !Walk(dir, c, list)
    decreases |list|
  {
    if list != [] && Live(dir, c) {
      LeavesNeverEnds(dir, Next(dir, c), n - 1, list[1..]);
    }
  }

  lemma WalkedEnds(dir: seq<uint32>, c: nat, list: seq<Dirent>)
    requires Walk(dir, c, list)
    ensures Ends(dir, c, |dir| + 1)
  {
    var n := |dir| + 1;
    hide Ends, Leaves, MeetsShort, Walk;
    SomeOutcome(dir, c, n);
    if MeetsShort(dir, c, n) {
      ShortRecordNeverEnds(dir, c, n, list);
    } else if Leaves(dir, c, n) {
      LeavesNeverEnds(dir, c, n, list);
    }
  }

  /** ... which as many steps as there are words decide: it ends, at a zero inode; or it meets a live
      record shorter than a word, and that is exactly when it goes on for ever; or it leaves the words. */
  lemma WalkOutcome(dir: seq<uint32>, c: nat)
    ensures var n := |dir| + 1;
            && (Ends(dir, c, n) <==> ReadsSomeList(dir, c))
            && (MeetsShort(dir, c, n) <==> GoesOnForever(dir, c))
            && (Leaves(dir, c, n) <==> !Ends(dir, c, n) && !MeetsShort(dir, c, n))
            && !(Ends(dir, c, n) && MeetsShort(dir, c, n))
  {
    var n := |dir| + 1;
    hide Ends, Leaves, MeetsShort, Walk, Stays;
    SomeOutcome(dir, c, n);
    EndsIff(dir, c);
    ForeverIff(dir, c);
    if Ends(dir, c, n) && MeetsShort(dir, c, n) {
      EntriesWalk(dir, c, n);
      ShortRecordNeverEnds(dir, c, n, Entries(dir, c, n));
    }
    if Leaves(dir, c, n) {
      LeavesNotStays(dir, c, n);
      if MeetsShort(dir, c, n) {
        MeetsShortStays(dir, c, n, n);
      }
    }
  }

  lemma EndsIff(dir: seq<uint32>, c: nat)
    ensures Ends(dir, c, |dir| + 1) <==> ReadsSomeList(dir, c)
  {
    if Ends(dir, c, |dir| + 1) {
      EntriesWalk(dir, c, |dir| + 1);
    }
    if ReadsSomeList(dir, c) {
      var list :| Walk(dir, c, list);
      WalkedEnds(dir, c, list);
    }
  }

  lemma ForeverIff(dir: seq<uint32>, c: nat)
    ensures MeetsShort(dir, c, |dir| + 1) <==> GoesOnForever(dir, c)
  {
    if MeetsShort(dir, c, |dir| + 1) {
      forall k: nat ensures Stays(dir, c, k) {
        MeetsShortStays(dir, c, |dir| + 1, k);
      }
    }
    if GoesOnForever(dir, c) {
      StaysMeetsShort(dir, c, |dir| + 1);
    }
  }

  // ---- the search ------------------------------------------------------------------------------------

  /** The inode of the last entry of that name, as C strings compare. */
  function LastMatch(entries: seq<Dirent>, name: seq<uint8>): int {
    if entries == [] then FILE_NOT_FOUND
    else
      var e := entries[|entries| - 1];
      if CStr(e.name + [0]) == CStr(name + [0]) then e.inode else LastMatch(entries[..|entries| - 1], name)
  }

  /** The comparison in the loop of ext2_find_in_dir: a later entry of the same name replaces the
      inode found so far. */
  method Consider(entry: Dirent, name: seq<uint8>, found: uint32, ghost seen: seq<Dirent>) returns (inode: uint32)
    requires found == LastMatch(seen, name) && entry.inode < 0x100
    ensures inode == LastMatch(seen + [entry], name)
  {
    MatchStep(seen, entry, name);
    var differs := StrCmp(entry.name + [0], name + [0]);
    inode := if differs == 0 then entry.inode else found;
  }

  /** ext2_find_in_dir on the words of a directory; a walk that does not end is no call that returns. */
  method FindInDir(dir: seq<uint32>, name: seq<uint8>) returns (inode: uint32)
    requires Ends(dir, 0, |dir| + 1)
    ensures inode == LastMatch(Entries(dir, 0, |dir| + 1), name)
  {
    hide Entries, Ends;
    ghost var list := Entries(dir, 0, |dir| + 1);
    EntriesWalk(dir, 0, |dir| + 1);
    inode := FILE_NOT_FOUND;
    var curr := 0;
    ghost var k := 0;
    assert list[0..] == list;
    while true
      invariant 0 <= curr && 0 <= k <= |list|
      invariant Walk(dir, curr, list[k..])
      invariant inode == LastMatch(list[..k], name)
      decreases |list| - k
    {
      WalkFront(dir, curr, list, k);
      var entry := ReadDirent(dir, curr);
      if entry.inode == 0 {
        break;
      }
      inode := Consider(entry, name, inode, list[..k]);
      curr := curr + entry.size / 4;
      k := k + 1;
    }
    assert list[..k] == list;
  }

  lemma WalkFront(dir: seq<uint32>, curr: nat, list: seq<Dirent>, k: nat)
    requires k <= |list| && Walk(dir, curr, list[k..])
    ensures curr <= |dir| && Readable(dir[curr..])
    ensures var d := Decode(dir[curr..]);
            if d.inode == 0 then k == |list|
            else
              && k < |list| && list[k] == d && list[..k + 1] == list[..k] + [d]
              && Walk(dir, curr + d.size / 4, list[k + 1..])
  {}

  lemma MatchStep(seen: seq<Dirent>, e: Dirent, name: seq<uint8>)
    ensures LastMatch(seen + [e], name)
            == if CStr(e.name + [0]) == CStr(name + [0]) then e.inode else LastMatch(seen, name)
  {}

  // ---- round trip -------------------------------------------------------------------------------------

  /** An entry on disk: record length and file type beside inode and name. */
  datatype Record = Record(inode: nat, size: nat, kind: uint8, name: seq<uint8>)

  /** What the format has room for. */
  predicate Writable(r: Record) {
    && r.inode < 0x1_0000_0000 && |r.name| < 0x100
    && r.size % 4 == 0 && 8 + |r.name| <= r.size < 0x1_0000
  }

  /** What the driver's masks keep whole. */
  predicate Kept(r: Record) {
    r.inode < 0x100 && r.size < 0x100 && |r.name| < 0x10
  }

  predicate Storable(r: Record) {
    Writable(r) && Kept(r) && r.inode != 0 && r.name != [] && 0 !in r.name
  }

  function Zeros(n: nat): seq<uint8> {
    seq(n, _ => 0)
  }

  /** The words of one record: inode, packed lengths and type, and the padded name. */
  function Encode(r: Record): (s: seq<uint32>)
    requires Writable(r)
    ensures 4 * |s| == r.size
  {
    SecondWord(r.size, |r.name|, r.kind);
    [r.inode, LengthWord(r)] + Pack(r.name + Zeros(r.size - 8 - |r.name|))
  }

  function LengthWord(r: Record): int {
    r.size + 0x1_0000 * |r.name| + 0x100_0000 * r.kind
  }

  predicate AllWritable(records: seq<Record>) {
    forall i :: 0 <= i < |records| ==> Writable(records[i])
  }

  predicate AllStorable(records: seq<Record>) {
    forall i :: 0 <= i < |records| ==> Storable(records[i])
  }

  /** The walk reads the record, and reads it right. */
  predicate Legible(r: Record) {
    Kept(r) && r.inode != 0
  }

  predicate AllLegible(records: seq<Record>) {
    forall i :: 0 <= i < |records| ==> Legible(records[i])
  }

  function Body(records: seq<Record>): seq<uint32>
    requires AllWritable(records)
  {
    if records == [] then [] else Encode(records[0]) + Body(records[1..])
  }

  /** A directory: its records and a zero inode. */
  function EncodeAll(records: seq<Record>): seq<uint32>
    requires AllWritable(records)
  {
    Body(records) + [0, 0]
  }

  function AsDirent(r: Record): Dirent {
    Dirent(r.inode, r.size, r.name)
  }

  function Listed(records: seq<Record>): seq<Dirent> {
    if records == [] then [] else [AsDirent(records[0])] + Listed(records[1..])
  }

  /** What the driver's masks leave of a record: the low bytes of inode and length, and as much of the
      name as the low four bits of its length say. */
  function Masked(r: Record): Dirent {
    Dirent(r.inode % 0x100, r.size % 0x100, r.name[..|r.name| % 0x10])
  }

  /** That is what it reads where the record is written, whatever follows. */
  lemma DecodeEncoded(r: Record, rest: seq<uint32>)
    requires Writable(r)
    ensures Readable(Encode(r) + rest)
    ensures Decode(Encode(r) + rest) == Masked(r)
  {
    var s := Encode(r) + rest;
    SecondWord(r.size, |r.name|, r.kind);
    assert s[0] == r.inode && s[1] == LengthWord(r);
    assert s[2..] == Encode(r)[2..] + rest;
    NameDecoded(r, rest, |r.name| % 0x10);
  }

  /** So a record is read as it was written exactly when the masks keep it whole. */
  lemma DecodeExact(r: Record, rest: seq<uint32>)
    requires Writable(r)
    ensures Readable(Encode(r) + rest)
    ensures Decode(Encode(r) + rest) == AsDirent(r) <==> Kept(r)
  {
    hide Decode, Readable, Encode;
    DecodeEncoded(r, rest);
    if |r.name| >= 0x10 {
      assert |Masked(r).name| < |r.name|;
    } else {
      assert r.name[..|r.name|] == r.name;
    }
  }

  lemma NameDecoded(r: Record, rest: seq<uint32>, k: nat)
    requires Writable(r) && k <= |r.name|
    ensures k <= |Unpack(Encode(r)[2..] + rest)| && Unpack(Encode(r)[2..] + rest)[..k] == r.name[..k]
  {
    var zeros := Zeros(r.size - 8 - |r.name|);
    NameWords(r);
    hide Encode, Unpack, Pack, Zeros;
    UnpackPacked(r.name + zeros);
    UnpackFront(Pack(r.name + zeros), rest);
    Front(r.name, zeros, Unpack(rest), k);
  }

  lemma NameWords(r: Record)
    requires Writable(r)
    ensures Encode(r)[2..] == Pack(r.name + Zeros(r.size - 8 - |r.name|))
  {}

  lemma Front(a: seq<uint8>, b: seq<uint8>, c: seq<uint8>, k: nat)
    requires k <= |a|
    ensures (a + b + c)[..k] == a[..k]
  {}

  lemma SecondWord(size: nat, len: nat, kind: uint8)
    requires size < 0x1_0000 && len < 0x100
    ensures var w := size + 0x1_0000 * len + 0x100_0000 * kind;
            w < 0x1_0000_0000 && w % 0x100 == size % 0x100 && NameLength(w) == len % 0x10
  {
    LowByte(size % 0x100, size / 0x100 + 0x100 * len + 0x1_0000 * kind);
    HighHalf(size, len + 0x100 * kind);
    LowBits(len % 0x10, len / 0x10 + 0x10 * kind);
  }

  lemma LowByte(low: nat, high: nat)
    requires low < 0x100
    ensures (low + 0x100 * high) % 0x100 == low
  {}

  lemma HighHalf(low: nat, high: nat)
    requires low < 0x1_0000
    ensures (low + 0x1_0000 * high) / 0x1_0000 == high
  {}

  lemma LowBits(low: nat, high: nat)
    requires low < 0x10
    ensures (low + 0x10 * high) % 0x10 == low
  {}

  lemma {:induction false} UnpackFront(a: seq<uint32>, b: seq<uint32>)
    ensures Unpack(a + b) == Unpack(a) + Unpack(b)
  {
    if a == [] {
      assert a + b == b;
    } else {
      assert (a + b)[1..] == a[1..] + b;
      UnpackFront(a[1..], b);
    }
  }

  /** Walking what any list of records is written as, wherever it starts and whatever follows, up to a
      zero inode, reads exactly that list if and only if every record is live and kept whole. */
  lemma {:induction false} WalkEncoded(before: seq<uint32>, records: seq<Record>, more: seq<uint32>)
    requires AllWritable(records) && Readable(more) && more[0] % 0x100 == 0
    ensures Walk(before + Body(records) + more, |before|, Listed(records)) <==> AllLegible(records)
    decreases |records|
  {
    if records == [] {
      assert before + [] + more == before + more && (before + more)[|before|..] == more;
    } else {
      var r, rest := records[0], records[1..];
      WalkEncoded(before + Encode(r), rest, more);
      WalkRecord(before, r, Body(rest), more, Listed(rest));
      AllSplit(records);
    }
  }

  lemma AllSplit(records: seq<Record>)
    requires records != []
    ensures AllLegible(records) <==> Legible(records[0]) && AllLegible(records[1..])
  {
    assert forall i :: 0 <= i < |records[1..]| ==> records[1..][i] == records[i + 1];
    if Legible(records[0]) && AllLegible(records[1..]) {
      forall i | 0 <= i < |records| ensures Legible(records[i]) {
        if i > 0 {
          assert records[i] == records[1..][i - 1];
        }
      }
    }
  }

  lemma WalkRecord(before: seq<uint32>, r: Record, body: seq<uint32>, more: seq<uint32>, list: seq<Dirent>)
    requires Writable(r)
    ensures Walk(before + (Encode(r) + body) + more, |before|, [AsDirent(r)] + list)
            <==> Legible(r) && Walk(before + Encode(r) + body + more, |before + Encode(r)|, list)
  {
    hide Decode, Readable, Encode, Writable;
    DecodeExact(r, body + more);
    DecodeEncoded(r, body + more);
    RegroupInner(before, Encode(r), body, more);
    WalkFirst(before + (Encode(r) + body) + more, |before|, AsDirent(r), list);
  }

  lemma RegroupInner(a: seq<uint32>, b: seq<uint32>, c: seq<uint32>, d: seq<uint32>)
    ensures a + b + c + d == a + (b + c) + d
    ensures (a + (b + c) + d)[|a|..] == b + (c + d)
  {}

  lemma WalkFirst(dir: seq<uint32>, c: nat, d: Dirent, list: seq<Dirent>)
    requires c <= |dir| && Readable(dir[c..])
    ensures Walk(dir, c, [d] + list)
            <==> Decode(dir[c..]) == d && d.inode != 0 && Walk(dir, c + d.size / 4, list)
  {
    assert ([d] + list)[1..] == list;
  }

  /** The walk cannot get past a record whose length is a multiple of 256, though the format allows it. */
  lemma LongRecordStays(before: seq<uint32>, r: Record, more: seq<uint32>)
    requires Writable(r)
    ensures var dir := before + Encode(r) + more;
            Live(dir, |before|) && Decode(dir[|before|..]).size < 4 <==> r.inode % 0x100 != 0 && r.size % 0x100 == 0
  {
    hide Decode, Readable, Encode;
    DecodeEncoded(r, more);
    assert (before + Encode(r) + more)[|before|..] == Encode(r) + more;
    FourDivides(r.size);
  }

  lemma FourDivides(size: nat)
    requires size % 4 == 0
    ensures size % 0x100 < 4 <==> size % 0x100 == 0
  {}

  /** A directory of "." and a record of 256 bytes, whatever follows them: the walk reads the first,
      gets to the second and never ends. */
  lemma LongRecordNeverEnds(more: seq<uint32>)
    ensures var (dot, long) := (Record(2, 12, 2, [46]), Record(11, 256, 2, [97]));
            var dir := Encode(dot) + Encode(long) + more;
            MeetsShort(dir, 0, 2) && GoesOnForever(dir, 0) && !ReadsSomeList(dir, 0)
  {
    var (dot, long) := (Record(2, 12, 2, [46]), Record(11, 256, 2, [97]));
    var dir := Encode(dot) + Encode(long) + more;
    LongRecordStays(Encode(dot), long, more);
    DecodeEncoded(dot, Encode(long) + more);
    Regroup(Encode(dot), Encode(long), more);
    assert dir[0..] == dir;
    hide Decode, Readable, Encode;
    assert Live(dir, 0) && Next(dir, 0) == 3 == |Encode(dot)|;
    assert MeetsShort(dir, 3, 1);
    forall n: nat ensures Stays(dir, 0, n) {
      MeetsShortStays(dir, 0, 2, n);
    }
    forall list ensures !Walk(dir, 0, list) {
      ShortRecordNeverEnds(dir, 0, 2, list);
    }
  }

  lemma WalkBack(dir: seq<uint32>, curr: nat, list: seq<Dirent>)
    requires curr <= |dir| && Readable(dir[curr..])
    requires var d := Decode(dir[curr..]);
             d.inode != 0 && Walk(dir, curr + d.size / 4, list)
    ensures Walk(dir, curr, [Decode(dir[curr..])] + list)
  {
    assert ([Decode(dir[curr..])] + list)[1..] == list;
  }

  lemma NoNul(s: seq<uint8>)
    requires 0 !in s
    ensures CStr(s + [0]) == s
  {}

  lemma LastStep(front: seq<Dirent>, e: Dirent, name: seq<uint8>)
    requires 0 !in e.name && 0 !in name
    ensures LastMatch(front + [e], name) == if e.name == name then e.inode else LastMatch(front, name)
  {
    MatchStep(front, e, name);
    NoNul(e.name);
    NoNul(name);
  }

  ghost predicate LastNamed(records: seq<Record>, name: seq<uint8>, i: nat)
    requires i < |records|
  {
    records[i].name == name && forall j :: i < j < |records| ==> records[j].name != name
  }

  /** `inode` is that of the last record with exactly that name, and FILE_NOT_FOUND exactly when there
      is none. */
  ghost predicate FoundLast(records: seq<Record>, name: seq<uint8>, inode: int) {
    && (inode == FILE_NOT_FOUND <==> forall i :: 0 <= i < |records| ==> records[i].name != name)
    && forall i :: 0 <= i < |records| && LastNamed(records, name, i) ==> inode == records[i].inode
  }

  lemma FoundStep(records: seq<Record>, name: seq<uint8>, before: int, inode: int)
    requires records != [] && records[|records| - 1].inode != FILE_NOT_FOUND
    requires var n := |records| - 1;
             && FoundLast(records[..n], name, before)
             && inode == if records[n].name == name then records[n].inode else before
    ensures FoundLast(records, name, inode)
  {
    var n := |records| - 1;
    var front := records[..n];
    assert forall i :: 0 <= i < n ==> records[i] == front[i];
    forall i | 0 <= i < |records| && LastNamed(records, name, i) ensures inode == records[i].inode {
      if i < n {
        assert LastNamed(front, name, i);
      }
    }
  }

  /** For records on disk that is what the walk's result is. */
  lemma {:induction false} LastMatchExact(records: seq<Record>, name: seq<uint8>)
    requires AllStorable(records) && 0 !in name
    ensures FoundLast(records, name, LastMatch(Listed(records), name))
  {
    if records != [] {
      var n := |records| - 1;
      var front := records[..n];
      ListedLast(records);
      LastStep(Listed(front), AsDirent(records[n]), name);
      LastMatchExact(front, name);
      FoundStep(records, name, LastMatch(Listed(front), name), LastMatch(Listed(records), name));
    }
  }

  lemma StoredParts(records: seq<Record>)
    requires AllStorable(records)
    ensures AllWritable(records) && AllLegible(records)
  {
    forall i | 0 <= i < |records| ensures Writable(records[i]) && Legible(records[i]) {
      assert Storable(records[i]);
    }
  }

  /** A walk that reads `list` ends, and `list` is its entries. */
  lemma WalkIsEntries(dir: seq<uint32>, list: seq<Dirent>)
    requires Walk(dir, 0, list)
    ensures Ends(dir, 0, |dir| + 1) && Entries(dir, 0, |dir| + 1) == list
  {
    hide Ends, Entries, Walk;
    WalkedEnds(dir, 0, list);
    EntriesWalk(dir, 0, |dir| + 1);
    WalkUnique(dir, 0, list, Entries(dir, 0, |dir| + 1));
  }

  /** Stored directories are searched right: ext2_find_in_dir on the encoding of any list of records,
      whatever follows it, finds the last record of the name or reports that there is none. */
  method FindStored(records: seq<Record>, tail: seq<uint32>, name: seq<uint8>) returns (inode: uint32)
    requires AllStorable(records) && 0 !in name
    ensures FoundLast(records, name, inode)
  {
    StoredParts(records);
    StoredWalk(records, tail);
    hide EncodeAll, Body, Listed, LastMatch, Walk, FoundLast, Entries, Ends;
    WalkIsEntries(EncodeAll(records) + tail, Listed(records));
    LastMatchExact(records, name);
    inode := FindInDir(EncodeAll(records) + tail, name);
  }

  lemma StoredWalk(records: seq<Record>, tail: seq<uint32>)
    requires AllWritable(records) && AllLegible(records)
    ensures Walk(EncodeAll(records) + tail, 0, Listed(records))
  {
    var more := [0, 0] + tail;
    assert Readable(more) && EncodeAll(records) == Body(records) + [0, 0];
    hide Body, EncodeAll, Walk, Listed, AllLegible, AllWritable, Readable;
    WalkEncoded([], records, more);
    FromStart(Body(records), [0, 0], tail);
  }

  lemma FromStart(a: seq<uint32>, b: seq<uint32>, c: seq<uint32>)
    ensures [] + a + (b + c) == a + b + c
  {}

  lemma {:induction false} ListedLast(records: seq<Record>)
    requires records != []
    ensures var n := |records| - 1;
            Listed(records) == Listed(records[..n]) + [AsDirent(records[n])]
  {
    var n := |records| - 1;
    if n > 0 {
      ListedLast(records[1..]);
      assert records[1..][..n - 1] == records[..n][1..];
    }
  }
}
