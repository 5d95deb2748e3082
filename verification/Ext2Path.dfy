/** ext2_path_to_inode of drivers/ext2/ext2.c: a fold of directory lookups over a path's names. */
module Ext2Path {
  import opened CTypes

  const SLASH: uint8 := 47
  const ROOT: uint32 := 2

  type Lookup = (uint32, seq<uint8>) -> uint32

  /** The pieces of `s` between slashes. */
  function Split(s: seq<uint8>): (r: seq<seq<uint8>>)
    ensures r != []
  {
    if s == [] then [[]]
    else
      var rest := Split(s[1..]);
      if s[0] == SLASH then [[]] + rest else [[s[0]] + rest[0]] + rest[1..]
  }

  /** The pieces, but for an empty last one. */
  function Names(s: seq<uint8>): seq<seq<uint8>> {
    var pieces := Split(s);
    if pieces[|pieces| - 1] == [] then pieces[..|pieces| - 1] else pieces
  }

  /** The names of a path: those after its first slash. */
  function PathNames(path: seq<uint8>): seq<seq<uint8>> {
    if path == [] then []
    else if path[0] == SLASH then Names(path[1..])
    else PathNames(path[1..])
  }

  /** Looking the names up one inside the other. */
  function Descend(lookup: Lookup, inode: uint32, names: seq<seq<uint8>>): uint32
    decreases |names|
  {
    if names == [] then inode else Descend(lookup, lookup(inode, names[0]), names[1..])
  }

  lemma {:induction false} SplitAt(a: seq<uint8>, b: seq<uint8>)
    requires SLASH !in a
    ensures Split(a + [SLASH] + b) == [a] + Split(b)
  {
    var s := a + [SLASH] + b;
    if a == [] {
      assert s[1..] == b;
    } else {
      assert s[1..] == a[1..] + [SLASH] + b && a[0] in a && a == [a[0]] + a[1..];
      SplitAt(a[1..], b);
    }
  }

  lemma {:induction false} SplitNone(a: seq<uint8>)
    requires SLASH !in a
    ensures Split(a) == [a]
  {
    if a != [] {
      assert a[0] in a && a == [a[0]] + a[1..];
      SplitNone(a[1..]);
    }
  }

  lemma NamesAt(a: seq<uint8>, b: seq<uint8>)
    requires SLASH !in a
    ensures Names(a + [SLASH] + b) == [a] + Names(b)
  {
    SplitAt(a, b);
  }

  lemma NamesNone(a: seq<uint8>)
    requires SLASH !in a
    ensures Names(a) == if a == [] then [] else [a]
  {
    SplitNone(a);
  }

  lemma {:induction false} PathNamesAt(a: seq<uint8>, b: seq<uint8>)
    requires SLASH !in a
    ensures PathNames(a + [SLASH] + b) == Names(b)
  {
    var s := a + [SLASH] + b;
    if a == [] {
      assert s[1..] == b;
    } else {
      assert s[1..] == a[1..] + [SLASH] + b && a[0] in a;
      PathNamesAt(a[1..], b);
    }
  }

  lemma {:induction false} PathNamesNone(a: seq<uint8>)
    requires SLASH !in a
    ensures PathNames(a) == []
  {
    if a != [] {
      PathNamesNone(a[1..]);
    }
  }

  /** The names the scan closes from position `i` on: `start` is the last slash seen, and the last
      character closes its name unless it is a slash itself. */
  function Closed(path: seq<uint8>, i: nat, found: bool, start: nat): seq<seq<uint8>>
    requires i <= |path| && (found ==> start < i)
    decreases |path| - i
  {
    if i == |path| then []
    else if path[i] == SLASH then
      (if found then [path[start + 1..i]] else []) + Closed(path, i + 1, true, i)
    else if i == |path| - 1 && found then [path[start + 1..]]
    else Closed(path, i + 1, found, start)
  }

  lemma {:induction false} ClosedInName(path: seq<uint8>, i: nat, start: nat)
    requires start < i <= |path| && SLASH !in path[start + 1..i] && (i == |path| ==> start == i - 1)
    ensures Closed(path, i, true, start) == Names(path[start + 1..])
    decreases |path| - i
  {
    if i == |path| {
      NamesNone([]);
    } else if path[i] == SLASH {
      assert path[start + 1..] == path[start + 1..i] + [SLASH] + path[i + 1..];
      NamesAt(path[start + 1..i], path[i + 1..]);
      ClosedInName(path, i + 1, i);
    } else {
      assert path[start + 1..i + 1] == path[start + 1..i] + [path[i]];
      if i == |path| - 1 {
        assert path[start + 1..] == path[start + 1..i + 1];
        NamesNone(path[start + 1..]);
      } else {
        ClosedInName(path, i + 1, start);
      }
    }
  }

  lemma {:induction false} ClosedBefore(path: seq<uint8>, i: nat)
    requires i <= |path| && SLASH !in path[..i]
    ensures Closed(path, i, false, 0) == PathNames(path)
    decreases |path| - i
  {
    if i == |path| {
      assert path[..i] == path;
      PathNamesNone(path);
    } else if path[i] == SLASH {
      assert path == path[..i] + [SLASH] + path[i + 1..];
      PathNamesAt(path[..i], path[i + 1..]);
      ClosedInName(path, i + 1, i);
    } else {
      assert path[..i + 1] == path[..i] + [path[i]];
      ClosedBefore(path, i + 1);
    }
  }

  lemma DescendFirst(lookup: Lookup, inode: uint32, name: seq<uint8>, rest: seq<seq<uint8>>)
    ensures Descend(lookup, inode, [name] + rest) == Descend(lookup, lookup(inode, name), rest)
  {}

  /** ext2_path_to_inode, with the directory lookup as a parameter: for every path and every lookup,
      the fold of the lookup from the root over the path's names. */
  method PathToInode(path: seq<uint8>, lookup: Lookup) returns (lastInode: uint32)
    ensures lastInode == Descend(lookup, ROOT, PathNames(path))
  {
    ClosedBefore(path, 0);
    lastInode := ROOT;
    if path == [SLASH] {
      return;
    }
    var i, found, start, end := 0, false, 0, 0;
    ghost var goal := Descend(lookup, ROOT, PathNames(path));
    while i < |path|
      invariant 0 <= start && 0 <= i <= |path| && (found ==> start < i) && (!found ==> start == 0)
      invariant Descend(lookup, lastInode, Closed(path, i, found, start)) == goal
    {
      if path[i] == SLASH && !found {
        assert [] + Closed(path, i + 1, true, i) == Closed(path, i + 1, true, i);
        start := i;
        found := true;
      } else if path[i] == SLASH && found {
        end := i;
        var name := path[start + 1..end];
        DescendFirst(lookup, lastInode, name, Closed(path, i + 1, true, i));
        start := end;
        lastInode := lookup(lastInode, name);
      } else if i == |path| - 1 && found {
        end := i;
        var name := path[start + 1..end + 1];
        assert name == path[start + 1..] && [name] + [] == [name];
        DescendFirst(lookup, lastInode, name, []);
        start := end - 1;
        lastInode := lookup(lastInode, name);
      }
      i := i + 1;
    }
  }

  /** The lookups are nested in the order of the names: the last name is looked up in what the others
      lead to. */
  lemma {:induction false} DescendLast(lookup: Lookup, inode: uint32, names: seq<seq<uint8>>, name: seq<uint8>)
    ensures Descend(lookup, inode, []) == inode
    ensures Descend(lookup, inode, names + [name]) == lookup(Descend(lookup, inode, names), name)
    decreases |names|
  {
    if names == [] {
      assert [] + [name] == [name] && [name][1..] == [];
    } else {
      assert (names + [name])[1..] == names[1..] + [name];
      DescendLast(lookup, lookup(inode, names[0]), names[1..], name);
    }
  }

  // ---- round trip -----------------------------------------------------------------------------------

  function Join(names: seq<seq<uint8>>): seq<uint8> {
    if names == [] then [] else [SLASH] + names[0] + Join(names[1..])
  }

  /** Slash-free names, of which only the last must not be empty. */
  predicate Plain(names: seq<seq<uint8>>) {
    && (forall i :: 0 <= i < |names| ==> SLASH !in names[i])
    && (names != [] ==> names[|names| - 1] != [])
  }

  lemma JoinFirst(names: seq<seq<uint8>>, end: seq<uint8>)
    requires names != []
    ensures Join(names) + end == [SLASH] + (names[0] + (Join(names[1..]) + end))
  {}

  lemma NamesOne(name: seq<uint8>, end: seq<uint8>)
    requires SLASH !in name && name != [] && (end == [] || end == [SLASH])
    ensures Names(name + end) == [name]
  {
    if end == [] {
      assert name + end == name;
      NamesNone(name);
    } else {
      assert name + end == name + [SLASH] + [];
      NamesAt(name, []);
      NamesNone([]);
    }
  }

  lemma {:induction false} NamesJoined(first: seq<uint8>, rest: seq<seq<uint8>>, end: seq<uint8>)
    requires SLASH !in first && Plain(rest) && (rest == [] ==> first != []) && (end == [] || end == [SLASH])
    ensures Names(first + (Join(rest) + end)) == [first] + rest
    decreases |rest|
  {
    hide Names, Join;
    if rest == [] {
      JoinNone(end);
      NamesOne(first, end);
    } else {
      var tail := rest[0] + (Join(rest[1..]) + end);
      JoinFirst(rest, end);
      NamesJoined(rest[0], rest[1..], end);
      Regroup(first, [SLASH], tail);
      NamesAt(first, tail);
      assert [rest[0]] + rest[1..] == rest;
    }
  }

  lemma JoinNone(end: seq<uint8>)
    ensures Join([]) + end == end
  {}

  /** The names of a path are what is between its slashes, whatever stands before the first one; a slash
      at the end adds none, and slashes in a row give empty names. */
  lemma PathParses(before: seq<uint8>, names: seq<seq<uint8>>, end: seq<uint8>)
    requires SLASH !in before && Plain(names) && (end == [] || end == [SLASH])
    ensures PathNames(before + (Join(names) + end)) == names
  {
    hide Names, Join, PathNames;
    if names == [] {
      JoinNone(end);
      PathNoNames(before, end);
    } else {
      var tail := names[0] + (Join(names[1..]) + end);
      JoinFirst(names, end);
      NamesJoined(names[0], names[1..], end);
      Regroup(before, [SLASH], tail);
      PathNamesAt(before, tail);
      assert [names[0]] + names[1..] == names;
    }
  }

  lemma PathNoNames(before: seq<uint8>, end: seq<uint8>)
    requires SLASH !in before && (end == [] || end == [SLASH])
    ensures PathNames(before + end) == []
  {
    hide PathNames, Names;
    if end == [] {
      assert before + end == before;
      PathNamesNone(before);
    } else {
      assert before + end == before + [SLASH] + [];
      PathNamesAt(before, []);
      NamesNone([]);
    }
  }

  /** Joining nonempty slash-free names and parsing gives the names back. */
  lemma JoinParses(names: seq<seq<uint8>>)
    requires forall i :: 0 <= i < |names| ==> names[i] != [] && SLASH !in names[i]
    ensures PathNames(Join(names)) == names
  {
    PathParses([], names, []);
    assert [] + (Join(names) + []) == Join(names);
  }
}
