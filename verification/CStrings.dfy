/** NUL-terminated strings of src/stdlib.c. */
module CStrings {
  import opened CTypes

  /** The bytes before the first NUL. */
  function CStr(s: seq<uint8>): (r: seq<uint8>)
    ensures r <= s && 0 !in r
    ensures 0 in s ==> |r| < |s| && s[|r|] == 0
  {
    if s == [] || s[0] == 0 then [] else [s[0]] + CStr(s[1..])
  }

  lemma CStrUnique(s: seq<uint8>, n: nat)
    requires n < |s| && s[n] == 0 && 0 !in s[..n]
    ensures CStr(s) == s[..n]
  {}

  function AsChar(b: uint8): int {
    if b < 0x80 then b else b - 0x100
  }

  /** A byte as a signed char: the representative of its class modulo 256 from -128 to 127. */
  lemma AsCharExact(b: uint8)
    ensures -128 <= AsChar(b) < 128 && AsChar(b) % 256 == b
  {}

  /** __kstd_strlen. */
  method StrLen(s: seq<uint8>) returns (len: nat)
    requires 0 in s
    ensures len == |CStr(s)|
  {
    len := 0;
    while s[len] != 0
      invariant len < |s| && 0 !in s[..len] && 0 in s[len..]
      decreases |s| - len
    {
      len := len + 1;
    }
    CStrUnique(s, len);
  }

  /** __kstd_strcmp: zero exactly for equal strings, otherwise the difference of the first two
      characters that differ, as signed chars. */
  method StrCmp(a: seq<uint8>, b: seq<uint8>) returns (r: int)
    requires 0 in a && 0 in b
    ensures r == 0 <==> CStr(a) == CStr(b)
    ensures r != 0 ==> exists i :: 0 <= i < |a| && i < |b| && a[..i] == b[..i] && r == AsChar(a[i]) - AsChar(b[i])
  {
    hide CStr;
    var i := 0;
    while a[i] == b[i]
      invariant i < |a| && i < |b| && a[..i] == b[..i]
      invariant 0 !in a[..i] && 0 in a[i..] && 0 in b[i..]
      decreases |a| - i
    {
      if a[i] == 0 {
        CStrUnique(a, i);
        CStrUnique(b, i);
        return 0;
      }
      i := i + 1;
    }
    Mismatch(a, b, i);
    r := AsChar(a[i]) - AsChar(b[i]);
  }

  lemma {:induction false} Mismatch(a: seq<uint8>, b: seq<uint8>, i: nat)
    requires i < |a| && i < |b| && a[..i] == b[..i] && a[i] != b[i]
    requires 0 !in a[..i]
    ensures CStr(a) != CStr(b)
  {
    if i > 0 {
      assert a[0] == a[..i][0] == b[..i][0] == b[0] && a[0] in a[..i];
      assert a[1..][..i - 1] == a[..i][1..] == b[1..][..i - 1];
      Mismatch(a[1..], b[1..], i - 1);
    }
  }

  /** __kstd_append_char_to_string. */
  method Append(s: array<uint8>, c: uint8)
    requires 0 in s[..] && |CStr(s[..])| + 1 < s.Length && c != 0
    modifies s
    ensures CStr(s[..]) == old(CStr(s[..])) + [c] && 0 in s[..]
    ensures s[..] == old(s[..])[|old(CStr(s[..]))| := c][|old(CStr(s[..]))| + 1 := 0]
  {
    ghost var was := CStr(s[..]);
    var len := StrLen(s[..]);
    s[len] := c;
    s[len + 1] := 0;
    assert s[..len + 1] == was + [c];
    CStrUnique(s[..], len + 1);
  }

  /** __kstd_is_backspace_valid: also drops the last character. */
  method IsBackspaceValid(s: array<uint8>) returns (valid: bool)
    requires 0 in s[..]
    modifies s
    ensures 0 in s[..] && valid == (old(CStr(s[..])) != [])
    ensures valid ==> CStr(s[..]) == old(CStr(s[..]))[..|old(CStr(s[..]))| - 1]
    ensures s[..] == if valid then old(s[..])[|old(CStr(s[..]))| - 1 := 0] else old(s[..])
  {
    ghost var was := CStr(s[..]);
    var len := StrLen(s[..]);
    if len > 0 {
      s[len - 1] := 0;
      assert s[..len - 1] == was[..len - 1];
      CStrUnique(s[..], len - 1);
      return true;
    }
    return false;
  }
}
