/** The two number printers: kstd_itoa of src/stdlib.c and tostring of src/memory.c. */
module Numbers {
  import opened CTypes

  const MINUS: uint8 := 45   // '-'
  const ZERO: uint8 := 48    // '0'
  const LOWER_A: uint8 := 97 // 'a'
  const SIGNED: int := 100   // 'd'
  const HEX: int := 120      // 'x'

  function DigitChar(d: nat): uint8
    requires d < 16
  {
    if d < 10 then d + ZERO else d + LOWER_A - 10
  }

  /** The value of a digit: '0' to '9', and in base 16 'a' to 'f'. Anything else is no digit. */
  function DigitValue(c: uint8, div: nat): Option<nat> {
    if 48 <= c <= 57 then Some(c - 48)
    else if div == 16 && 97 <= c <= 102 then Some(c - 87)
    else None
  }

  predicate IsRadix(div: nat) {
    div == 10 || div == 16
  }

  /** `u / div` and `u % div`, for the two radices there are. */
  function Quot(u: nat, div: nat): nat
    requires IsRadix(div)
  {
    if div == 10 then u / 10 else u / 16
  }

  function Rem(u: nat, div: nat): nat
    requires IsRadix(div)
    ensures Rem(u, div) < div
  {
    if div == 10 then u % 10 else u % 16
  }

  /** Two's-complement negation, as an unsigned value. */
  function Negated(d: int): uint32 {
    Wrap32(-d)
  }

  function Radix(base: int): nat {
    if base == HEX then 16 else 10
  }

  /** The digits of `u`, most significant first. */
  function Digits(u: nat, div: nat): seq<uint8>
    requires IsRadix(div)
  {
    if u < div then [DigitChar(u)] else Digits(Quot(u, div), div) + [DigitChar(Rem(u, div))]
  }

  /** What kstd_itoa leaves before the NUL. Negation is two's complement, so -2^31 keeps its digits. */
  function Text(base: int, d: sint32): seq<uint8> {
    if base == SIGNED && d < 0 then [MINUS] + Digits(Negated(d), 10)
    else Digits(AsUnsigned(d), Radix(base))
  }

  function Reversed(s: seq<uint8>): (r: seq<uint8>)
    ensures |r| == |s|
  {
    if s == [] then [] else Reversed(s[1..]) + [s[0]]
  }

  lemma {:induction false} ReversedAt(s: seq<uint8>, k: nat)
    requires k < |s|
    ensures Reversed(s)[k] == s[|s| - 1 - k]
  {
    if |s| > 1 {
      ReversedAt(s[1..], if k < |s| - 1 then k else 0);
    }
  }

  lemma {:induction false} ReversedPush(s: seq<uint8>, c: uint8)
    ensures Reversed(s + [c]) == [c] + Reversed(s)
  {
    if s != [] {
      assert (s + [c])[1..] == s[1..] + [c];
      ReversedPush(s[1..], c);
    }
  }

  lemma ReversedIs(was: seq<uint8>, now: seq<uint8>)
    requires |now| == |was| && forall k :: 0 <= k < |was| ==> now[k] == was[|was| - 1 - k]
    ensures now == Reversed(was)
  {
    forall k | 0 <= k < |was| ensures now[k] == Reversed(was)[k] {
      ReversedAt(was, k);
    }
  }

  /** The digits the loop has still to emit. */
  function Pending(v: nat, more: bool, div: nat): seq<uint8>
    requires IsRadix(div)
  {
    if more then Digits(v, div) else []
  }

  lemma PendingStep(v: nat, div: nat)
    requires IsRadix(div)
    ensures Pending(v, true, div) == Pending(Quot(v, div), Quot(v, div) != 0, div) + [DigitChar(Rem(v, div))]
  {}

  /** The digit loop: least significant first, at least one. */
  method EmitDigits(buf: array<uint8>, start: nat, u: uint32, div: nat) returns (end: nat)
    requires IsRadix(div) && start + |Digits(u, div)| <= buf.Length
    modifies buf
    ensures end == start + |Digits(u, div)|
    ensures Reversed(buf[start..end]) == Digits(u, div)
    ensures forall k :: 0 <= k < start || end <= k < buf.Length ==> buf[k] == old(buf[k])
  {
    var v: uint32, more := u, true;
    ghost var done, digits := [], Digits(u, div);
    end := start;
    while more
      invariant end == start + |done| <= start + |digits|
      invariant Pending(v, more, div) + Reversed(done) == digits
      invariant forall k :: start <= k < end ==> buf[k] == done[k - start]
      invariant forall k :: 0 <= k < start || end <= k < buf.Length ==> buf[k] == old(buf[k])
      decreases if more then v + 1 else 0
    {
      ghost var tail := EmitStep(v, div, done, digits);
      buf[end] := DigitChar(Rem(v, div));
      done := tail;
      end := end + 1;
      v := Quot(v, div);
      more := v != 0;
    }
    assert buf[start..end] == done;
  }

  /** One digit moves from the pending front to the emitted back. */
  lemma EmitStep(v: nat, div: nat, done: seq<uint8>, digits: seq<uint8>) returns (next: seq<uint8>)
    requires IsRadix(div) && Pending(v, true, div) + Reversed(done) == digits
    ensures next == done + [DigitChar(Rem(v, div))]
    ensures Pending(Quot(v, div), Quot(v, div) != 0, div) + Reversed(next) == digits
    ensures |next| <= |digits|
  {
    hide Pending, Digits, Reversed;
    var c := DigitChar(Rem(v, div));
    next := done + [c];
    PendingStep(v, div);
    ReversedPush(done, c);
    Regroup(Pending(Quot(v, div), Quot(v, div) != 0, div), [c], Reversed(done));
  }

  /** The in-place reversal that follows it. */
  method ReverseInPlace(buf: array<uint8>, lo: nat, hi: nat)
    requires lo < hi <= buf.Length
    modifies buf
    ensures buf[lo..hi] == Reversed(old(buf[lo..hi]))
    ensures forall k :: 0 <= k < lo || hi <= k < buf.Length ==> buf[k] == old(buf[k])
  {
    var p1, p2 := lo, hi - 1;
    while p1 < p2
      invariant lo <= p1 <= p2 + 1 <= hi && p1 - lo == hi - 1 - p2
      invariant forall k :: lo <= k < p1 || p2 < k < hi ==> buf[k] == old(buf[lo + hi - 1 - k])
      invariant forall k :: 0 <= k < lo || p1 <= k <= p2 || hi <= k < buf.Length ==> buf[k] == old(buf[k])
    {
      buf[p1], buf[p2] := buf[p2], buf[p1];
      p1 := p1 + 1;
      p2 := p2 - 1;
    }
    ghost var was, now := old(buf[lo..hi]), buf[lo..hi];
    forall k | 0 <= k < hi - lo ensures now[k] == was[hi - lo - 1 - k] {
      assert now[k] == buf[lo + k];
    }
    ReversedIs(was, now);
  }

  function Sign(base: int, d: sint32): seq<uint8> {
    if base == SIGNED && d < 0 then [MINUS] else []
  }

  lemma TextParts(base: int, d: sint32)
    ensures Text(base, d) == Sign(base, d) + (if base == SIGNED && d < 0 then Digits(Negated(d), 10)
                                              else Digits(AsUnsigned(d), Radix(base)))
  {}

  /** kstd_itoa. */
  method Itoa(buf: array<uint8>, base: int, d: sint32)
    requires |Text(base, d)| < buf.Length
    modifies buf
    ensures buf[..] == Text(base, d) + [0] + old(buf[|Text(base, d)| + 1..])
  {
    TextParts(base, d);
    hide Text, Digits, Negated;
    var start, u, div := 0, AsUnsigned(d), 10;
    if base == SIGNED && d < 0 {
      buf[0] := MINUS;
      start := 1;
      u := Negated(d);
    } else if base == HEX {
      div := 16;
    }
    ghost var sign, digits := buf[..start], Digits(u, div);
    assert sign == Sign(base, d);
    FinishDigits(buf, start, u, div);
    Assembled(buf[..], old(buf[..]), sign, digits);
  }

  /** Its second half: digits, NUL, reversal. */
  method FinishDigits(buf: array<uint8>, start: nat, u: uint32, div: nat)
    requires IsRadix(div) && start + |Digits(u, div)| < buf.Length
    modifies buf
    ensures buf[start..start + |Digits(u, div)|] == Digits(u, div) && buf[start + |Digits(u, div)|] == 0
    ensures forall k :: 0 <= k < start || start + |Digits(u, div)| < k < buf.Length ==> buf[k] == old(buf[k])
  {
    var end := EmitDigits(buf, start, u, div);
    ghost var emitted := buf[start..end];
    buf[end] := 0;
    assert buf[start..end] == emitted;
    ReverseInPlace(buf, start, end);
  }

  lemma Assembled(now: seq<uint8>, was: seq<uint8>, sign: seq<uint8>, digits: seq<uint8>)
    requires |now| == |was| && |sign| + |digits| < |now|
    requires now[..|sign|] == sign && now[|sign|..|sign| + |digits|] == digits && now[|sign| + |digits|] == 0
    requires forall k :: |sign| + |digits| < k < |now| ==> now[k] == was[k]
    ensures now == sign + digits + [0] + was[|sign| + |digits| + 1..]
  {}

  // ---- round trip -------------------------------------------------------------------------------

  /** The number a digit string denotes, None when a character is no digit. */
  function Value(s: seq<uint8>, div: nat): Option<nat> {
    if s == [] then Some(0)
    else
      var (front, last) := (Value(s[..|s| - 1], div), DigitValue(s[|s| - 1], div));
      if front.None? || last.None? then None else Some(front.value * div + last.value)
  }

  function Signed(v: Option<nat>, sign: int): Option<int> {
    if v.None? then None else Some(sign * v.value)
  }

  /** The number a text denotes: decimal, for 'x' (120) hexadecimal, and for 'd' (100) with a sign. */
  function ParseNumber(base: int, text: seq<uint8>): Option<int> {
    if text == [] then None
    else if base == 100 && text[0] == 45 then
      if text[1..] == [] then None else Signed(Value(text[1..], 10), -1)
    else Signed(Value(text, if base == 120 then 16 else 10), 1)
  }

  lemma DigitReads(d: nat, div: nat)
    requires IsRadix(div) && d < div
    ensures DigitValue(DigitChar(d), div) == Some(d)
  {}

  lemma ValuePush(s: seq<uint8>, c: uint8, div: nat)
    requires Value(s, div).Some? && DigitValue(c, div).Some?
    ensures Value(s + [c], div) == Some(Value(s, div).value * div + DigitValue(c, div).value)
  {
    assert (s + [c])[..|s|] == s;
  }

  lemma QuotRem(u: nat, div: nat)
    requires IsRadix(div)
    ensures Quot(u, div) * div + Rem(u, div) == u
  {}

  lemma {:induction false} DigitsValue(u: nat, div: nat)
    requires IsRadix(div)
    ensures Value(Digits(u, div), div) == Some(u)
  {
    if u >= div {
      DigitsValue(Quot(u, div), div);
      DigitReads(Rem(u, div), div);
      ValuePush(Digits(Quot(u, div), div), DigitChar(Rem(u, div)), div);
      QuotRem(u, div);
    } else {
      DigitReads(u, div);
      assert [DigitChar(u)][..0] == [];
    }
  }

  /** Every digit is one of '0' to '9', or in base 16 of 'a' to 'f'. */
  lemma {:induction false} DigitChars(u: nat, div: nat)
    requires IsRadix(div)
    ensures forall i :: 0 <= i < |Digits(u, div)| ==>
              48 <= Digits(u, div)[i] <= 57 || (div == 16 && 97 <= Digits(u, div)[i] <= 102)
  {
    if u >= div {
      DigitChars(Quot(u, div), div);
    }
  }

  /** A digit string without a leading zero. */
  predicate Canonical(s: seq<uint8>) {
    s != [] && (s[0] == 48 ==> |s| == 1)
  }

  lemma {:induction false} CanonicalPositive(s: seq<uint8>, div: nat)
    requires s != [] && s[0] != 48 && Value(s, div).Some? && div > 0
    ensures Value(s, div).value > 0
  {
    if |s| > 1 {
      CanonicalPositive(s[..|s| - 1], div);
    } else {
      assert s[..0] == [];
    }
  }

  lemma DigitWritten(c: uint8, div: nat)
    requires IsRadix(div) && DigitValue(c, div).Some?
    ensures DigitValue(c, div).value < div && DigitChar(DigitValue(c, div).value) == c
  {}

  lemma DigitsPush(q: nat, d: nat, div: nat)
    requires IsRadix(div) && q > 0 && d < div
    ensures Digits(q * div + d, div) == Digits(q, div) + [DigitChar(d)]
  {
    assert Quot(q * div + d, div) == q && Rem(q * div + d, div) == d;
  }

  /** A number has one digit string without a leading zero. */
  lemma {:induction false} DigitsUnique(s: seq<uint8>, div: nat)
    requires IsRadix(div) && Canonical(s) && Value(s, div).Some?
    ensures s == Digits(Value(s, div).value, div)
  {
    var n := |s| - 1;
    DigitWritten(s[n], div);
    if n == 0 {
      assert s[..0] == [];
    } else {
      CanonicalPositive(s[..n], div);
      DigitsUnique(s[..n], div);
      DigitsPush(Value(s[..n], div).value, DigitValue(s[n], div).value, div);
      assert s == s[..n] + [s[n]];
    }
  }

  lemma {:induction false} DigitsShape(u: nat, div: nat)
    requires IsRadix(div)
    ensures Digits(u, div) != [] && Digits(u, div)[0] != MINUS
    ensures u > 0 ==> Digits(u, div)[0] != ZERO
  {
    if u >= div {
      DigitsShape(Quot(u, div), div);
      assert Quot(u, div) > 0;
    }
  }

  function Power(b: nat, e: nat): nat {
    if e == 0 then 1 else b * Power(b, e - 1)
  }

  lemma PowerStep(u: nat, div: nat, k: nat)
    requires IsRadix(div) && div <= u && 0 < k && u < Power(div, k)
    ensures k > 1 && Quot(u, div) < Power(div, k - 1)
  {}

  lemma {:induction false} DigitsShort(u: nat, div: nat, k: nat)
    requires IsRadix(div) && 0 < k && u < Power(div, k)
    ensures |Digits(u, div)| <= k
  {
    if u >= div {
      PowerStep(u, div, k);
      DigitsShort(Quot(u, div), div, k - 1);
    }
  }

  /** Every 32-bit value is recovered from what kstd_itoa prints: signed for 'd', unsigned otherwise. */
  lemma TextParses(base: int, d: sint32)
    ensures ParseNumber(base, Text(base, d)) == Some(if base == SIGNED then d else AsUnsigned(d))
  {
    if base == SIGNED && d < 0 {
      DigitsValue(Negated(d), 10);
      assert Text(base, d)[1..] == Digits(Negated(d), 10);
    } else {
      DigitsValue(AsUnsigned(d), Radix(base));
      DigitsShape(AsUnsigned(d), Radix(base));
    }
  }

  /** The digits of a text: what follows its sign. */
  function Unsigned(base: int, text: seq<uint8>): seq<uint8> {
    if base == SIGNED && text != [] && text[0] == MINUS then text[1..] else text
  }

  /** A text without leading zeros, and without a sign on 0. */
  predicate Plainest(base: int, text: seq<uint8>) {
    Canonical(Unsigned(base, text)) && text != [MINUS, 48]
  }

  lemma TextPlainest(base: int, d: sint32)
    ensures Plainest(base, Text(base, d))
  {
    TextShape(base, d);
    if base == SIGNED && d < 0 {
      assert Text(base, d)[0] == MINUS;
    } else {
      DigitsShape(AsUnsigned(d), Radix(base));
    }
  }

  lemma SignedUnique(text: seq<uint8>, d: sint32)
    requires text != [] && text[0] == MINUS && text[1..] != [] && Canonical(text[1..]) && text != [MINUS, 48]
    requires Value(text[1..], 10).Some? && -(Value(text[1..], 10).value as int) == d
    ensures text == Text(SIGNED, d)
  {
    var rest := text[1..];
    DigitsUnique(rest, 10);
    assert text == [MINUS] + rest;
    if d != 0 {
      assert Negated(d) == Value(rest, 10).value;
    }
  }

  lemma UnsignedUnique(base: int, text: seq<uint8>, d: sint32)
    requires Canonical(text) && Value(text, Radix(base)) == Some(AsUnsigned(d)) && (base == SIGNED ==> d >= 0)
    ensures text == Text(base, d)
  {
    DigitsUnique(text, Radix(base));
  }

  /** What kstd_itoa prints is the only plainest text that denotes the value. */
  lemma TextUnique(base: int, d: sint32, text: seq<uint8>)
    ensures text == Text(base, d) <==>
            Plainest(base, text) && ParseNumber(base, text) == Some(if base == SIGNED then d else AsUnsigned(d))
  {
    TextParses(base, d);
    TextPlainest(base, d);
    if Plainest(base, text) && ParseNumber(base, text) == Some(if base == SIGNED then d else AsUnsigned(d)) {
      hide Text, Value;
      if base == SIGNED && text[0] == MINUS {
        SignedUnique(text, d);
      } else {
        UnsignedUnique(base, text, d);
      }
    }
  }

  /** After the sign there are decimal digits alone, or hexadecimal ones for 'x'. */
  lemma TextChars(base: int, d: sint32)
    ensures var digits := Unsigned(base, Text(base, d));
            forall i :: 0 <= i < |digits| ==> 48 <= digits[i] <= 57 || (base == 120 && 97 <= digits[i] <= 102)
  {
    var u := if base == SIGNED && d < 0 then Negated(d) else AsUnsigned(d);
    DigitChars(u, Radix(base));
    DigitsShape(u, Radix(base));
    if base == SIGNED && d < 0 {
      assert Text(base, d)[1..] == Digits(u, 10);
    }
  }

  /** No leading zero except in "0"; with its NUL the text takes at most 12 bytes. */
  lemma TextShape(base: int, d: sint32)
    ensures 1 <= |Text(base, d)| <= 11
    ensures var digits := if base == SIGNED && d < 0 then Text(base, d)[1..] else Text(base, d);
            digits != [] && (digits[0] == ZERO ==> d == 0 && digits == [ZERO])
  {
    var u := if base == SIGNED && d < 0 then Negated(d) else AsUnsigned(d);
    assert Power(10, 10) == 10000000000 && Power(16, 8) == 0x1_0000_0000;
    DigitsShort(u, Radix(base), if base == HEX then 8 else 10);
    DigitsShape(u, Radix(base));
  }

  // ---- the other printer --------------------------------------------------------------------------

  /** C division and remainder truncate toward zero. */
  function CDiv(a: int, b: nat): int
    requires b > 0
  {
    if a >= 0 then a / b else -(-a / b)
  }

  function CMod(a: int, b: nat): int
    requires b > 0
  {
    a - CDiv(a, b) * b
  }

  /** What tostring leaves before the NUL: nothing for 0, and for negative numbers characters counted
      down from '0'. */
  function Plain(num: int): seq<uint8>
    decreases if num < 0 then -num else num
  {
    if num == 0 then [] else Plain(CDiv(num, 10)) + [CMod(num, 10) + ZERO]
  }

  lemma PlainStep(n: int)
    requires n != 0
    ensures -10 < CMod(n, 10) < 10
    ensures if n > 0 then 0 <= CDiv(n, 10) < n else n < CDiv(n, 10) <= 0
    ensures Plain(n) == Plain(CDiv(n, 10)) + [CMod(n, 10) + ZERO]
  {}

  /** tostring: count the digits, then fill them in from the right. */
  method ToString(str: array<uint8>, num: sint32)
    requires |Plain(num)| < str.Length
    modifies str
    ensures str[..] == Plain(num) + [0] + old(str[|Plain(num)| + 1..])
  {
    assert Plain(0) == [];
    hide Plain, CDiv, CMod;
    var len := CountDigits(num);
    var n: int := num;
    var i := 0;
    while i < len
      invariant 0 <= i <= len && |Plain(n)| == len - i
      invariant Plain(num) == Plain(n) + str[len - i..len]
      invariant forall k :: len <= k < str.Length ==> str[k] == old(str[k])
    {
      assert n != 0;
      PlainStep(n);
      var rem := CMod(n, 10);
      ghost var filled := str[len - i..len];
      str[len - (i + 1)] := rem + ZERO;
      assert str[len - (i + 1)..len] == [rem + ZERO] + filled;
      Regroup(Plain(CDiv(n, 10)), [rem + ZERO], filled);
      n := CDiv(n, 10);
      i := i + 1;
    }
    assert Plain(n) == [];
    str[len] := 0;
    Assembled(str[..], old(str[..]), [], Plain(num));
    assert [] + Plain(num) == Plain(num);
  }

  /** Its first loop. */
  method CountDigits(num: sint32) returns (len: nat)
    ensures len == |Plain(num)|
  {
    assert Plain(0) == [];
    hide Plain, CDiv, CMod;
    var n: int := num;
    len := 0;
    while n != 0
      invariant len + |Plain(n)| == |Plain(num)|
      decreases if n < 0 then -n else n
    {
      PlainStep(n);
      len := len + 1;
      n := CDiv(n, 10);
    }
  }

  lemma {:induction false} PlainIsDigits(num: nat)
    requires num > 0
    ensures Plain(num) == Digits(num, 10)
  {
    if num >= 10 {
      PlainIsDigits(num / 10);
    } else {
      assert Plain(CDiv(num, 10)) == [];
    }
  }

  lemma {:induction false} PlainNegated(num: int)
    requires num >= 0
    ensures |Plain(-num)| == |Plain(num)|
  {
    if num > 0 {
      assert CDiv(-num, 10) == -CDiv(num, 10);
      PlainNegated(CDiv(num, 10));
    }
  }

  /** What tostring leaves, character by character: nothing for 0, the digits of a positive number, and
      for a negative one each digit of its magnitude counted down from '0'. */
  lemma PlainExact(num: sint32)
    ensures num == 0 ==> Plain(num) == []
    ensures num > 0 ==> Plain(num) == Digits(num, 10)
    ensures num < 0 ==> |Plain(num)| == |Digits(-(num as int), 10)|
                        && forall i :: 0 <= i < |Plain(num)| ==> Plain(num)[i] as int == 96 - Digits(-(num as int), 10)[i] as int
  {
    if num > 0 {
      PlainIsDigits(num);
    } else if num < 0 {
      var magnitude: int := -(num as int);
      PlainIsDigits(magnitude);
      PlainMirrors(magnitude);
    }
  }

  lemma {:induction false} PlainMirrors(num: int)
    requires num >= 0
    ensures |Plain(-num)| == |Plain(num)|
    ensures forall i :: 0 <= i < |Plain(num)| ==> Plain(-num)[i] as int == 96 - Plain(num)[i] as int
  {
    if num > 0 {
      assert CDiv(-num, 10) == -CDiv(num, 10) && CMod(-num, 10) == -CMod(num, 10);
      PlainMirrors(CDiv(num, 10));
    }
  }

  lemma NegativeLengths(num: int)
    requires -0x8000_0000 <= num < 0
    ensures |Plain(num)| + 1 == |Text(SIGNED, num)|
  {
    var magnitude: int := -num;
    PlainNegated(magnitude);
    PlainIsDigits(magnitude);
    assert Negated(num) == magnitude;
  }

  /** The two printers leave the same text exactly for the positive numbers. */
  lemma PrintersAgreeIff(num: sint32)
    ensures Plain(num) == Text(SIGNED, num) <==> num > 0
  {
    if num > 0 {
      PlainIsDigits(num);
    } else if num == 0 {
      TextShape(SIGNED, num);
    } else {
      NegativeLengths(num);
    }
  }
}
