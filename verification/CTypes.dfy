/** Fixed-width C integers of the 32-bit target, and the two memory-word views the modules share. */
module CTypes {
  type uint8 = x: int | 0 <= x < 0x100
  type uint16 = x: int | 0 <= x < 0x1_0000
  type uint32 = x: int | 0 <= x < 0x1_0000_0000
  type sint32 = x: int | -0x8000_0000 <= x < 0x8000_0000

  datatype Option<+T> = None | Some(value: T)

  /** What a 32-bit unsigned computation leaves of an unbounded result. */
  function Wrap32(x: int): uint32 {
    x % 0x1_0000_0000
  }

  /** Wrapping early or late makes no difference to a running sum. */
  lemma WrapLater(x: int, d: int)
    ensures Wrap32(Wrap32(x) + d) == Wrap32(x + d)
  {}

  lemma CountsDown(u: int, n: int)
    ensures Wrap32(Wrap32(u - n) - 1) == Wrap32(u - (n + 1))
  {}

  /** The C cast (int) of an unsigned 32-bit value. */
  function AsSigned(x: uint32): sint32 {
    if x < 0x8000_0000 then x else x - 0x1_0000_0000
  }

  /** The C cast (unsigned) of a signed 32-bit value. */
  function AsUnsigned(x: sint32): uint32 {
    if x >= 0 then x else x + 0x1_0000_0000
  }

  lemma Regroup<T>(a: seq<T>, b: seq<T>, c: seq<T>)
    ensures a + (b + c) == (a + b) + c
  {}

  predicate Within(b: int, a: int, n: nat) {
    a <= b < a + n
  }

  /** The `n` integers from `a` on. */
  function Range(a: int, n: nat): set<int> {
    set b | a <= b < a + n && Within(b, a, n)
  }

  lemma {:induction false} RangeSize(a: int, n: nat)
    ensures |Range(a, n)| == n
  {
    if n == 0 {
      assert Range(a, n) == {};
    } else {
      RangeSize(a, n - 1);
      assert Range(a, n) == Range(a, n - 1) + {a + n - 1};
    }
  }
}
