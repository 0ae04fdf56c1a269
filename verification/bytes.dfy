/** C integer widths, optional pointers and NUL-terminated byte strings, as used
    by the console driver in trunk/kernel/display.c. */
module Bytes {

  /** `uint8_t` / `unsigned char` */
  type u8 = x: int | 0 <= x < 0x100
  /** `uint16_t`, the width of one video cell */
  type u16 = x: int | 0 <= x < 0x1_0000
  /** `unsigned` (32 bits on the target) */
  type u32 = x: int | 0 <= x < 0x1_0000_0000
  /** `int` (32 bits on the target) */
  type i32 = x: int | -0x8000_0000 <= x < 0x8000_0000

  const INT_MIN: i32 := -0x8000_0000

  /** Truncating assignment of an `unsigned` or `int` to a `uint8_t` variable. */
  function Trunc8(v: int): (r: u8)
    ensures (r - v) % 0x100 == 0
  {
    v % 0x100
  }

  /** A C pointer that may be null. */
  datatype Option<+T> = None | Some(value: T)

  /** `strlen`: the number of bytes before the first NUL. A sequence without a
      NUL stands for a string whose terminator follows its last byte. */
  function StrLen(s: seq<u8>): (n: nat)
    ensures n <= |s|
    ensures forall k | 0 <= k < n :: s[k] != 0
    ensures n < |s| ==> s[n] == 0
  {
    if s == [] || s[0] == 0 then 0 else 1 + StrLen(s[1..])
  }

  /** The text of a C string: its bytes up to (not including) the terminator. */
  function Text(s: seq<u8>): (t: seq<u8>)
    ensures NoNul(t)
    ensures t <= s
  {
    s[..StrLen(s)]
  }

  predicate NoNul(s: seq<u8>)
  {
    forall k | 0 <= k < |s| :: s[k] != 0
  }

  lemma TextOfNoNul(s: seq<u8>)
    requires NoNul(s)
    ensures Text(s) == s
  {
  }

  /** ASCII text written as a Dafny string literal, as bytes. */
  function Ascii(s: string): (b: seq<u8>)
    requires forall k | 0 <= k < |s| :: s[k] as int < 0x80
    ensures |b| == |s|
    ensures forall k | 0 <= k < |s| :: b[k] == s[k] as int
  {
    seq(|s|, k requires 0 <= k < |s| => s[k] as int)
  }
}
