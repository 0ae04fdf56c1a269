/** The numeral encoder of trunk/kernel/display.c: `itoa` (unsigned, bases 2..16,
    digits '0'-'9','A'-'F') and `itoa_s` (signed, sign and magnitude). */
module Numerals {
  import opened Bytes

  /** `bchars[]`: the digit bytes "0123456789ABCDEF" in ASCII. */
  const BChars: seq<u8> := [0x30, 0x31, 0x32, 0x33, 0x34, 0x35, 0x36, 0x37,
                            0x38, 0x39, 0x41, 0x42, 0x43, 0x44, 0x45, 0x46]
  const Zero: u8 := 0x30
  const Minus: u8 := 0x2D

  /** `bchars[d]`, computed: '0'-'9' then 'A'-'F'. */
  function DigitChar(d: nat): (b: u8)
    requires d < 16
    ensures b == BChars[d]
  {
    if d < 10 then 0x30 + d else 0x41 + (d - 10)
  }

  /** The value of a digit byte (upper-case hexadecimal letters). */
  function DigitValue(b: u8): (v: nat)
    ensures v < 16
  {
    if 0x30 <= b <= 0x39 then b - 0x30
    else if 0x41 <= b <= 0x46 then b - 0x41 + 10
    else 0
  }

  /** A digit byte of `base`: one of the first `base` entries of `bchars`. */
  predicate IsDigit(b: u8, base: nat)
  {
    (0x30 <= b <= 0x39 || 0x41 <= b <= 0x46) && DigitValue(b) < base
  }

  lemma DigitValueOfChar(d: nat, base: nat)
    requires d < base <= 16
    ensures DigitValue(DigitChar(d)) == d
    ensures IsDigit(DigitChar(d), base)
  {
  }

  lemma DigitValueOfDigit(b: u8, base: nat)
    requires 2 <= base <= 16
    requires IsDigit(b, base)
    ensures DigitValue(b) < base
    ensures DigitChar(DigitValue(b)) == b
  {
  }

  /** The base-`base` digits of `i`, most significant first; empty for 0.
      This is the string the two loops of `itoa` build for a non-zero value. */
  function Digits(i: nat, base: nat): (r: seq<u8>)
    requires 2 <= base <= 16
    ensures |r| == 0 <==> i == 0
    ensures r != [] ==> r[0] != Zero
    decreases i
  {
    if i == 0 then [] else Digits(i / base, base) + [DigitChar(i % base)]
  }

  /** Every byte of `Digits` is a digit of the base. */
  lemma {:induction false} DigitsAreDigits(i: nat, base: nat)
    requires 2 <= base <= 16
    ensures forall k | 0 <= k < |Digits(i, base)| :: IsDigit(Digits(i, base)[k], base)
    decreases i
  {
    if i != 0 {
      DivStep(i, base);
      DigitsAreDigits(i / base, base);
      DigitValueOfChar(i % base, base);
      var d := Digits(i / base, base);
      assert Digits(i, base) == d + [DigitChar(i % base)];
      forall k | 0 <= k < |Digits(i, base)| ensures IsDigit(Digits(i, base)[k], base) {
        if k < |d| {
          assert Digits(i, base)[k] == d[k];
        }
      }
    }
  }

  lemma DigitsStep(n: nat, base: nat)
    requires 0 < n && 2 <= base <= 16
    ensures Digits(n, base) == Digits(n / base, base) + [DigitChar(n % base)]
    ensures Digits(n, base) == Digits(n / base, base) + [BChars[n % base]]
  {
  }

  /** Parsing a digit string in `base`, most significant digit first. */
  function Decode(s: seq<u8>, base: nat): nat
  {
    if s == [] then 0 else Decode(s[..|s| - 1], base) * base + DigitValue(s[|s| - 1])
  }

  /** A canonical numeral: non-empty, only digits of `base`, and no leading zero
      unless the numeral is the single digit "0". */
  predicate Canonical(s: seq<u8>, base: nat)
    requires 2 <= base <= 16
  {
    && |s| > 0
    && (forall k | 0 <= k < |s| :: IsDigit(s[k], base))
    && (s[0] == Zero ==> |s| == 1)
  }

  /** `itoa(i, base, buf)`: the text left in `buf` (without its terminator).
      Base 0 and base 1 with a non-zero value divide by zero or loop forever in
      the source, so they are excluded; every base above 16 yields "0". */
  function Itoa(i: u32, base: u32): (r: seq<u8>)
    requires i == 0 || 2 <= base
    ensures i == 0 || base > 16 ==> r == [Zero]
    ensures 2 <= base <= 16 ==> Canonical(r, base)
    ensures NoNul(r)
    ensures |r| <= 32
  {
    if i == 0 || base > 16 then [Zero]
    else
      DigitsFitWord(i, base);
      DigitsAreDigits(i, base);
      Digits(i, base)
  }

  /** `itoa_s(i, base, buf)`: `None` when the buffer is left untouched (a base
      above 16), otherwise the text written, a '-' in front of a negative value.
      Negating INT_MIN is undefined in the source and is excluded. */
  function ItoaS(i: i32, base: u32): (r: Option<seq<u8>>)
    requires base <= 16 ==> i != INT_MIN && (i == 0 || 2 <= base)
    ensures r.None? <==> base > 16
    ensures r.Some? ==> NoNul(r.value) && 0 < |r.value| <= 33
    ensures r.Some? && i < 0 ==> r.value == [Minus] + Itoa(-i, base)
    ensures r.Some? && i >= 0 ==> r.value == Itoa(i, base)
  {
    if base > 16 then None
    else if i < 0 then Some([Minus] + Itoa(-i, base))
    else Some(Itoa(i, base))
  }

  /** Parsing an optionally negative numeral. */
  function DecodeSigned(s: seq<u8>, base: nat): int
  {
    if |s| > 0 && s[0] == Minus then 0 - Decode(s[1..], base) else Decode(s, base)
  }

  // ---------------------------------------------------------------------------
  // Round trips

  lemma DivStep(i: nat, base: nat)
    requires 0 < i && 2 <= base
    ensures 0 <= i / base < i
    ensures (i / base) * base + i % base == i
  {
  }

  lemma DivBound(i: nat, base: nat, p: nat)
    requires 2 <= base && i < base * p
    ensures i / base < p
  {
  }

  lemma DivUnique(q: nat, base: nat, v: nat)
    requires 2 <= base <= 16 && v < base
    ensures (q * base + v) / base == q
    ensures (q * base + v) % base == v
  {
  }

  lemma {:induction false} DecodeDigits(i: nat, base: nat)
    requires 2 <= base <= 16
    ensures Decode(Digits(i, base), base) == i
    decreases i
  {
    if i != 0 {
      var q, m := i / base, i % base;
      DivStep(i, base);
      var d := Digits(q, base);
      var s := d + [DigitChar(m)];
      DigitsStep(i, base);
      assert s[..|s| - 1] == d;
      DecodeDigits(q, base);
      DigitValueOfChar(m, base);
      assert Decode(s, base) == Decode(d, base) * base + m;
    }
  }

  lemma {:induction false} DigitsDecode(s: seq<u8>, base: nat)
    requires 2 <= base <= 16
    requires forall k | 0 <= k < |s| :: IsDigit(s[k], base)
    requires s != [] ==> s[0] != Zero
    ensures Digits(Decode(s, base), base) == s
    decreases |s|
  {
    if s != [] {
      var p, c := s[..|s| - 1], s[|s| - 1];
      var q, v := Decode(p, base), DigitValue(c);
      var n := q * base + v;
      assert Decode(s, base) == n;
      assert Digits(q, base) == p by {
        forall k | 0 <= k < |p| ensures IsDigit(p[k], base) {
          assert p[k] == s[k];
        }
        DigitsDecode(p, base);
      }
      assert v < base && DigitChar(v) == c by {
        DigitValueOfDigit(c, base);
      }
      assert n / base == q && n % base == v by {
        DivUnique(q, base, v);
      }
      assert n != 0 by {
        if p == [] {
          assert c == s[0];
        } else {
          assert p[0] == s[0];
        }
      }
      assert Digits(n, base) == p + [c] by {
        DigitsStep(n, base);
      }
      assert s == p + [c];
    }
  }

  lemma ItoaRoundTrip(i: u32, base: u32)
    requires 2 <= base <= 16
    ensures Canonical(Itoa(i, base), base)
    ensures Decode(Itoa(i, base), base) == i
  {
    if i != 0 {
      DecodeDigits(i, base);
    }
  }

  /** Conversely, every canonical numeral whose value fits an `unsigned` is
      exactly what `itoa` prints for that value: the representation is unique. */
  lemma ItoaOfDecode(s: seq<u8>, base: u32)
    requires 2 <= base <= 16
    requires Canonical(s, base)
    requires Decode(s, base) < 0x1_0000_0000
    ensures Itoa(Decode(s, base), base) == s
  {
    if s[0] == Zero {
      assert s == [Zero];
      assert s[..0] == [];
    } else {
      DigitsDecode(s, base);
    }
  }

  /** `itoa_s` round trip: parsing the signed output gives the value back. */
  lemma ItoaSRoundTrip(i: i32, base: u32)
    requires 2 <= base <= 16
    requires i != INT_MIN
    ensures ItoaS(i, base).Some?
    ensures DecodeSigned(ItoaS(i, base).value, base) == i
  {
    if i < 0 {
      ItoaRoundTrip(-i, base);
      var s := ItoaS(i, base).value;
      assert s[1..] == Itoa(-i, base);
    } else {
      ItoaRoundTrip(i, base);
    }
  }

  // ---------------------------------------------------------------------------
  // Buffer capacities

  function Pow(b: nat, k: nat): nat
  {
    if k == 0 then 1 else b * Pow(b, k - 1)
  }

  lemma {:induction false} PowAdd(b: nat, m: nat, n: nat)
    ensures Pow(b, m + n) == Pow(b, m) * Pow(b, n)
  {
    if m > 0 {
      PowAdd(b, m - 1, n);
      var x, y := Pow(b, m - 1), Pow(b, n);
      assert Pow(b, m + n) == b * Pow(b, m - 1 + n);
      MulAssoc(b, x, y);
    }
  }

  lemma MulAssoc(a: nat, b: nat, c: nat)
    ensures a * (b * c) == (a * b) * c
  {
  }

  /** A value below `base`^k has at most k digits. */
  lemma {:induction false} DigitsLength(i: nat, base: nat, k: nat)
    requires 2 <= base <= 16
    requires i < Pow(base, k)
    ensures |Digits(i, base)| <= k
    decreases k
  {
    if i != 0 {
      assert k > 0;
      DivBound(i, base, Pow(base, k - 1));
      DigitsLength(i / base, base, k - 1);
    }
  }

  lemma {:induction false} PowMonotone(b: nat, k: nat)
    requires 2 <= b
    ensures Pow(2, k) <= Pow(b, k)
  {
    if k > 0 {
      PowMonotone(b, k - 1);
      assert b * Pow(b, k - 1) >= 2 * Pow(b, k - 1);
    }
  }

  /** An `unsigned` has at most 32 digits in any base, so the 32-byte `tbuf`
      never overflows. */
  lemma DigitsFitWord(i: u32, base: nat)
    requires 2 <= base <= 16
    ensures |Digits(i, base)| <= 32
  {
    PowMonotone(base, 32);
    PowAdd(2, 8, 8);
    PowAdd(2, 16, 16);
    DigitsLength(i, base, 32);
  }

  /** For the two bases `Printf` uses, the signed text and its terminator fit
      the 32-byte buffer `str` (at most 11 bytes in base 10, 9 in base 16). */
  lemma PrintfBufferFits(i: i32)
    requires i != INT_MIN
    ensures |ItoaS(i, 10).value| <= 11
    ensures |ItoaS(i, 16).value| <= 9
  {
    var m: nat := if i < 0 then -i else i;
    assert Pow(10, 10) == 10_000_000_000;
    assert Pow(16, 8) == 0x1_0000_0000;
    if m != 0 {
      DigitsLength(m, 10, 10);
      DigitsLength(m, 16, 8);
    }
  }

  // ---------------------------------------------------------------------------
  // The two loops of `itoa`, over a scratch buffer

  function Reverse(s: seq<u8>): (r: seq<u8>)
    ensures |r| == |s|
  {
    if s == [] then [] else Reverse(s[1..]) + [s[0]]
  }

  lemma {:induction false} ReverseSnoc(s: seq<u8>, x: u8)
    ensures Reverse(s + [x]) == [x] + Reverse(s)
    decreases |s|
  {
    if s != [] {
      assert (s + [x])[1..] == s[1..] + [x];
      ReverseSnoc(s[1..], x);
    } else {
      assert (s + [x])[1..] == [];
    }
  }

  /** `itoa` as the source writes it: the first loop collects digits least
      significant first in `tbuf`, the second copies them back in reverse. */
  method ItoaBuffered(i: u32, base: u32) returns (buf: seq<u8>)
    requires i == 0 || 2 <= base
    ensures buf == Itoa(i, base)
  {
    if i == 0 || base > 16 {
      return [Zero];
    }
    var tbuf := CollectDigits(i, base);
    buf := CopyReversed(tbuf);
  }

  /** The first loop of `itoa`: `tbuf[pos++] = bchars[i % base]; i /= base`. */
  method CollectDigits(i: nat, base: nat) returns (tbuf: seq<u8>)
    requires 2 <= base <= 16
    ensures Reverse(tbuf) == Digits(i, base)
  {
    tbuf := [];
    var n: nat := i;
    while n != 0
      invariant Digits(n, base) + Reverse(tbuf) == Digits(i, base)
      decreases n
    {
      CollectStep(n, base, tbuf);
      tbuf := tbuf + [BChars[n % base]];
      n := n / base;
    }
    assert [] + Reverse(tbuf) == Reverse(tbuf);
  }

  /** One turn of the first loop moves the last digit of `n` to `tbuf`. */
  lemma CollectStep(n: nat, base: nat, tbuf: seq<u8>)
    requires 0 < n && 2 <= base <= 16
    ensures 0 <= n / base < n
    ensures Digits(n / base, base) + Reverse(tbuf + [BChars[n % base]])
            == Digits(n, base) + Reverse(tbuf)
  {
    var digit, q := BChars[n % base], n / base;
    assert 0 <= q < n by {
      DivStep(n, base);
    }
    assert Digits(n, base) == Digits(q, base) + [digit] by {
      DigitsStep(n, base);
    }
    assert Reverse(tbuf + [digit]) == [digit] + Reverse(tbuf) by {
      ReverseSnoc(tbuf, digit);
    }
    SeqShift(Digits(q, base), digit, Reverse(tbuf));
  }

  lemma SeqShift(a: seq<u8>, x: u8, b: seq<u8>)
    ensures a + ([x] + b) == (a + [x]) + b
  {
  }

  /** The second loop of `itoa`: `buf[opos] = tbuf[pos]` from the top down. */
  method CopyReversed(tbuf: seq<u8>) returns (buf: seq<u8>)
    ensures buf == Reverse(tbuf)
  {
    buf := [];
    var pos := |tbuf|;
    while pos > 0
      invariant 0 <= pos <= |tbuf|
      invariant buf == Reverse(tbuf[pos..])
    {
      assert tbuf[pos - 1..][1..] == tbuf[pos..];
      buf := buf + [tbuf[pos - 1]];
      pos := pos - 1;
    }
    assert tbuf[0..] == tbuf;
  }
}
