/**
 * The pieces of Rust's standard library the automaton relies on, written
 * out: the `u32` type, `u32::to_string` (decimal), `format!("{n:08b}")`
 * (zero-padded binary), `char::to_digit(10)`, and the bits of a number.
 */
module Formatting {

  /** Rust's `u32`. */
  type U32 = n: nat | n < 0x1_0000_0000

  /** The character of a decimal digit. */
  function DigitChar(d: nat): (c: char)
    requires d < 10
    ensures '0' <= c <= '9'
  {
    ('0' as int + d) as char
  }

  predicate IsDecimalDigit(c: char) {
    '0' <= c <= '9'
  }

  predicate IsBinaryDigit(c: char) {
    c == '0' || c == '1'
  }

  /** `char::to_digit(10)` on a character it accepts; it is the inverse of `DigitChar`. */
  function ToDigit(c: char): (d: nat)
    requires IsDecimalDigit(c)
    ensures d < 10 && DigitChar(d) == c
  {
    c as int - '0' as int
  }

  lemma DigitCharInjective(d: nat, e: nat)
    requires d < 10 && e < 10
    ensures DigitChar(d) == DigitChar(e) <==> d == e
  {
  }

  function Pow2(k: nat): (p: nat)
    ensures p >= 1
  {
    if k == 0 then 1 else 2 * Pow2(k - 1)
  }

  /** Bit `k` of `n`, bit 0 being the least significant. */
  function Bit(n: nat, k: nat): (b: nat)
    ensures b <= 1
  {
    if k == 0 then n % 2 else Bit(n / 2, k - 1)
  }

  lemma DivUnique(n: nat, d: nat, q: nat, r: nat)
    requires 0 < d && r < d && n == q * d + r
    ensures n / d == q && n % d == r
  {
    var q', r' := n / d, n % d;
    assert n == q' * d + r';
    if q' < q {
      MulMonotone(q' + 1, q, d);
    } else if q < q' {
      MulMonotone(q + 1, q', d);
    }
  }

  lemma {:induction false} MulMonotone(a: nat, b: nat, d: nat)
    requires a <= b
    ensures a * d <= b * d
  {
    if a < b {
      MulMonotone(a, b - 1, d);
      assert b * d == (b - 1) * d + d;
    }
  }

  lemma DivHalfThen(n: nat, m: nat)
    requires m > 0
    ensures (n / 2) / m == n / (2 * m)
  {
    var q, s, t := (n / 2) / m, (n / 2) % m, n % 2;
    assert n / 2 == q * m + s;
    assert n == 2 * (n / 2) + t;
    assert n == q * (2 * m) + (2 * s + t);
    DivUnique(n, 2 * m, q, 2 * s + t);
  }

  /** The bit is the usual `(n / 2^k) % 2`. */
  lemma {:induction false} BitIsDivMod(n: nat, k: nat)
    ensures Bit(n, k) == (n / Pow2(k)) % 2
  {
    if k > 0 {
      BitIsDivMod(n / 2, k - 1);
      DivHalfThen(n, Pow2(k - 1));
    }
  }

  /** A number below `2^w` has no bit set at position `w` or above. */
  lemma {:induction false} BitAboveWidth(n: nat, w: nat, k: nat)
    requires n < Pow2(w) && w <= k
    ensures Bit(n, k) == 0
  {
    if k > 0 {
      if w == 0 {
        assert n == 0;
        BitAboveWidth(0, 0, k - 1);
      } else {
        BitAboveWidth(n / 2, w - 1, k - 1);
      }
    }
  }

  /** Two numbers below `2^w` whose low `w` bits agree are equal. */
  lemma {:induction false} BitsDetermineNumber(n: nat, m: nat, w: nat)
    requires n < Pow2(w) && m < Pow2(w)
    requires forall k :: 0 <= k < w ==> Bit(n, k) == Bit(m, k)
    ensures n == m
  {
    if w > 0 {
      assert n % 2 == Bit(n, 0) == Bit(m, 0) == m % 2;
      forall k | 0 <= k < w - 1
        ensures Bit(n / 2, k) == Bit(m / 2, k)
      {
        assert Bit(n, k + 1) == Bit(m, k + 1);
      }
      BitsDetermineNumber(n / 2, m / 2, w - 1);
    }
  }

  /**
   * `format!("{n:b}")`: the binary digits of `n`, most significant first,
   * without leading zeros ("0" for zero).
   */
  function Binary(n: nat): (s: string)
    ensures |s| >= 1
    ensures forall i :: 0 <= i < |s| ==> IsBinaryDigit(s[i])
    decreases n
  {
    if n < 2 then [DigitChar(n)] else Binary(n / 2) + [DigitChar(n % 2)]
  }

  /** Character `i` of `Binary(n)` is bit `|Binary(n)| - 1 - i`, and `n` fits in that many bits. */
  lemma {:induction false} BinaryDigits(n: nat)
    ensures n < Pow2(|Binary(n)|)
    ensures forall i :: 0 <= i < |Binary(n)| ==> Binary(n)[i] == DigitChar(Bit(n, |Binary(n)| - 1 - i))
    decreases n
  {
    if n >= 2 {
      var s, h := Binary(n), Binary(n / 2);
      BinaryDigits(n / 2);
      assert s == h + [DigitChar(n % 2)];
      forall i | 0 <= i < |s|
        ensures s[i] == DigitChar(Bit(n, |s| - 1 - i))
      {
        if i < |h| {
          assert s[i] == h[i];
          assert Bit(n, |s| - 1 - i) == Bit(n / 2, |h| - 1 - i);
        }
      }
    }
  }

  /** A number below `2^w` has at most `w` binary digits. */
  lemma {:induction false} BinaryLength(n: nat, w: nat)
    requires 1 <= w && n < Pow2(w)
    ensures |Binary(n)| <= w
    decreases n
  {
    if n >= 2 {
      assert w >= 2;
      BinaryLength(n / 2, w - 1);
    }
  }

  /** `format!("{n:0width$b}")`: `Binary(n)` padded on the left with zeros to at least `width` characters. */
  function FormatBinary(n: nat, width: nat): (s: string)
    ensures |s| >= width && |s| >= |Binary(n)|
    ensures forall i :: 0 <= i < |s| ==> IsBinaryDigit(s[i])
  {
    var digits := Binary(n);
    if |digits| >= width then digits else seq(width - |digits|, _ => '0') + digits
  }

  /**
   * For `n < 2^w` the padded string has exactly `w` characters, and
   * character `i` is bit `w - 1 - i` of `n`.
   */
  lemma FormatBinaryBits(n: nat, w: nat)
    requires 1 <= w && n < Pow2(w)
    ensures |FormatBinary(n, w)| == w
    ensures forall i :: 0 <= i < w ==> FormatBinary(n, w)[i] == DigitChar(Bit(n, w - 1 - i))
  {
    var digits, s := Binary(n), FormatBinary(n, w);
    BinaryLength(n, w);
    BinaryDigits(n);
    var pad := w - |digits|;
    assert s == seq(pad, _ => '0') + digits;
    forall i | 0 <= i < w
      ensures s[i] == DigitChar(Bit(n, w - 1 - i))
    {
      if i < pad {
        BitAboveWidth(n, |digits|, w - 1 - i);
      } else {
        assert s[i] == digits[i - pad];
      }
    }
  }

  /** `u32::to_string`: the decimal digits of `n` without leading zeros. */
  function DecimalString(n: nat): (s: string)
    ensures 1 <= |s|
    ensures |s| == 1 <==> n < 10
    ensures forall i :: 0 <= i < |s| ==> IsDecimalDigit(s[i])
    decreases n
  {
    if n < 10 then [DigitChar(n)] else DecimalString(n / 10) + [DigitChar(n % 10)]
  }

  /** Reading a string of decimal digits back as a number (`str::parse`). */
  function DecimalValue(s: string): nat
    requires forall i :: 0 <= i < |s| ==> IsDecimalDigit(s[i])
  {
    if s == [] then 0 else 10 * DecimalValue(s[..|s| - 1]) + ToDigit(s[|s| - 1])
  }

  /** `to_string` loses nothing: parsing its output gives the number back. */
  lemma {:induction false} DecimalRoundTrip(n: nat)
    ensures DecimalValue(DecimalString(n)) == n
    decreases n
  {
    var s := DecimalString(n);
    if n >= 10 {
      DecimalRoundTrip(n / 10);
      assert s[..|s| - 1] == DecimalString(n / 10);
    }
  }
}
