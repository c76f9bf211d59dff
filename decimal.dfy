/** Fixed-width integers and the decimal rendering that `snprintf("%" PRIu64)` produces. */
module Decimal {

  /** C's `uint64_t`. */
  newtype uint64 = x: int | 0 <= x < 0x1_0000_0000_0000_0000

  /** C's `int64_t` (the `time_t` of `tv_sec`). */
  newtype int64 = x: int | -0x8000_0000_0000_0000 <= x < 0x8000_0000_0000_0000

  /** The `uint64_t` that `PRIu64` prints for a signed 64-bit value (two's complement). */
  function AsUnsigned(x: int64): (u: uint64)
    ensures x >= 0 ==> u as int == x as int
    ensures x < 0 ==> u as int == x as int + 0x1_0000_0000_0000_0000
  {
    ((x as int) % 0x1_0000_0000_0000_0000) as uint64
  }

  predicate IsDigit(c: char) { '0' <= c <= '9' }

  predicate AllDigits(s: string) { forall i :: 0 <= i < |s| ==> IsDigit(s[i]) }

  function DigitChar(d: nat): (c: char)
    requires d < 10
    ensures IsDigit(c)
  {
    ('0' as int + d) as char
  }

  function DigitValue(c: char): (d: nat)
    requires IsDigit(c)
    ensures d < 10 && DigitChar(d) == c
  {
    c as int - '0' as int
  }

  /** The canonical decimal rendering of `n`: digits only, most significant first. */
  function Render(n: nat): (s: string)
    ensures |s| >= 1 && AllDigits(s)
    ensures s[0] == '0' ==> n == 0
  {
    if n < 10 then [DigitChar(n)] else Render(n / 10) + [DigitChar(n % 10)]
  }

  /** Reads a string of digits back as a number (the inverse of `Render`). */
  function Parse(s: string): (n: nat)
    requires AllDigits(s)
  {
    if |s| == 0 then 0 else 10 * Parse(s[..|s| - 1]) + DigitValue(s[|s| - 1])
  }

  function Pow10(k: nat): (p: nat) { if k == 0 then 1 else 10 * Pow10(k - 1) }

  /** `snprintf(buf, size, ...)`: at most `size - 1` characters of the rendering are kept. */
  function Snprintf(s: string, size: nat): (r: string)
    requires size >= 1
    ensures r <= s && |r| == if |s| < size then |s| else size - 1
    ensures |s| < size ==> r == s
  {
    if |s| < size then s else s[..size - 1]
  }

  lemma {:induction false} ParseRender(n: nat)
    ensures Parse(Render(n)) == n
  {
    if n >= 10 {
      var s := Render(n);
      assert s[..|s| - 1] == Render(n / 10);
      ParseRender(n / 10);
    }
  }

  /** Distinct numbers have distinct renderings, so rendered keys never collide. */
  lemma RenderInjective(a: nat, b: nat)
    ensures Render(a) == Render(b) <==> a == b
  {
    if Render(a) == Render(b) {
      ParseRender(a);
      ParseRender(b);
    }
  }

  /** A rendering has at most `k` digits exactly when the number is below `10^k`. */
  lemma {:induction false} RenderLength(n: nat, k: nat)
    requires k >= 1
    ensures |Render(n)| <= k <==> n < Pow10(k)
  {
    if n >= 10 {
      if k == 1 {
        assert |Render(n)| >= 2;
      } else {
        RenderLength(n / 10, k - 1);
      }
    }
    else if k > 1 {
      Pow10Positive(k - 1);
    }
  }

  lemma {:induction false} Pow10Positive(k: nat)
    ensures Pow10(k) >= 1
  {
    if k > 0 { Pow10Positive(k - 1); }
  }

  lemma {:induction false} Pow10Add(a: nat, b: nat)
    ensures Pow10(a + b) == Pow10(a) * Pow10(b)
  {
    if a > 0 { Pow10Add(a - 1, b); }
  }

  /** Every `uint64_t` renders in at most 20 digits. */
  lemma Uint64Digits(x: uint64)
    ensures |Render(x as nat)| <= 20
  {
    assert Pow10(5) == 100000;
    Pow10Add(5, 5);
    Pow10Add(10, 10);
    RenderLength(x as nat, 20);
  }
}
