/** Printing and reading numbers: the %u, %x and %X conversions. */
module Digits {
  import opened Basics

  function DigitChar(d: nat, upper: bool): (c: char)
    requires d < 16
  {
    if d < 10 then '0' + d as char
    else if upper then 'A' + (d - 10) as char
    else 'a' + (d - 10) as char
  }

  function DigitOf(c: char): (d: Option<nat>)
    ensures d.Some? ==> d.value < 16
  {
    if '0' <= c <= '9' then Some(c as int - '0' as int)
    else if 'A' <= c <= 'F' then Some(10 + c as int - 'A' as int)
    else if 'a' <= c <= 'f' then Some(10 + c as int - 'a' as int)
    else None
  }

  /** The digits of `n` in base 10 or 16, most significant first, without leading zeros. */
  function Render(n: nat, base: nat, upper: bool): (s: string)
    requires base == 10 || base == 16
    ensures s != ""
    decreases n
  {
    if n < base then [DigitChar(n, upper)] else Render(n / base, base, upper) + [DigitChar(n % base, upper)]
  }

  function Decimal(n: nat): string {
    Render(n, 10, false)
  }

  predicate IsDigitOf(c: char, base: nat) {
    DigitOf(c).Some? && DigitOf(c).value < base
  }

  /** The number a string of digits stands for. */
  function NumberOf(s: string, base: nat): (n: nat)
    requires forall i :: 0 <= i < |s| ==> IsDigitOf(s[i], base)
  {
    if s == "" then 0
    else
      assert IsDigitOf(s[|s| - 1], base);
      Shifted(NumberOf(s[..|s| - 1], base), base, DigitOf(s[|s| - 1]).value)
  }

  /** A number with one more digit at its end. */
  function Shifted(n: nat, base: nat, d: nat): nat {
    n * base + d
  }

  lemma DigitRoundTrips(d: nat, upper: bool)
    requires d < 16
    ensures DigitOf(DigitChar(d, upper)) == Some(d)
  {
  }

  /** Reading a printed number gives back the number. */
  lemma {:induction false} RenderRoundTrips(n: nat, base: nat, upper: bool)
    requires base == 10 || base == 16
    ensures forall i :: 0 <= i < |Render(n, base, upper)| ==> IsDigitOf(Render(n, base, upper)[i], base)
    ensures NumberOf(Render(n, base, upper), base) == n
    decreases n
  {
    hide DigitChar, DigitOf;
    var s := Render(n, base, upper);
    DigitRoundTrips(n % base, upper);
    if n < base {
      assert s[..0] == "";
    } else {
      RenderRoundTrips(n / base, base, upper);
      assert s[..|s| - 1] == Render(n / base, base, upper);
    }
  }

  /** `s` is a number in base `base`, and the number is `n`. */
  predicate Denotes(s: string, base: nat, n: nat) {
    s != "" && (forall i :: 0 <= i < |s| ==> IsDigitOf(s[i], base)) && NumberOf(s, base) == n
  }

  /** Hexadecimal digits are capitals if they should be, and small letters if not. */
  predicate HasCase(s: string, upper: bool) {
    forall i :: 0 <= i < |s| ==> if upper then !('a' <= s[i] <= 'z') else !('A' <= s[i] <= 'Z')
  }

  lemma {:induction false} RenderDenotes(n: nat, base: nat, upper: bool)
    requires base == 10 || base == 16
    ensures Denotes(Render(n, base, upper), base, n) && HasCase(Render(n, base, upper), upper)
    decreases n
  {
    hide NumberOf;
    RenderRoundTrips(n, base, upper);
    if n >= base {
      RenderDenotes(n / base, base, upper);
    }
  }

  /** Only zero starts with a zero. */
  lemma {:induction false} NoLeadingZero(n: nat, base: nat, upper: bool)
    requires base == 10 || base == 16
    ensures Render(n, base, upper)[0] == '0' ==> n == 0
    decreases n
  {
    if n < base {
    } else {
      NoLeadingZero(n / base, base, upper);
    }
  }

  /** A number below base ^ k has at most k digits. */
  lemma {:induction false} RenderLength(n: nat, base: nat, upper: bool, k: nat, bound: nat)
    requires (base == 10 || base == 16) && 0 < k && n < bound && bound <= Power(base, k)
    ensures |Render(n, base, upper)| <= k
    decreases n
  {
    if n < base || k == 1 {
    } else {
      assert n / base < Power(base, k - 1);
      RenderLength(n / base, base, upper, k - 1, Power(base, k - 1));
    }
  }

  function Power(base: nat, k: nat): nat {
    if k == 0 then 1 else base * Power(base, k - 1)
  }
}
