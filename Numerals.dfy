/**
 * Digits and numerals as CPython reads and writes them: `str(n)` for the page
 * numbers of a paged list, and the digit table behind `int(s, 16)` for colours.
 */
module Numerals {

  /** The value CPython's digit table gives a character: 0-9 for decimal digits,
      10-35 for letters of either case, and 37 for everything else. */
  function CharValue(c: char): nat
  {
    if '0' <= c <= '9' then c as nat - '0' as nat
    else if 'a' <= c <= 'z' then c as nat - 'a' as nat + 10
    else if 'A' <= c <= 'Z' then c as nat - 'A' as nat + 10
    else 37
  }

  /** `c` is a digit of `base`. */
  predicate IsDigit(c: char, base: nat)
  {
    CharValue(c) < base
  }

  /** The character CPython writes for digit `d` (lower-case letters). */
  function DigitChar(d: nat): (c: char)
    requires d < 16
    ensures CharValue(c) == d
  {
    if d < 10 then ('0' as nat + d) as char else ('a' as nat + d - 10) as char
  }

  /** The value of a string of digits of `base`, most significant first. */
  function ValueOf(ds: string, base: nat): nat
    requires forall i :: 0 <= i < |ds| ==> IsDigit(ds[i], base)
    decreases |ds|
  {
    if ds == [] then 0
    else ValueOf(ds[..|ds| - 1], base) * base + CharValue(ds[|ds| - 1])
  }

  /** The numeral of `n` in `base`, without leading zeros: `str(n)` for base 10. */
  function Show(n: nat, base: nat): (s: string)
    requires 2 <= base <= 16
    ensures |s| >= 1
    ensures forall i :: 0 <= i < |s| ==> IsDigit(s[i], base)
    ensures s[0] == '0' <==> n == 0
    ensures s[0] == '0' ==> s == "0"
    decreases n
  {
    if n < base then [DigitChar(n)]
    else
      DivideByBase(n, base);
      Show(n / base, base) + [DigitChar(n % base)]
  }

  /** Splitting off the last digit of a number with more than one digit. */
  lemma DivideByBase(n: nat, base: nat)
    requires 2 <= base <= n
    ensures 1 <= n / base < n && n % base < base
    ensures n == (n / base) * base + n % base
  {
    var q, r := n / base, n % base;
    assert n == q * base + r && 0 <= r < base;
    assert q >= 1;
    AtLeastDouble(q, base);
  }

  lemma AtLeastDouble(q: nat, base: nat)
    requires base >= 2
    ensures q * base >= 2 * q
  {
    assert q * base == q * (base - 2) + 2 * q;
  }

  /** Reading back a numeral gives the number it was written for. */
  lemma {:induction false} ValueOfShow(n: nat, base: nat)
    requires 2 <= base <= 16
    ensures ValueOf(Show(n, base), base) == n
    decreases n
  {
    var s := Show(n, base);
    if n >= base {
      var q, r := n / base, n % base;
      DivideByBase(n, base);
      ValueOfShow(q, base);
      assert s == Show(q, base) + [DigitChar(r)];
      assert s[..|s| - 1] == Show(q, base);
      assert ValueOf(s, base) == ValueOf(Show(q, base), base) * base + CharValue(DigitChar(r));
    } else {
      assert s[..|s| - 1] == [];
    }
  }

  /** Two numbers with the same numeral are equal. */
  lemma ShowInjective(m: nat, n: nat, base: nat)
    requires 2 <= base <= 16
    requires Show(m, base) == Show(n, base)
    ensures m == n
  {
    ValueOfShow(m, base);
    ValueOfShow(n, base);
  }
}
