/** `n.toString(b)` for natural numbers, in the two bases the runtime uses. */
module Radix {
  type Base = b: nat | b == 10 || b == 36 witness 10

  function Quotient(b: Base, n: nat): nat { if b == 10 then n / 10 else n / 36 }
  function Remainder(b: Base, n: nat): nat { if b == 10 then n % 10 else n % 36 }

  function Digit(d: nat): char
    requires d < 36
  {
    if d < 10 then '0' + d as char else 'a' + (d - 10) as char
  }

  function ToText(b: Base, n: nat): string
    decreases n
  {
    if n < b then [Digit(n)] else ToText(b, Quotient(b, n)) + [Digit(Remainder(b, n))]
  }

  function DigitValue(c: char): int {
    if '0' <= c <= '9' then c as int - '0' as int else c as int - 'a' as int + 10
  }

  function FromText(b: Base, s: string): int {
    if s == "" then 0
    else
      var high := FromText(b, s[..|s| - 1]);
      (if b == 10 then high * 10 else high * 36) + DigitValue(s[|s| - 1])
  }

  lemma DigitBack(d: nat)
    requires d < 36
    ensures DigitValue(Digit(d)) == d && Digit(d) != '.'
  {
  }

  lemma {:induction false} RoundTrip(b: Base, n: nat)
    ensures FromText(b, ToText(b, n)) == n
    decreases n
  {
    if n >= b {
      var t := ToText(b, Quotient(b, n));
      RoundTrip(b, Quotient(b, n));
      DigitBack(Remainder(b, n));
      assert ToText(b, n)[..|t|] == t;
    } else {
      DigitBack(n);
      assert [Digit(n)][..0] == "";
    }
  }

  lemma Injective(b: Base, m: nat, n: nat)
    requires ToText(b, m) == ToText(b, n)
    ensures m == n
  {
    RoundTrip(b, m);
    RoundTrip(b, n);
  }

  lemma {:induction false} NoDot(b: Base, n: nat)
    ensures '.' !in ToText(b, n)
    decreases n
  {
    if n >= b {
      NoDot(b, Quotient(b, n));
      DigitBack(Remainder(b, n));
    } else {
      DigitBack(n);
    }
  }

  /** Digits from the right: `0` to `9`, then `a` to `z`. */
  lemma Digits(b: Base, n: nat, d: nat)
    requires d < b
    ensures var c := if d < 10 then (48 + d) as char else (87 + d) as char;
      && ToText(b, d) == [c]
      && (n > 0 ==> ToText(b, n * b + d) == ToText(b, n) + [c])
  {
    if b == 10 {
      assert (n * 10 + d) / 10 == n && (n * 10 + d) % 10 == d;
    } else {
      assert (n * 36 + d) / 36 == n && (n * 36 + d) % 36 == d;
    }
  }
}
