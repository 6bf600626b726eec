/** The hash of inline content (compile.ts): a shift-and-add loop on 32-bit
    integers, computed by the original in double-precision numbers. */
module ContentKey {
  import Radix

  const TWO31: int := 0x8000_0000
  const TWO32: int := 0x1_0000_0000
  /** Below this every integer is a double. */
  const TWO53: int := 0x20_0000_0000_0000

  /** A UTF-16 code unit, as `charCodeAt` returns it. */
  type CodeUnit = c: nat | c < 0x1_0000

  type Int32 = x: int | -TWO31 <= x < TWO31

  /** `x | 0`. */
  function ToInt32(x: int): (r: Int32) {
    var m := x % TWO32;
    if m >= TWO31 then m - TWO32 else m
  }

  /** `x >>> 0`. */
  function ToUint32(x: Int32): (r: nat)
    ensures r < TWO32
  {
    if x < 0 then x + TWO32 else x
  }

  function Pow33(n: nat): nat { if n == 0 then 1 else 33 * Pow33(n - 1) }

  /** `5381 * 33^n + c0 * 33^(n-1) + ... + c(n-1)`, as a sum of independent terms. */
  function Terms(s: seq<CodeUnit>, i: nat): nat
    requires i <= |s|
  {
    if i == 0 then 0 else Terms(s, i - 1) + s[i - 1] * Pow33(|s| - i)
  }

  function Polynomial(s: seq<CodeUnit>): nat { 5381 * Pow33(|s|) + Terms(s, |s|) }

  lemma ToInt32Mod(x: int)
    ensures ToInt32(x) % TWO32 == x % TWO32 && ToUint32(ToInt32(x)) == x % TWO32
  {
  }

  /** Reduction modulo 2^32 goes through a step of the loop. */
  lemma StepMod(h: int, p: int, c: int)
    requires h % TWO32 == p % TWO32
    ensures (33 * h + c) % TWO32 == (33 * p + c) % TWO32
  {
    var q := (h - p) / TWO32;
    assert h == p + q * TWO32 by { assert (h - p) % TWO32 == 0; }
    AddMultiple(33 * p + c, 33 * q);
  }

  lemma AddMultiple(x: int, q: int)
    ensures (x + q * TWO32) % TWO32 == x % TWO32
  {
  }

  /** Horner's rule: the terms of a text and one more character. */
  lemma {:induction false} TermsStep(s: seq<CodeUnit>, c: CodeUnit, i: nat)
    requires i <= |s|
    ensures Terms(s + [c], i) == 33 * Terms(s, i)
  {
    if i == 0 {
    } else {
      TermsStep(s, c, i - 1);
      assert Pow33(|s| + 1 - i) == 33 * Pow33(|s| - i);
      var x, p := s[i - 1], Pow33(|s| - i);
      assert x * (33 * p) == 33 * (x * p);
    }
  }

  /** The polynomial by its recurrence. */
  lemma PolynomialStep(s: seq<CodeUnit>, c: CodeUnit)
    ensures Polynomial([]) == 5381 && Polynomial(s + [c]) == 33 * Polynomial(s) + c
  {
    TermsStep(s, c, |s|);
    assert Pow33(0) == 1;
    assert Terms(s + [c], |s| + 1) == Terms(s + [c], |s|) + c * 1;
  }

  /** The sum of one turn of the loop, before it is truncated. */
  function Sum(h: Int32, c: CodeUnit): int { ToInt32(h * 32) + h + c }

  lemma HashStep(h: Int32, c: CodeUnit, p: int)
    requires h % TWO32 == p % TWO32
    ensures -TWO53 < Sum(h, c) < TWO53
    ensures ToInt32(Sum(h, c)) % TWO32 == (33 * p + c) % TWO32
  {
    var shifted := ToInt32(h * 32);
    ToInt32Mod(h * 32);
    var q := (shifted - h * 32) / TWO32;
    assert shifted == h * 32 + q * TWO32 by { assert (shifted - h * 32) % TWO32 == 0; }
    AddMultiple(33 * h + c, q);
    ToInt32Mod(Sum(h, c));
    StepMod(h, p, c);
  }

  /** The loop: `h2 = (h2 << 5) + h2 + s.charCodeAt(i) | 0`.  The sum before the
      truncation stays far inside the range where doubles are exact, so the
      number computed is the polynomial modulo 2^32. */
  method Hash(s: seq<CodeUnit>) returns (h: nat)
    ensures h == Polynomial(s) % 0x1_0000_0000
  {
    var h2: Int32 := 5381;
    for i := 0 to |s|
      invariant h2 % TWO32 == Polynomial(s[..i]) % TWO32
    {
      HashStep(h2, s[i], Polynomial(s[..i]));
      PolynomialStep(s[..i], s[i]);
      assert s[..i + 1] == s[..i] + [s[i]];
      assert -TWO53 < Sum(h2, s[i]) < TWO53;
      h2 := ToInt32(Sum(h2, s[i]));
    }
    assert s[..|s|] == s;
    ToInt32Mod(h2);
    h := ToUint32(h2);
  }

  /** The key of a content: its length, a dot and the hash in base 36. */
  function KeyText(s: seq<CodeUnit>): string {
    Radix.ToText(10, |s|) + "." + Radix.ToText(36, Polynomial(s) % TWO32)
  }

  method Key(s: seq<CodeUnit>) returns (k: string)
    ensures k == KeyText(s) == Radix.ToText(10, |s|) + "." + Radix.ToText(36, Polynomial(s) % 0x1_0000_0000)
  {
    var h := Hash(s);
    k := Radix.ToText(10, |s|) + "." + Radix.ToText(36, h);
  }

  // ---------- what the hash tells apart ----------

  lemma {:induction false} OddPower(n: nat)
    ensures Pow33(n) % 2 == 1
  {
    if n == 0 {
    } else {
      OddPower(n - 1);
      var x := Pow33(n - 1);
      assert Pow33(n) == 2 * (16 * x) + x;
    }
  }

  function Pow2(k: nat): nat { if k == 0 then 1 else 2 * Pow2(k - 1) }

  /** An odd factor can be cancelled in divisibility by a power of two. */
  lemma {:induction false} OddCancels(k: nat, d: int, m: int, q: int) returns (r: int)
    requires m % 2 == 1 && d * m == q * Pow2(k)
    ensures d == r * Pow2(k)
  {
    if k == 0 {
      r := d;
    } else {
      var half := Pow2(k - 1);
      assert d * m == 2 * (q * half);
      assert d % 2 == 0 by { EvenFactor(d, m); }
      var e := d / 2;
      assert 2 * (e * m) == 2 * (q * half);
      r := OddCancels(k - 1, e, m, q);
      assert r * Pow2(k) == 2 * (r * half);
    }
  }

  lemma EvenFactor(d: int, m: int)
    requires m % 2 == 1 && (d * m) % 2 == 0
    ensures d % 2 == 0
  {
    var n := m / 2;
    assert d * m == 2 * (d * n) + d;
  }

  lemma FactorDifference(a: int, b: int, p: int)
    ensures a * p - b * p == (a - b) * p
  {
  }

  lemma {:induction false} TermsDiffer(s: seq<CodeUnit>, k: nat, c: CodeUnit, i: nat)
    requires k < |s| && i <= |s|
    ensures Terms(s[k := c], i) - Terms(s, i) == if i <= k then 0 else (c - s[k]) * Pow33(|s| - 1 - k)
  {
    if i == 0 {
    } else {
      TermsDiffer(s, k, c, i - 1);
      var t := s[k := c];
      assert t[i - 1] == if i - 1 == k then c else s[i - 1];
      if i - 1 == k { FactorDifference(c, s[k], Pow33(|s| - i)); }
    }
  }

  /** A product of a small number and an odd one is no multiple of 2^32. */
  lemma SmallTimesOdd(d: int, m: int, q: int)
    requires m % 2 == 1 && d * m == q * TWO32 && -0x1_0000 < d < 0x1_0000
    ensures d == 0
  {
    assert Pow2(8) == 0x100;
    assert Pow2(16) == 0x1_0000;
    assert Pow2(24) == 0x100_0000;
    assert Pow2(32) == TWO32;
    var r := OddCancels(32, d, m, q);
  }

  /** Contents of one length that differ in exactly one character never share a
      hash: 33 is odd, and a character has only 16 bits. */
  lemma OneCharacterShows(s: seq<CodeUnit>, k: nat, c: CodeUnit)
    requires k < |s| && c != s[k]
    ensures Polynomial(s[k := c]) % TWO32 != Polynomial(s) % TWO32
  {
    TermsDiffer(s, k, c, |s|);
    var d, m := c - s[k], Pow33(|s| - 1 - k);
    OddPower(|s| - 1 - k);
    var a, b := Polynomial(s[k := c]), Polynomial(s);
    assert a - b == d * m;
    var q := a / TWO32 - b / TWO32;
    if a % TWO32 == b % TWO32 {
      assert a - b == q * TWO32;
      SmallTimesOdd(d, m, q);
    }
  }

  lemma DotSplits(a: string, b: string, a': string, b': string)
    requires '.' !in a && '.' !in a' && a + "." + b == a' + "." + b'
    ensures a == a' && b == b'
  {
    var t := a + "." + b;
    assert t[|a|] == '.' && t[|a'|] == '.';
    assert forall i :: 0 <= i < |a| ==> t[i] == a[i];
    assert forall i :: 0 <= i < |a'| ==> t[i] == a'[i];
    assert |a| == |a'|;
    assert t[..|a|] == a && t[..|a'|] == a' && t[|a| + 1..] == b && t[|a'| + 1..] == b';
  }

  /** Contents have the same key exactly when they have the same length and hash. */
  lemma SameKeyIff(s: seq<CodeUnit>, t: seq<CodeUnit>)
    ensures KeyText(s) == KeyText(t) <==> |s| == |t| && Polynomial(s) % TWO32 == Polynomial(t) % TWO32
  {
    if KeyText(s) == KeyText(t) {
      Radix.NoDot(10, |s|);
      Radix.NoDot(10, |t|);
      var hs, ht := Polynomial(s) % TWO32, Polynomial(t) % TWO32;
      DotSplits(Radix.ToText(10, |s|), Radix.ToText(36, hs), Radix.ToText(10, |t|), Radix.ToText(36, ht));
      Radix.Injective(10, |s|, |t|);
      Radix.Injective(36, hs, ht);
    }
  }
}
