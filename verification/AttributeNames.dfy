/** Attribute and property names between camelCase and kebab-case.  Browsers
    lower-case attribute names, so camelCase ones travel encoded. */
module AttributeNames {

  predicate IsLower(c: char) { 'a' <= c <= 'z' }
  predicate IsUpper(c: char) { 'A' <= c <= 'Z' }

  function ToUpper(c: char): char
    requires IsLower(c)
  {
    c - 'a' + 'A'
  }

  function ToLower(c: char): char
    requires IsUpper(c)
  {
    c - 'A' + 'a'
  }

  /** Replaces every `-` and lower-case letter by the upper-case letter, from the left. */
  function KebabToCamel(s: string): string {
    if s == "" then ""
    else if s[0] == '-' && |s| >= 2 && IsLower(s[1]) then [ToUpper(s[1])] + KebabToCamel(s[2..])
    else [s[0]] + KebabToCamel(s[1..])
  }

  /** Replaces every upper-case letter by `-` and the lower-case letter. */
  function CamelToKebab(s: string): string {
    if s == "" then ""
    else (if IsUpper(s[0]) then ['-', ToLower(s[0])] else [s[0]]) + CamelToKebab(s[1..])
  }

  predicate HasUpper(s: string) { exists i :: 0 <= i < |s| && IsUpper(s[i]) }

  /** A `-` stands before a lower-case letter. */
  predicate HasHump(s: string) { exists i :: 0 <= i < |s| - 1 && s[i] == '-' && IsLower(s[i + 1]) }

  // ---------- kebab, camel, kebab ----------

  lemma {:induction false} KebabRoundTrip(s: string)
    requires !HasUpper(s)
    ensures CamelToKebab(KebabToCamel(s)) == s
  {
    if s == "" {
    } else {
      var k := if s[0] == '-' && |s| >= 2 && IsLower(s[1]) then 2 else 1;
      var t := s[k..];
      assert !HasUpper(t) by { assert forall i :: 0 <= i < |t| ==> t[i] == s[k + i]; }
      KebabRoundTrip(t);
      if k == 2 {
        var u := ToUpper(s[1]);
        assert ([u] + KebabToCamel(t))[1..] == KebabToCamel(t);
        assert ToLower(u) == s[1] && s == ['-', s[1]] + t;
      } else {
        assert ([s[0]] + KebabToCamel(t))[1..] == KebabToCamel(t);
        assert !IsUpper(s[0]) && s == [s[0]] + t;
      }
    }
  }

  lemma {:induction false} KebabHasNoUpper(s: string)
    ensures !HasUpper(CamelToKebab(s))
  {
    if s == "" {
    } else {
      KebabHasNoUpper(s[1..]);
    }
  }

  /** A text comes back from camelCase exactly when it has no upper-case letter. */
  lemma KebabRoundTripIff(s: string)
    ensures CamelToKebab(KebabToCamel(s)) == s <==> !HasUpper(s)
  {
    if !HasUpper(s) { KebabRoundTrip(s); }
    KebabHasNoUpper(KebabToCamel(s));
  }

  // ---------- camel, kebab, camel ----------

  lemma HumpInTail(s: string, k: nat)
    requires k <= |s| && HasHump(s[k..])
    ensures HasHump(s)
  {
    var t := s[k..];
    var i :| 0 <= i < |t| - 1 && t[i] == '-' && IsLower(t[i + 1]);
    assert s[k + i] == '-' && s[k + i + 1] == t[i + 1];
  }

  /** What follows a `-` that stays is no lower-case letter. */
  lemma CamelKeepsFirst(s: string)
    requires s != ""
    ensures CamelToKebab(s) != "" && (IsLower(CamelToKebab(s)[0]) ==> CamelToKebab(s)[0] == s[0])
  {
  }

  lemma {:induction false} CamelRoundTrip(s: string)
    requires !HasHump(s)
    ensures KebabToCamel(CamelToKebab(s)) == s
  {
    if s == "" {
    } else {
      var t := s[1..];
      var e := CamelToKebab(t);
      if HasHump(t) { HumpInTail(s, 1); }
      CamelRoundTrip(t);
      assert s == [s[0]] + t;
      if IsUpper(s[0]) {
        var l := ToLower(s[0]);
        assert (['-', l] + e)[2..] == e && ToUpper(l) == s[0];
      } else {
        assert ([s[0]] + e)[1..] == e;
        if s[0] == '-' && t != "" {
          CamelKeepsFirst(t);
          assert !IsLower(s[1]);
        }
      }
    }
  }

  lemma {:induction false} CamelHasNoHump(s: string)
    ensures !HasHump(KebabToCamel(s))
    ensures s != "" && KebabToCamel(s) != "" && IsLower(KebabToCamel(s)[0]) ==> KebabToCamel(s)[0] == s[0]
  {
    if s == "" {
    } else {
      var k := if s[0] == '-' && |s| >= 2 && IsLower(s[1]) then 2 else 1;
      var t := s[k..];
      var head, rest := KebabToCamel(s)[0], KebabToCamel(t);
      CamelHasNoHump(t);
      assert KebabToCamel(s) == [head] + rest;
      var out := [head] + rest;
      forall i | 0 <= i < |out| - 1 ensures !(out[i] == '-' && IsLower(out[i + 1])) {
        assert out[i + 1] == rest[i] && (i > 0 ==> out[i] == rest[i - 1]);
      }
    }
  }

  /** A name comes back from its encoding exactly when it has no `-` before a
      lower-case letter. */
  lemma CamelRoundTripIff(s: string)
    ensures KebabToCamel(CamelToKebab(s)) == s <==> !HasHump(s)
  {
    if !HasHump(s) { CamelRoundTrip(s); }
    CamelHasNoHump(CamelToKebab(s));
  }

  // ---------- the rewriting, place by place ----------

  /** A hyphen and a small letter become the capital, wherever they stand. */
  lemma {:induction false} KebabAt(a: string, c: char, b: string)
    requires 'a' <= c <= 'z'
    ensures KebabToCamel(a + ['-', c] + b) == KebabToCamel(a) + [(c as int - 32) as char] + KebabToCamel(b)
    decreases |a|
  {
    var s := a + ['-', c] + b;
    if a == "" {
      assert s[2..] == b;
    } else {
      var k := if a[0] == '-' && |a| >= 2 && IsLower(a[1]) then 2 else 1;
      assert s[k..] == a[k..] + ['-', c] + b;
      KebabAt(a[k..], c, b);
    }
  }

  /** Where there is no such place nothing changes. */
  lemma {:induction false} KebabElsewhere(s: string)
    requires !HasHump(s)
    ensures KebabToCamel(s) == s
  {
    if s == "" {
    } else {
      if HasHump(s[1..]) { HumpInTail(s, 1); }
      KebabElsewhere(s[1..]);
    }
  }

  /** A capital becomes a hyphen and the small letter, every other character stays. */
  lemma {:induction false} CamelAt(a: string, c: char, b: string)
    ensures CamelToKebab(a + [c] + b) ==
      CamelToKebab(a) + (if 'A' <= c <= 'Z' then ['-', (c as int + 32) as char] else [c]) + CamelToKebab(b)
    ensures CamelToKebab("") == ""
    decreases |a|
  {
    var s := a + [c] + b;
    if a == "" {
      assert s[1..] == b;
    } else {
      assert s[1..] == a[1..] + [c] + b;
      CamelAt(a[1..], c, b);
    }
  }

  // ---------- attributes ----------

  const PREFIX := "sc-camel-"

  /** The pattern `[a-z]+[A-Z][A-Za-z0-9]*` of the names that are encoded. */
  predicate IsCamelName(n: string) {
    exists k :: 1 <= k < |n| && IsUpper(n[k])
      && (forall i :: 0 <= i < k ==> IsLower(n[i]))
      && (forall i :: k < i < |n| ==> IsLower(n[i]) || IsUpper(n[i]) || '0' <= n[i] <= '9')
  }

  function Encode(n: string): string { PREFIX + CamelToKebab(n) }

  function Decode(key: string): string {
    if PREFIX <= key then KebabToCamel(key[|PREFIX|..]) else key
  }

  /** Every name the pattern accepts survives, in a form no browser changes. */
  lemma AttributeRoundTrip(n: string)
    requires IsCamelName(n)
    ensures Decode(Encode(n)) == n && !HasUpper(Encode(n))
  {
    AfterPrefix(CamelToKebab(n));
    assert !HasHump(n);
    CamelRoundTripIff(n);
    KebabHasNoUpper(n);
  }

  /** The encoded form, and what is left alone on the way back. */
  lemma AttributeForms(n: string, t: string)
    ensures Encode(n) == "sc-camel-" + CamelToKebab(n)
    ensures Decode("sc-camel-" + t) == KebabToCamel(t)
    ensures !("sc-camel-" <= t) ==> Decode(t) == t
  {
    AfterPrefix(t);
  }

  lemma AfterPrefix(t: string)
    ensures PREFIX <= PREFIX + t && (PREFIX + t)[|PREFIX|..] == t
    ensures !HasUpper(t) ==> !HasUpper(PREFIX + t)
  {
    var e := PREFIX + t;
    if !HasUpper(t) {
      forall i | 0 <= i < |e| ensures !IsUpper(e[i]) {
        if i >= |PREFIX| { assert e[i] == t[i - |PREFIX|]; }
      }
    }
  }
}
