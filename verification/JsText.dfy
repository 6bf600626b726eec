/** The parts of JavaScript that several components of the runtime rely on: the
    white space that `trim` and the pattern `\s` recognise, `trim` itself, joining,
    and what can be thrown.

    Texts are sequences of characters.  `Trim` is computed from both ends; the
    lemmas say that a text is its trimmed core between two runs of white space, and
    that the core is the only one. */
module JsText {

  datatype Option<+T> = None | Some(value: T)

  /** A thrown value: `String(e)` gives a text, or throws in its turn, as it does
      for an object without a prototype. */
  datatype Exception = Textual | Textless

  /** White space and line terminators, as `String.prototype.trim` and `\s` see them. */
  predicate IsSpace(c: char) {
    c == '\t' || c == '\n' || c == '\U{0B}' || c == '\U{0C}' || c == '\r' || c == ' ' ||
    c == '\U{A0}' || c == '\U{1680}' || '\U{2000}' <= c <= '\U{200A}' ||
    c == '\U{2028}' || c == '\U{2029}' || c == '\U{202F}' || c == '\U{205F}' ||
    c == '\U{3000}' || c == '\U{FEFF}'
  }

  predicate AllSpace(s: string) {
    forall i :: 0 <= i < |s| ==> IsSpace(s[i])
  }

  /** Neither end of the text is white space. */
  predicate Trimmed(s: string) {
    s == "" || (!IsSpace(s[0]) && !IsSpace(s[|s| - 1]))
  }

  function TrimLeft(s: string): (t: string)
    ensures |t| <= |s|
  {
    if s != "" && IsSpace(s[0]) then TrimLeft(s[1..]) else s
  }

  function TrimRight(s: string): (t: string)
    ensures |t| <= |s|
  {
    if s != "" && IsSpace(s[|s| - 1]) then TrimRight(s[..|s| - 1]) else s
  }

  function Trim(s: string): (t: string)
    ensures |t| <= |s|
  {
    TrimRight(TrimLeft(s))
  }

  lemma {:induction false} TrimLeftSplits(s: string) returns (l: string)
    ensures s == l + TrimLeft(s) && AllSpace(l)
    ensures TrimLeft(s) != "" ==> !IsSpace(TrimLeft(s)[0])
  {
    if s != "" && IsSpace(s[0]) {
      l := TrimLeftSplits(s[1..]);
      l := [s[0]] + l;
    } else {
      l := "";
    }
  }

  lemma {:induction false} TrimRightSplits(s: string) returns (r: string)
    ensures s == TrimRight(s) + r && AllSpace(r)
    ensures TrimRight(s) != "" ==> TrimRight(s)[0] == s[0] && !IsSpace(TrimRight(s)[|TrimRight(s)| - 1])
  {
    if s != "" && IsSpace(s[|s| - 1]) {
      r := TrimRightSplits(s[..|s| - 1]);
      r := r + [s[|s| - 1]];
    } else {
      r := "";
    }
  }

  /** A text is its trimmed core between two runs of white space. */
  lemma TrimSplits(s: string) returns (l: string, r: string)
    ensures s == l + Trim(s) + r && AllSpace(l) && AllSpace(r) && Trimmed(Trim(s))
  {
    l := TrimLeftSplits(s);
    r := TrimRightSplits(TrimLeft(s));
    Assoc(l, Trim(s), r);
  }

  /** The trimmed core is the only one: whatever surrounds a trimmed text, `Trim` finds it. */
  lemma TrimUnique(l: string, t: string, r: string)
    requires AllSpace(l) && AllSpace(r) && Trimmed(t)
    ensures Trim(l + t + r) == t
  {
    assert l + (t + r) == l + t + r;
    TrimLeftSkips(l, t + r);
    if t == "" {
      assert t + r == r && r + "" == r;
      TrimLeftSkips(r, "");
    } else {
      assert (t + r)[0] == t[0];
      TrimRightSkips(t, r);
      assert TrimRight(t) == t;
    }
  }

  lemma {:induction false} TrimLeftSkips(l: string, s: string)
    requires AllSpace(l)
    ensures TrimLeft(l + s) == TrimLeft(s)
  {
    if l == "" {
      assert l + s == s;
    } else {
      assert (l + s)[1..] == l[1..] + s;
      TrimLeftSkips(l[1..], s);
    }
  }

  lemma {:induction false} TrimRightSkips(s: string, r: string)
    requires AllSpace(r)
    ensures TrimRight(s + r) == TrimRight(s)
  {
    if r == "" {
      assert s + r == s;
    } else {
      var n := |r| - 1;
      assert (s + r)[..|s + r| - 1] == s + r[..n];
      assert (s + r)[|s + r| - 1] == r[n];
      TrimRightSkips(s, r[..n]);
    }
  }

  lemma TrimOfTrimmed(t: string)
    requires Trimmed(t)
    ensures Trim(t) == t
  {
    TrimUnique("", t, "");
    assert "" + t + "" == t;
  }

  lemma TrimLeftBlank(s: string)
    ensures TrimLeft(s) == "" <==> AllSpace(s)
  {
    var l := TrimLeftSplits(s);
    if TrimLeft(s) != "" { assert s[|l|] == TrimLeft(s)[0]; }
  }

  lemma Regroup(l: string, x: string, t: string, q: string, r: string)
    ensures (l + x) + t + (q + r) == l + (x + t + q) + r
  {
  }

  /** The core's ends are not white space, even if the outer parts are trimmed on
      one side only. */
  lemma CoreEnds(x: string, t: string, q: string)
    requires t != "" && Trimmed(t) && (x != "" ==> !IsSpace(x[0])) && (q != "" ==> !IsSpace(q[|q| - 1]))
    ensures Trimmed(x + t + q)
  {
    var core := x + t + q;
    assert core[0] == if x == "" then t[0] else x[0];
    assert core[|core| - 1] == if q == "" then t[|t| - 1] else q[|q| - 1];
  }

  /** White space goes from both ends of a text whose middle begins and ends without. */
  lemma TrimAround(a: string, t: string, z: string)
    requires t != "" && Trimmed(t)
    ensures Trim(a + t + z) == TrimLeft(a) + t + TrimRight(z)
  {
    var l := TrimLeftSplits(a);
    var r := TrimRightSplits(z);
    var x, q := TrimLeft(a), TrimRight(z);
    Regroup(l, x, t, q, r);
    CoreEnds(x, t, q);
    TrimUnique(l, x + t + q, r);
  }

  lemma TrimRightBlank(s: string)
    ensures TrimRight(s) == "" <==> AllSpace(s)
  {
    var r := TrimRightSplits(s);
    var q := TrimRight(s);
    if q != "" { assert s[|q| - 1] == q[|q| - 1]; }
  }

  lemma FrontLast<T>(s: seq<T>)
    requires s != []
    ensures s[..|s| - 1] + [s[|s| - 1]] == s
  {
  }

  lemma AppendEmpty<T>(s: seq<T>)
    ensures s + [] == s && [] + s == s
  {
  }

  lemma Assoc<T>(a: seq<T>, b: seq<T>, c: seq<T>)
    ensures (a + b) + c == a + (b + c)
  {
  }

  /** `parts.join(sep)`. */
  function Join(parts: seq<string>, sep: string): string {
    if parts == [] then ""
    else if |parts| == 1 then parts[0]
    else parts[0] + sep + Join(parts[1..], sep)
  }

  lemma {:induction false} JoinAppend(a: seq<string>, b: seq<string>, sep: string)
    requires a != [] && b != []
    ensures Join(a + b, sep) == Join(a, sep) + sep + Join(b, sep)
  {
    if |a| == 1 {
      assert (a + b)[1..] == b;
    } else {
      assert (a + b)[1..] == a[1..] + b;
      JoinAppend(a[1..], b, sep);
    }
  }
}
