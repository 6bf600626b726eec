/** Text with `{{ }}` holes, as template text and attribute values have it. */
module Interpolation {
  import opened JsText
  import opened Expr
  import opened ExprPrint
  import opened ExprRoundTrip

  // ---------- splitting at the holes ----------

  /** The first `}}` from `j` on, or the end of the text. */
  function Close(s: string, j: nat): (k: nat)
    requires j <= |s|
    ensures j <= k <= |s|
    decreases |s| - j
  {
    if j + 1 >= |s| then |s| else if s[j] == '}' && s[j + 1] == '}' then j else Close(s, j + 1)
  }

  /** A hole starts at `i`: two braces, at least one character, two braces. */
  predicate HoleAt(s: string, i: nat) {
    i + 3 <= |s| && s[i] == '{' && s[i + 1] == '{' && Close(s, i + 3) < |s|
  }

  /** The first hole from `i` on, or the end of the text. */
  function FirstHole(s: string, i: nat): (n: nat)
    requires i <= |s|
    ensures i <= n <= |s| && (n < |s| ==> HoleAt(s, n))
    decreases |s| - i
  {
    if i == |s| || HoleAt(s, i) then i else FirstHole(s, i + 1)
  }

  /** The value of `s.split` at the pattern for one hole: literals and hole texts in turn. */
  function SplitHoles(s: string): (parts: seq<string>)
    ensures |parts| % 2 == 1
    decreases |s|
  {
    var a := FirstHole(s, 0);
    if a == |s| then [s]
    else
      CloseIsClose(s, a + 3);
      var k := Close(s, a + 3);
      [s[..a], s[a + 2..k]] + SplitHoles(s[k + 2..])
  }

  /** The text that a list of literals and hole texts stands for. */
  function Glue(parts: seq<string>): string
    requires |parts| % 2 == 1
  {
    if |parts| == 1 then parts[0] else parts[0] + ("{{" + parts[1] + "}}") + Glue(parts[2..])
  }

  lemma {:induction false} CloseIsClose(s: string, j: nat)
    requires j <= |s|
    ensures var k := Close(s, j);
      && (k < |s| ==> k + 2 <= |s| && s[k] == '}' && s[k + 1] == '}')
      && (forall m :: j <= m < k && m + 1 < |s| ==> !(s[m] == '}' && s[m + 1] == '}'))
    decreases |s| - j
  {
    if j + 1 < |s| && !(s[j] == '}' && s[j + 1] == '}') { CloseIsClose(s, j + 1); }
  }

  lemma CloseBound(s: string, j: nat, k: nat)
    requires j <= k && k + 2 <= |s| && s[k] == '}' && s[k + 1] == '}'
    ensures Close(s, j) <= k
  {
    CloseIsClose(s, j);
  }

  lemma {:induction false} CloseIs(s: string, j: nat, k: nat)
    requires j <= k && k + 2 <= |s| && s[k] == '}' && s[k + 1] == '}'
    requires forall m :: j <= m < k ==> !(s[m] == '}' && s[m + 1] == '}')
    ensures Close(s, j) == k
    decreases k - j
  {
    if j == k {
    } else {
      CloseIs(s, j + 1, k);
    }
  }

  lemma {:induction false} FirstHoleIs(s: string, i: nat, n: nat)
    requires i <= n < |s| && HoleAt(s, n) && forall m :: i <= m < n ==> !HoleAt(s, m)
    ensures FirstHole(s, i) == n
    decreases n - i
  {
    if i == n {
    } else {
      FirstHoleIs(s, i + 1, n);
    }
  }

  lemma {:induction false} NoHoleBefore(s: string, i: nat)
    requires i <= |s|
    ensures forall m :: i <= m < FirstHole(s, i) ==> !HoleAt(s, m)
    decreases |s| - i
  {
    if i < |s| && !HoleAt(s, i) { NoHoleBefore(s, i + 1); }
  }

  /** A literal before a hole: no two braces in it, and none at its end. */
  predicate LiteralOk(l: string) {
    forall i :: 0 <= i < |l| && l[i] == '{' ==> i + 1 < |l| && l[i + 1] != '{'
  }

  /** A hole text: not empty, and closed by nothing before its end. */
  predicate HoleOk(h: string) {
    h != "" && forall i :: 1 <= i < |h| && h[i] == '}' ==> i + 1 < |h| && h[i + 1] != '}'
  }

  /** The lists that splitting produces; after the last hole anything may follow
      that holds none. */
  predicate Canonical(parts: seq<string>)
    requires |parts| % 2 == 1
  {
    if |parts| == 1 then FirstHole(parts[0], 0) == |parts[0]|
    else LiteralOk(parts[0]) && HoleOk(parts[1]) && Canonical(parts[2..])
  }

  /** Putting the braces back gives the text that was split. */
  lemma {:induction false} GlueOfSplit(s: string)
    ensures Glue(SplitHoles(s)) == s
    decreases |s|
  {
    var a := FirstHole(s, 0);
    if a < |s| {
      CloseIsClose(s, a + 3);
      var k := Close(s, a + 3);
      var rest := s[k + 2..];
      GlueOfSplit(rest);
      var parts := SplitHoles(s);
      assert parts[2..] == SplitHoles(rest);
      HoleSlice(s, a, k);
    }
  }

  lemma HoleSlice(s: string, a: nat, k: nat)
    requires a + 2 <= k && k + 2 <= |s| && s[a] == '{' && s[a + 1] == '{' && s[k] == '}' && s[k + 1] == '}'
    ensures s[..a] + ("{{" + s[a + 2..k] + "}}") + s[k + 2..] == s
  {
    assert s[a..a + 2] == "{{" && s[k..k + 2] == "}}";
    assert "{{" + s[a + 2..k] + "}}" == s[a..k + 2];
  }

  lemma NoBraceBefore(s: string, a: nat, k: nat, i: nat)
    requires i < a && a + 3 <= k && k + 2 <= |s| && s[k] == '}' && s[k + 1] == '}'
    requires !HoleAt(s, i) && s[i] == '{'
    ensures s[i + 1] != '{'
  {
    CloseBound(s, i + 3, k);
  }

  lemma {:induction false} LiteralBefore(s: string)
    requires FirstHole(s, 0) < |s|
    ensures LiteralOk(s[..FirstHole(s, 0)])
  {
    var a := FirstHole(s, 0);
    CloseIsClose(s, a + 3);
    forall i | 0 <= i < a && s[i] == '{'
      ensures i + 1 < a && s[i + 1] != '{'
    {
      NoHoleBefore(s, 0);
      NoBraceBefore(s, a, Close(s, a + 3), i);
    }
  }

  lemma {:induction false} HoleBetween(s: string, a: nat)
    requires HoleAt(s, a)
    ensures HoleOk(s[a + 2..Close(s, a + 3)])
  {
    CloseIsClose(s, a + 3);
    var k := Close(s, a + 3);
    var h := s[a + 2..k];
    forall i | 1 <= i < |h| && h[i] == '}'
      ensures i + 1 < |h| && h[i + 1] != '}'
    {
      assert s[a + 2 + i] == '}';
    }
  }

  lemma {:induction false} SplitIsCanonical(s: string)
    ensures Canonical(SplitHoles(s))
    decreases |s|
  {
    var a := FirstHole(s, 0);
    if a < |s| {
      LiteralBefore(s);
      HoleBetween(s, a);
      CloseIsClose(s, a + 3);
      var rest := s[Close(s, a + 3) + 2..];
      SplitIsCanonical(rest);
      assert SplitHoles(s)[2..] == SplitHoles(rest);
    }
  }

  /** Reading back: the first hole of a glued text is where it was put. */
  lemma {:induction false} FirstHoleOfGlue(l: string, h: string, t: string)
    requires LiteralOk(l) && HoleOk(h)
    ensures var s := l + ("{{" + h + "}}") + t;
      && FirstHole(s, 0) == |l| && |l| + 3 <= |s| && Close(s, |l| + 3) == |l| + 2 + |h| && |l| + 4 + |h| <= |s|
      && s[..|l|] == l && s[|l| + 2..|l| + 2 + |h|] == h && s[|l| + 4 + |h|..] == t
  {
    var s, k := l + ("{{" + h + "}}") + t, |l| + 2 + |h|;
    assert s[|l|] == '{' && s[|l| + 1] == '{' && s[k] == '}' && s[k + 1] == '}';
    assert forall m :: 0 <= m < |h| ==> s[|l| + 2 + m] == h[m];
    CloseIs(s, |l| + 3, k);
    assert forall m :: 0 <= m < |l| ==> s[m] == l[m];
    FirstHoleIs(s, 0, |l|);
  }

  lemma {:induction false} SplitFirst(l: string, h: string, t: string)
    requires LiteralOk(l) && HoleOk(h)
    ensures SplitHoles(l + ("{{" + h + "}}") + t) == [l, h] + SplitHoles(t)
  {
    FirstHoleOfGlue(l, h, t);
  }

  lemma {:induction false} FirstTwo(parts: seq<string>)
    requires |parts| % 2 == 1 && |parts| > 1
    ensures Glue(parts) == parts[0] + ("{{" + parts[1] + "}}") + Glue(parts[2..])
    ensures [parts[0], parts[1]] + parts[2..] == parts
  {
  }

  lemma {:induction false} SplitOfGlue(parts: seq<string>)
    requires |parts| % 2 == 1 && Canonical(parts)
    ensures SplitHoles(Glue(parts)) == parts
  {
    if |parts| == 1 {
    } else {
      SplitOfGlue(parts[2..]);
      SplitFirst(parts[0], parts[1], Glue(parts[2..]));
      FirstTwo(parts);
    }
  }

  /** A list of literals and hole texts survives being written and split again
      exactly when it is canonical. */
  lemma {:induction false} SplitOfGlueIff(parts: seq<string>)
    requires |parts| % 2 == 1
    ensures SplitHoles(Glue(parts)) == parts <==> Canonical(parts)
  {
    if Canonical(parts) { SplitOfGlue(parts); }
    SplitIsCanonical(Glue(parts));
  }

  // ---------- attribute values ----------

  /** The text between the braces of a value that is, white space apart, one pair of them. */
  function WholeHole(raw: string): Option<string> {
    var t := Trim(raw);
    if |t| >= 5 && t[0] == '{' && t[1] == '{' && t[|t| - 2] == '}' && t[|t| - 1] == '}'
    then Some(t[2..|t| - 2]) else None
  }

  predicate ClosesBare(q: string) {
    q == "" || (q[|q| - 1] == '}' && (|q| == 1 || q[|q| - 2] == '}'))
  }

  /** A literal after which a value still ends with the braces of a hole: blank, or
      with closing braces of its own. */
  predicate Closes(last: string) { ClosesBare(TrimRight(last)) }

  /** Everything between the first hole's opening and the last hole's closing braces. */
  lemma {:induction false} GlueEnds(parts: seq<string>) returns (mid: string, u: string)
    requires |parts| % 2 == 1 && |parts| > 1
    ensures Glue(parts) == parts[0] + ("{{" + mid + "}}") + parts[|parts| - 1]
    ensures mid == parts[1] + u && (u == "" <==> |parts| == 3) && (u != "" ==> "}}" <= u)
  {
    if |parts| == 3 {
      mid, u := parts[1], "";
    } else {
      var m, _ := GlueEnds(parts[2..]);
      u := "}}" + parts[2] + "{{" + m;
      mid := parts[1] + u;
      assert Glue(parts) == parts[0] + ("{{" + parts[1] + "}}") + (parts[2] + ("{{" + m + "}}") + parts[|parts| - 1]);
    }
  }

  /** The text that is left of closing braces and what follows, without its last two. */
  function Remainder(v: string, q: string): string { v + ("}}" + q)[..|q|] }

  lemma CloseEnds(mid: string, q: string)
    requires mid != ""
    ensures var t := "{{" + mid + "}}" + q;
      |t| >= 5 && t[0] == '{' && t[1] == '{' && (t[|t| - 2] == '}' && t[|t| - 1] == '}' <==> ClosesBare(q))
  {
  }

  lemma InnerText(h: string, v: string, q: string)
    ensures var t := "{{" + (h + v) + "}}" + q; t[2..|t| - 2] == h + Remainder(v, q)
  {
    var t, tail := "{{" + (h + v) + "}}" + q, "}}" + q;
    assert tail == tail[..|q|] + tail[|q|..];
    assert t == "{{" + (h + Remainder(v, q)) + tail[|q|..];
  }

  lemma RemainderShape(v: string, q: string)
    requires (v != "" ==> "}}" <= v) && ClosesBare(q)
    ensures var u := Remainder(v, q);
      (u == "" <==> v == "" && q == "") && (u != "" ==> u == "}" || "}}" <= u)
  {
    var u := Remainder(v, q);
    if v != "" {
      assert u[..2] == v[..2];
    } else if |q| >= 2 {
      assert u[..2] == "}}";
    }
  }

  /** What stands between the braces that are taken for one pair: the first hole's
      text, and, unless it is the only one and nothing follows it, closing braces. */
  lemma {:induction false} WholeOfGlue(parts: seq<string>) returns (u: string)
    requires |parts| % 2 == 1 && |parts| > 1 && parts[1] != "" && AllSpace(parts[0])
    ensures WholeHole(Glue(parts)).Some? <==> Closes(parts[|parts| - 1])
    ensures Closes(parts[|parts| - 1]) ==>
      && WholeHole(Glue(parts)) == Some(parts[1] + u)
      && (u == "" <==> |parts| == 3 && AllSpace(parts[2])) && (u != "" ==> u == "}" || "}}" <= u)
  {
    var last := parts[|parts| - 1];
    var mid, v := GlueEnds(parts);
    var q := TrimRight(last);
    TrimLeftBlank(parts[0]);
    TrimAround(parts[0], "{{" + mid + "}}", last);
    assert "" + ("{{" + mid + "}}") + q == "{{" + mid + "}}" + q;
    CloseEnds(mid, q);
    InnerText(parts[1], v, q);
    TrimRightBlank(last);
    u := Remainder(v, q);
    if ClosesBare(q) { RemainderShape(v, q); }
  }

  /** A literal before the first hole keeps a value from being taken for one hole. */
  lemma {:induction false} LeadingLiteral(parts: seq<string>)
    requires |parts| % 2 == 1 && |parts| > 1 && LiteralOk(parts[0]) && !AllSpace(parts[0])
    ensures WholeHole(Glue(parts)).None?
  {
    var a := parts[0];
    var mid, _ := GlueEnds(parts);
    var hole := "{{" + mid + "}}";
    var l := TrimLeftSplits(a);
    TrimLeftBlank(a);
    TrimAround(a, hole, parts[|parts| - 1]);
    var c := TrimLeft(a);
    var t := c + hole + TrimRight(parts[|parts| - 1]);
    assert t[0] == c[0] == a[|l|] && t[1] == (c + hole)[1];
    if a[|l|] == '{' { assert c[1] == a[|l| + 1] != '{'; }
  }

  /** A value of literals and holes is taken for one hole exactly when nothing
      stands before the first and the end still closes one. */
  lemma {:induction false} WholeHoleIff(parts: seq<string>)
    requires |parts| % 2 == 1 && |parts| > 1 && Canonical(parts)
    ensures WholeHole(Glue(parts)).Some? <==> AllSpace(parts[0]) && Closes(parts[|parts| - 1])
  {
    if AllSpace(parts[0]) {
      var u := WholeOfGlue(parts);
    } else {
      LeadingLiteral(parts);
    }
  }

  predicate HasBraces(s: string) {
    exists i :: 0 <= i < |s| - 1 && s[i] == '{' && s[i + 1] == '{'
  }

  /** Literals as they are, holes by their values; `null` and `undefined` leave nothing. */
  ghost function Interpolate(w: World, toText: Value -> string, vals: Vals, parts: seq<string>): string
    requires |parts| % 2 == 1
  {
    if |parts| == 1 then parts[0]
    else
      var v := Resolve(w, vals, parts[1]);
      parts[0] + (if Nullish(v) then "" else toText(v)) + Interpolate(w, toText, vals, parts[2..])
  }

  /** What the getter that `compileAttr` returns gives for an attribute value. */
  ghost function AttrValue(w: World, toText: Value -> string, vals: Vals, raw: string): Value {
    if WholeHole(raw).Some? then Resolve(w, vals, WholeHole(raw).value)
    else if HasBraces(raw) then Str(Interpolate(w, toText, vals, SplitHoles(raw)))
    else Str(raw)
  }

  /** A literal and the tree in the hole after it, with the white space around the
      tree. */
  datatype Piece = Piece(literal: string, before: string, hole: Tree, after: string)

  ghost predicate PieceOk(p: Piece) { AllSpace(p.before) && AllSpace(p.after) && WellFormed(p.hole) }

  ghost predicate PiecesOk(pieces: seq<Piece>) { forall i :: 0 <= i < |pieces| ==> PieceOk(pieces[i]) }

  /** What stands between the braces of a hole. */
  function HoleOf(p: Piece): string { p.before + Print(p.hole) + p.after }

  /** Literals and hole texts in turn, ending with a literal. */
  function PieceTexts(pieces: seq<Piece>, last: string): (parts: seq<string>)
    ensures |parts| % 2 == 1
  {
    if pieces == [] then [last]
    else [pieces[0].literal, HoleOf(pieces[0])] + PieceTexts(pieces[1..], last)
  }

  lemma {:induction false} LastPiece(pieces: seq<Piece>, last: string)
    ensures var parts := PieceTexts(pieces, last);
      |parts| == 2 * |pieces| + 1 && parts[|parts| - 1] == last
  {
    if pieces == [] {
    } else {
      LastPiece(pieces[1..], last);
    }
  }

  /** What a tree leaves in a concatenation. */
  ghost function HoleText(w: World, toText: Value -> string, vals: Vals, e: Tree): string {
    var v := Denote(w, vals, e);
    if v == Undefined || v == Null then "" else toText(v)
  }

  /** The concatenation of the literals and the trees' values. */
  ghost function PieceValues(w: World, toText: Value -> string, vals: Vals, pieces: seq<Piece>, last: string): string {
    if pieces == [] then last
    else
      pieces[0].literal + HoleText(w, toText, vals, pieces[0].hole)
      + PieceValues(w, toText, vals, pieces[1..], last)
  }

  lemma {:induction false} InterpolatePieces(w: World, toText: Value -> string, vals: Vals,
                                             pieces: seq<Piece>, last: string)
    requires PiecesOk(pieces)
    ensures Interpolate(w, toText, vals, PieceTexts(pieces, last)) == PieceValues(w, toText, vals, pieces, last)
  {
    if pieces == [] {
    } else {
      var parts := PieceTexts(pieces, last);
      assert parts[2..] == PieceTexts(pieces[1..], last);
      InterpolatePieces(w, toText, vals, pieces[1..], last);
      assert PieceOk(pieces[0]);
      RoundTrip(w, vals, pieces[0].before, pieces[0].hole, pieces[0].after);
    }
  }

  /** From template text to value: a text written from literals and trees is
      evaluated to the literals and the trees' values, in order, unless nothing
      stands before the first hole and the end still closes one. */
  lemma {:induction false} AttrPieces(w: World, toText: Value -> string, vals: Vals,
                                      pieces: seq<Piece>, last: string)
    requires pieces != [] && PiecesOk(pieces) && Canonical(PieceTexts(pieces, last))
    requires !(AllSpace(pieces[0].literal) && Closes(last))
    ensures AttrValue(w, toText, vals, Glue(PieceTexts(pieces, last)))
            == Str(PieceValues(w, toText, vals, pieces, last))
  {
    var parts := PieceTexts(pieces, last);
    LastPiece(pieces, last);
    WholeHoleIff(parts);
    SplitOfGlue(parts);
    InterpolatePieces(w, toText, vals, pieces, last);
    var raw, i := Glue(parts), |parts[0]|;
    assert raw == parts[0] + ("{{" + parts[1] + "}}") + Glue(parts[2..]);
    assert raw[i] == '{' && raw[i + 1] == '{';
  }

  /** For instance two holes between three literals. */
  lemma {:induction false} AttrTwoHoles(w: World, toText: Value -> string, vals: Vals, p: Piece, q: Piece,
                                        last: string)
    requires PieceOk(p) && PieceOk(q) && Canonical(PieceTexts([p, q], last))
    requires !(AllSpace(p.literal) && Closes(last))
    ensures var x, y := Denote(w, vals, p.hole), Denote(w, vals, q.hole);
      AttrValue(w, toText, vals, p.literal + ("{{" + HoleOf(p) + "}}") + (q.literal + ("{{" + HoleOf(q) + "}}") + last))
      == Str(p.literal + (if x == Undefined || x == Null then "" else toText(x))
             + (q.literal + (if y == Undefined || y == Null then "" else toText(y)) + last))
  {
    AttrPieces(w, toText, vals, [p, q], last);
    TwoPieces(w, toText, vals, p, q, last);
  }

  lemma {:induction false} TwoPieces(w: World, toText: Value -> string, vals: Vals, p: Piece, q: Piece, last: string)
    ensures Glue(PieceTexts([p, q], last))
            == p.literal + ("{{" + HoleOf(p) + "}}") + (q.literal + ("{{" + HoleOf(q) + "}}") + last)
    ensures PieceValues(w, toText, vals, [p, q], last)
            == p.literal + HoleText(w, toText, vals, p.hole) + (q.literal + HoleText(w, toText, vals, q.hole) + last)
  {
    var none: seq<Piece> := [];
    assert [p, q][1..] == [q] && [q][1..] == none;
    assert PieceTexts(none, last) == [last] && PieceValues(w, toText, vals, none, last) == last;
    var one, two := PieceTexts([q], last), PieceTexts([p, q], last);
    assert one == [q.literal, HoleOf(q), last] && two == [p.literal, HoleOf(p)] + one;
    assert one[2..] == [last] && two[2..] == one;
    assert Glue(one) == q.literal + ("{{" + HoleOf(q) + "}}") + last;
    assert PieceValues(w, toText, vals, [q], last) == q.literal + HoleText(w, toText, vals, q.hole) + last;
  }

  /** A value that is one hole yields the tree's value itself, not its text. */
  lemma {:induction false} AttrWhole(w: World, toText: Value -> string, vals: Vals, p: Piece, r: string)
    requires PieceOk(p) && AllSpace(p.literal) && AllSpace(r)
    ensures AttrValue(w, toText, vals, p.literal + ("{{" + HoleOf(p) + "}}") + r) == Denote(w, vals, p.hole)
  {
    var x := HoleOf(p);
    var t := "{{" + x + "}}";
    PrintShape(p.hole);
    TrimUnique(p.literal, t, r);
    assert t[2..|t| - 2] == x;
    RoundTrip(w, vals, p.before, p.hole, p.after);
  }

  /** Nowhere in the text two opening braces, at least one character, two closing ones. */
  predicate HoleFree(s: string) {
    forall i, k :: 0 <= i && i + 3 <= k < |s| - 1 && s[i] == '{' && s[i + 1] == '{' ==>
      !(s[k] == '}' && s[k + 1] == '}')
  }

  lemma {:induction false} WholeHasHole(raw: string)
    requires WholeHole(raw).Some?
    ensures !HoleFree(raw)
  {
    var l, r := TrimSplits(raw);
    var t := Trim(raw);
    var i, k := |l|, |l| + |t| - 2;
    assert raw[i] == t[0] && raw[i + 1] == t[1] && raw[k] == t[|t| - 2] && raw[k + 1] == t[|t| - 1];
  }

  lemma {:induction false} NoHoleSplits(raw: string)
    requires HoleFree(raw)
    ensures SplitHoles(raw) == [raw]
  {
    var a := FirstHole(raw, 0);
    if a < |raw| { CloseIsClose(raw, a + 3); }
  }

  /** A value without a hole is its own text, braces included. */
  lemma {:induction false} AttrPlain(w: World, toText: Value -> string, vals: Vals, raw: string)
    requires HoleFree(raw)
    ensures AttrValue(w, toText, vals, raw) == Str(raw)
  {
    NoHoleSplits(raw);
    if WholeHole(raw).Some? { WholeHasHole(raw); }
  }
}
