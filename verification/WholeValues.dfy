/** Values that begin with one hole and end with another.  The pattern for a value
    that is one hole takes them for one, so that everything between the first
    opening and the last closing braces is evaluated as a single expression: a
    balanced text that runs into a closing brace outside brackets. */
module WholeValues {
  import opened JsText
  import opened Expr
  import opened ExprPrint
  import opened ExprRoundTrip
  import opened Interpolation

  // ---------- an expression that runs into closing braces ----------

  /** After a balanced text comes a closing brace. */
  predicate BraceAt(t: string, n: nat) { n < |t| && t[n] == '}' }

  /** The text up to `n` is balanced. */
  ghost predicate BalancedTo(t: string, n: nat) { n <= |t| && Balanced(t[..n]) }

  lemma {:induction false} LevelOfPrefix(k: Kind, t: string, n: nat, i: nat)
    requires i <= n <= |t|
    ensures Level(k, t[..n], i) == Level(k, t, i)
  {
    if i == 0 {
    } else {
      LevelOfPrefix(k, t, n, i - 1);
    }
  }

  lemma BalancedLevels(t: string, n: nat, i: nat)
    requires BalancedTo(t, n) && i <= n
    ensures Level(Round, t, i) >= 0 && Level(Square, t, i) >= 0
    ensures i == n ==> Level(Round, t, i) == 0 && Level(Square, t, i) == 0
  {
    LevelOfPrefix(Round, t, n, i);
    LevelOfPrefix(Square, t, n, i);
  }

  /** A round bracket that opens the text is closed before the brace. */
  lemma {:induction false} ClosedBefore(t: string, n: nat, i: nat)
    requires BalancedTo(t, n) && BraceAt(t, n) && t[0] == '(' && 1 <= i <= n && Level(Round, t, i) > 0
    ensures !WrapsWhole(t)
    decreases n - i
  {
    BalancedLevels(t, n, i);
    BalancedLevels(t, n, i + 1);
    if Level(Round, t, i + 1) == 0 {
      assert t[i] == ')' && i < |t| - 1;
    } else {
      ClosedBefore(t, n, i + 1);
    }
  }

  lemma NotWhole(t: string, n: nat)
    requires BalancedTo(t, n) && BraceAt(t, n) && t[0] == '('
    ensures !WrapsWhole(t)
  {
    assert n > 0 && Level(Round, t, 1) == Level(Round, t, 0) + 1;
    ClosedBefore(t, n, 1);
  }

  /** A square bracket that is open is closed before the brace. */
  lemma {:induction false} SquareClosed(t: string, n: nat, j: nat, depth: nat)
    requires BalancedTo(t, n) && j <= n && depth > 0 && Level(Square, t, j) == depth
    ensures var k := CloseIndex(t, j, depth); k < n && Level(Square, t, k + 1) == 0
    decreases n - j
  {
    BalancedLevels(t, n, j);
    if t[j] == '[' {
      SquareClosed(t, n, j + 1, depth + 1);
    } else if t[j] == ']' {
      if depth > 1 { SquareClosed(t, n, j + 1, depth - 1); }
    } else {
      SquareClosed(t, n, j + 1, depth);
    }
  }

  lemma {:induction false} PartsStop(t: string, i: nat, n: nat)
    requires i <= n && BraceAt(t, n)
    ensures PartsEnd(t, i) <= n && Level(Square, t, PartsEnd(t, i)) == Level(Square, t, i)
    decreases n - i
  {
    if i < n && IsIdentPart(t[i]) { PartsStop(t, i + 1, n); }
  }

  lemma {:induction false} DigitsStop(t: string, i: nat, n: nat)
    requires i <= n && BraceAt(t, n)
    ensures DigitsEnd(t, i) <= n && Level(Square, t, DigitsEnd(t, i)) == Level(Square, t, i)
    decreases n - i
  {
    if i < n && IsDigit(t[i]) { DigitsStop(t, i + 1, n); }
  }

  lemma IdentStops(t: string, i: nat, n: nat)
    requires i <= n && BraceAt(t, n)
    ensures IdentEnd(t, i) <= n && Level(Square, t, IdentEnd(t, i)) == Level(Square, t, i)
    ensures NameEnd(t, i) <= n && Level(Square, t, NameEnd(t, i)) == Level(Square, t, i)
  {
    if i < n && IsIdentStart(t[i]) { PartsStop(t, i + 1, n); }
    DigitsStop(t, i, n);
  }

  /** The next step of a path stays before the brace. */
  lemma {:induction false} StepStops(t: string, n: nat, i: nat)
    requires BalancedTo(t, n) && BraceAt(t, n) && i < n && Level(Square, t, i) == 0
    ensures t[i] == '.' ==> NameEnd(t, i + 1) <= n && Level(Square, t, NameEnd(t, i + 1)) == 0
    ensures t[i] == '[' ==>
      var j := CloseIndex(t, i + 1, 1); j < n && Level(Square, t, j + 1) == 0
  {
    if t[i] == '.' { IdentStops(t, i + 1, n); }
    if t[i] == '[' { SquareClosed(t, n, i + 1, 1); }
  }

  /** The walk along a path never gets past the brace. */
  lemma {:induction false} PathStopped(w: World, vals: Vals, t: string, n: nat, i: nat, cur: Value)
    requires BalancedTo(t, n) && BraceAt(t, n) && i <= n && Level(Square, t, i) == 0
    ensures PathFrom(w, vals, t, i, cur) == Undefined
    decreases n - i
  {
    if i == n || (t[i] != '[' && (t[i] == '.' ==> NameEnd(t, i + 1) == i + 1)) {
      PathEnds(w, vals, t, i, cur);
    } else {
      StepStops(t, n, i);
      if t[i] == '.' {
        var m := NameEnd(t, i + 1);
        PathDot(w, vals, t, i, cur);
        PathStopped(w, vals, t, n, m, Get(w, cur, Str(t[i + 1..m])));
      } else {
        var j := CloseIndex(t, i + 1, 1);
        PathAt(w, vals, t, i, cur);
        PathStopped(w, vals, t, n, j + 1, Get(w, cur, Resolve(w, vals, t[i + 1..j])));
      }
    }
  }

  lemma BraceNoLiteral(t: string, n: nat)
    requires BraceAt(t, n)
    ensures Keyword(t).None? && !IsNumber(t)
  {
    assert '}' !in "true" && '}' !in "false" && '}' !in "null" && '}' !in "undefined";
    if IsNumber(t) { NumberPlain(t); }
  }

  /** What an expression can be that runs into a closing brace outside brackets: no
      value, the result of an operator, or the text between two quotes around it. */
  predicate Swallows(t: string, v: Value) {
    v == Undefined || v.Bool? || (IsQuoted(t) && FindEquality(t) == None && v == Str(t[1..|t| - 1]))
  }

  lemma {:induction false} BraceValue(w: World, vals: Vals, t: string, n: nat)
    requires BalancedTo(t, n) && BraceAt(t, n)
    ensures Swallows(t, ResolveTrimmed(w, vals, t))
  {
    if t[0] == '(' { NotWhole(t, n); }
    if FindEquality(t) == None && t[0] != '!' {
      BraceNoLiteral(t, n);
      if !IsQuoted(t) {
        IdentStops(t, 0, n);
        var m := IdentEnd(t, 0);
        if m > 0 { PathStopped(w, vals, t, n, m, Lookup(w, vals, t[..m])); }
      }
    }
  }

  // ---------- values of several holes ----------

  /** Closing braces stand in the text. */
  predicate HasClose(s: string) {
    exists i :: 0 <= i < |s| - 1 && s[i] == '}' && s[i + 1] == '}'
  }

  lemma BalancedTail(l: string, x: string)
    requires AllSpace(l) && Balanced(l + x)
    ensures Balanced(x)
  {
    BalancedFlat(l);
    forall i | 0 <= i <= |x|
      ensures Level(Round, x, i) >= 0 && Level(Square, x, i) >= 0
      ensures i == |x| ==> Level(Round, x, i) == 0 && Level(Square, x, i) == 0
    {
      LevelSuffix(Round, l, x, i);
      LevelSuffix(Square, l, x, i);
    }
  }

  /** The expression that is evaluated: the hole's text from its first character on,
      the brace, and what follows it up to its last. */
  lemma {:induction false} RunsInto(x: string, rest: string)
    requires Balanced(x)
    ensures var t := Trim(x + "}" + rest); var n := |TrimLeft(x)|;
      t == TrimLeft(x) + "}" + TrimRight(rest) && BalancedTo(t, n) && BraceAt(t, n)
  {
    var l := TrimLeftSplits(x);
    BalancedTail(l, TrimLeft(x));
    TrimAround(x, "}", rest);
    assert (TrimLeft(x) + "}" + TrimRight(rest))[..|TrimLeft(x)|] == TrimLeft(x);
  }

  lemma {:induction false} RunsIntoValue(w: World, vals: Vals, x: string, rest: string)
    requires Balanced(x)
    ensures Swallows(TrimLeft(x) + "}" + TrimRight(rest), Resolve(w, vals, x + "}" + rest))
  {
    RunsInto(x, rest);
    BraceValue(w, vals, TrimLeft(x) + "}" + TrimRight(rest), |TrimLeft(x)|);
  }

  lemma QuotedClose(c: string, q: string)
    requires IsQuoted(c + "}" + q) && (q != "" ==> q[0] == '}')
    ensures HasClose((c + "}" + q)[1..|c + "}" + q| - 1])
  {
    var t := c + "}" + q;
    var s := t[1..|t| - 1];
    assert t[|c|] == '}' && (q != "" ==> t[|c| + 1] == '}');
    assert s[|c| - 1] == t[|c|] && s[|c|] == t[|c| + 1];
  }

  lemma FirstStays(u: string)
    requires "}" <= u
    ensures TrimRight(u) != "" && TrimRight(u)[0] == '}'
  {
    TrimRightBlank(u);
    var r := TrimRightSplits(u);
    assert u[0] == u[..1][0];
  }

  /** A value with nothing before its first hole and an end that closes one, but
      with more than that one hole, is no value at all, the result of an operator,
      or a quoted text with closing braces in it. */
  lemma {:induction false} SeveralAreOne(w: World, toText: Value -> string, vals: Vals, parts: seq<string>)
    requires |parts| % 2 == 1 && |parts| > 1 && parts[1] != "" && Balanced(parts[1])
    requires AllSpace(parts[0]) && Closes(parts[|parts| - 1]) && !(|parts| == 3 && AllSpace(parts[2]))
    ensures var v := AttrValue(w, toText, vals, Glue(parts));
      v == Undefined || v.Bool? || (v.Str? && HasClose(v.s))
  {
    var u := WholeOfGlue(parts);
    var x, rest := parts[1], u[1..];
    assert x + u == x + "}" + rest;
    RunsIntoValue(w, vals, x, rest);
    if rest != "" { FirstStays(rest); }
    if IsQuoted(TrimLeft(x) + "}" + TrimRight(rest)) { QuotedClose(TrimLeft(x), TrimRight(rest)); }
  }

  // ---------- two holes, told by their braces ----------

  /** Conversion to text as JavaScript has it for texts and booleans. */
  ghost predicate TellsTexts(toText: Value -> string) {
    (forall s :: toText(Str(s)) == s) && toText(Bool(true)) == "true" && toText(Bool(false)) == "false"
  }

  /** How many opening braces a text holds. */
  function Braces(s: string): nat {
    if s == "" then 0 else (if s[0] == '{' then 1 else 0) + Braces(s[1..])
  }

  lemma {:induction false} BracesAppend(a: string, b: string)
    ensures Braces(a + b) == Braces(a) + Braces(b)
  {
    if a == "" {
      assert a + b == b;
    } else {
      assert (a + b)[1..] == a[1..] + b;
      BracesAppend(a[1..], b);
    }
  }

  lemma {:induction false} BracesNone(s: string)
    requires '{' !in s
    ensures Braces(s) == 0
  {
    if s == "" {
    } else {
      assert forall i :: 0 <= i < |s[1..]| ==> s[1..][i] == s[i + 1];
      BracesNone(s[1..]);
    }
  }

  lemma BracesAround(l: string, x: string, r: string)
    requires '{' !in l && '{' !in r
    ensures Braces(l + x + r) == Braces(x)
  {
    BracesAppend(l + x, r);
    BracesAppend(l, x);
    BracesNone(l);
    BracesNone(r);
  }

  lemma BracesTrim(s: string)
    ensures Braces(Trim(s)) == Braces(s)
  {
    var l, r := TrimSplits(s);
    BracesAround(l, Trim(s), r);
  }

  lemma BracesQuoted(t: string)
    requires IsQuoted(t)
    ensures Braces(t[1..|t| - 1]) == Braces(t)
  {
    var s := t[1..|t| - 1];
    assert t == t[..1] + s + t[|t| - 1..];
    BracesAround(t[..1], s, t[|t| - 1..]);
  }

  predicate IsQuote(c: char) { c == '"' || c == '\'' }

  /** Only a quoted text, or an equality that starts with one, prints a quote first. */
  lemma {:induction false} QuoteFirst(e: Tree)
    requires WellFormed(e)
    ensures Print(e) != "" && (IsQuote(Print(e)[0]) ==> e.Text? || e.Equal?)
  {
    PrintShape(e);
    if e.Number? { NumberPlain(e.text); }
    if IsPath(e) { PathStart(e); }
  }

  /** Only a quoted text, a negation or an equality can print one last. */
  lemma {:induction false} QuoteLast(e: Tree)
    requires WellFormed(e)
    ensures var s := Print(e); s != "" && (IsQuote(s[|s| - 1]) ==> e.Text? || e.Not? || e.Equal?)
  {
    PrintShape(e);
    match e
    case Number(t) => NumberPlain(t);
    case Head(n) => assert IsIdentPart(n[|n| - 1]);
    case Dot(_, n) => assert IsIdentPart(n[|n| - 1]);
    case Nth(_, d) => assert IsDigit(d[|d| - 1]);
    case _ =>
  }

  /** The operator of a printed equality is still found when more text follows. */
  lemma {:induction false} OperatorKept(e: Tree, rest: string)
    requires WellFormed(e) && e.Equal?
    ensures FindEquality(Print(e) + rest) != None
  {
    var s, i := Print(e), |Print(e.l) + e.before|;
    PrintShape(e.l);
    PrintShape(e.r);
    EqualHit(Print(e.l), e.before, e.op, e.after, Print(e.r));
    assert IsHit(s, i);
    LevelPrefix(Both, s, rest, i);
    assert (s + rest)[..i] == s[..i];
    assert IsHit(s + rest, i);
    FirstHitLeftmost(s + rest, 0);
  }

  /** What a tree of these kinds leaves in a concatenation has no more braces than
      its text. */
  lemma {:induction false} FewerBraces(w: World, toText: Value -> string, vals: Vals, e: Tree)
    requires TellsTexts(toText) && WellFormed(e) && (e.Text? || e.Not? || e.Equal?)
    ensures Braces(HoleText(w, toText, vals, e)) <= Braces(Print(e))
  {
    var v := Denote(w, vals, e);
    if e.Text? {
      BracesAround([e.quote], e.body, [e.quote]);
    } else {
      assert v.Bool?;
      BracesNone(toText(v));
    }
  }

  /** The text between the first opening and the last closing braces of two holes. */
  function Between(a: Piece, b: Piece): string { HoleOf(a) + ("}}" + b.literal + "{{") + HoleOf(b) }

  lemma {:induction false} GlueTwo(l: string, x: string, m: string, y: string, last: string)
    ensures Glue([l, x, m, y, last]) == l + ("{{" + (x + ("}}" + m + "{{") + y) + "}}") + last
  {
    var parts := [l, x, m, y, last];
    assert parts[2..] == [m, y, last] && parts[2..][2..] == [last];
    assert Glue(parts[2..]) == m + ("{{" + y + "}}") + last;
  }

  lemma {:induction false} TwoPieces(w: World, toText: Value -> string, vals: Vals, a: Piece, b: Piece, last: string)
    ensures PieceTexts([a, b], last) == [a.literal, HoleOf(a), b.literal, HoleOf(b), last]
    ensures PieceValues(w, toText, vals, [a, b], last)
            == a.literal + HoleText(w, toText, vals, a.hole) + (b.literal + HoleText(w, toText, vals, b.hole) + last)
  {
    assert [a, b][1..] == [b] && [b][1..] == [];
    assert PieceTexts([b], last) == [b.literal, HoleOf(b)] + [last];
    assert PieceValues(w, toText, vals, [b], last) == b.literal + HoleText(w, toText, vals, b.hole) + last;
  }

  lemma {:induction false} BetweenIsWhole(a: Piece, b: Piece, last: string)
    requires AllSpace(a.literal) && AllSpace(last)
    ensures WholeHole(Glue([a.literal, HoleOf(a), b.literal, HoleOf(b), last])) == Some(Between(a, b))
  {
    var t := "{{" + Between(a, b) + "}}";
    GlueTwo(a.literal, HoleOf(a), b.literal, HoleOf(b), last);
    TrimUnique(a.literal, t, last);
    assert t[2..|t| - 2] == Between(a, b);
  }

  lemma {:induction false} HoleBraces(p: Piece)
    requires PieceOk(p)
    ensures Braces(HoleOf(p)) == Braces(Print(p.hole))
  {
    BracesAround(p.before, Print(p.hole), p.after);
  }

  lemma {:induction false} BetweenBraces(a: Piece, b: Piece)
    requires PieceOk(a) && PieceOk(b)
    ensures Braces(Between(a, b)) == Braces(Print(a.hole)) + Braces(b.literal) + 2 + Braces(Print(b.hole))
  {
    HoleBraces(a);
    HoleBraces(b);
    BracesAppend(HoleOf(a), "}}" + b.literal + "{{");
    BracesAppend(HoleOf(a) + ("}}" + b.literal + "{{"), HoleOf(b));
    BracesAppend("}}" + b.literal, "{{");
    BracesAppend("}}", b.literal);
    assert Braces("{{") == 2 by { assert "{{"[1..] == "{"; }
    BracesNone("}}");
  }

  lemma BetweenCore(p: string, x: string, mid: string, y: string, q: string)
    requires AllSpace(p) && AllSpace(q) && x != "" && y != "" && !IsSpace(x[0]) && !IsSpace(y[|y| - 1])
    ensures var t := x + (mid + y);
      Trim(p + t + q) == t && t[0] == x[0] && t[|t| - 1] == y[|y| - 1]
  {
    TrimUnique(p, x + (mid + y), q);
  }

  /** The same text, from the first tree's first character to the second's last. */
  lemma BetweenParts(a: Piece, b: Piece)
    ensures Between(a, b)
            == a.before + (Print(a.hole) + (a.after + ("}}" + b.literal + "{{") + b.before + Print(b.hole))) + b.after
  {
  }

  /** If the whole is read as a quoted text, the first hole is a quoted text and the
      second ends with one. */
  lemma {:induction false} QuotedHoles(a: Piece, b: Piece)
    requires PieceOk(a) && PieceOk(b)
    requires var t := Trim(Between(a, b)); IsQuoted(t) && FindEquality(t) == None
    ensures a.hole.Text? && (b.hole.Text? || b.hole.Not? || b.hole.Equal?)
  {
    var mid := a.after + ("}}" + b.literal + "{{") + b.before;
    QuoteFirst(a.hole);
    QuoteLast(b.hole);
    PrintShape(a.hole);
    PrintShape(b.hole);
    BetweenParts(a, b);
    BetweenCore(a.before, Print(a.hole), mid, Print(b.hole), b.after);
    if a.hole.Equal? { OperatorKept(a.hole, mid + Print(b.hole)); }
  }

  lemma BraceApart(x: string, m: string, y: string)
    ensures x + ("}}" + m + "{{") + y == x + "}" + ("}" + m + "{{" + y)
  {
  }

  lemma {:induction false} TwoBraceValue(w: World, vals: Vals, a: Piece, b: Piece)
    requires PieceOk(a)
    ensures Swallows(Trim(Between(a, b)), Resolve(w, vals, Between(a, b)))
  {
    var x, rest := HoleOf(a), "}" + b.literal + "{{" + HoleOf(b);
    PrintShape(a.hole);
    PadBalanced(a.before, Print(a.hole), a.after);
    BraceApart(x, b.literal, HoleOf(b));
    RunsInto(x, rest);
    RunsIntoValue(w, vals, x, rest);
  }

  lemma {:induction false} JoinedBraces(l: string, h1: string, m: string, h2: string, last: string)
    requires AllSpace(l) && AllSpace(last)
    ensures Braces(l + h1 + (m + h2 + last)) == Braces(h1) + Braces(m) + Braces(h2)
  {
    BracesAppend(l + h1, m + h2 + last);
    BracesAppend(l, h1);
    BracesAppend(m + h2, last);
    BracesAppend(m, h2);
    BracesNone(l);
    BracesNone(last);
  }

  lemma {:induction false} QuotedBraces(a: Piece, b: Piece)
    requires PieceOk(a) && PieceOk(b) && IsQuoted(Trim(Between(a, b)))
    ensures var t := Trim(Between(a, b));
      Braces(t[1..|t| - 1]) == Braces(Print(a.hole)) + Braces(b.literal) + 2 + Braces(Print(b.hole))
  {
    BracesQuoted(Trim(Between(a, b)));
    BracesTrim(Between(a, b));
    BetweenBraces(a, b);
  }

  /** Read as a quoted text, the whole has more braces than the concatenation. */
  lemma {:induction false} MoreBraces(w: World, toText: Value -> string, vals: Vals, a: Piece, b: Piece, last: string)
    requires PieceOk(a) && PieceOk(b) && AllSpace(a.literal) && AllSpace(last) && TellsTexts(toText)
    requires var t := Trim(Between(a, b)); IsQuoted(t) && FindEquality(t) == None
    ensures var t := Trim(Between(a, b));
      Braces(t[1..|t| - 1]) > Braces(PieceValues(w, toText, vals, [a, b], last))
  {
    var x, y := HoleText(w, toText, vals, a.hole), HoleText(w, toText, vals, b.hole);
    QuotedHoles(a, b);
    QuotedBraces(a, b);
    FewerBraces(w, toText, vals, a.hole);
    FewerBraces(w, toText, vals, b.hole);
    TwoPieces(w, toText, vals, a, b, last);
    JoinedBraces(a.literal, x, b.literal, y, last);
  }

  /** Two trees in one value, with nothing before the first and after the second:
      whatever they are and whatever stands between them, the value is not the
      concatenation. */
  lemma {:induction false} TwoHolesNeverJoin(w: World, toText: Value -> string, vals: Vals,
                                             a: Piece, b: Piece, last: string)
    requires PieceOk(a) && PieceOk(b) && AllSpace(a.literal) && AllSpace(last) && TellsTexts(toText)
    ensures AttrValue(w, toText, vals, Glue(PieceTexts([a, b], last)))
            != Str(PieceValues(w, toText, vals, [a, b], last))
  {
    var joined := PieceValues(w, toText, vals, [a, b], last);
    TwoPieces(w, toText, vals, a, b, last);
    BetweenIsWhole(a, b, last);
    TwoBraceValue(w, vals, a, b);
    if Resolve(w, vals, Between(a, b)) == Str(joined) { MoreBraces(w, toText, vals, a, b, last); }
  }

  lemma SafeAfter(body: string)
    requires SafeBody(body)
    ensures SafeBody(body + "'}}")
  {
    var x := body + "'}}";
    BalancedFlat("'}}");
    BalancedAppend(body, "'}}");
    forall i | 0 <= i < |x| - 1
      ensures !(IsEqChar(x[i]) && x[i + 1] == '=')
    {
      if i < |body| - 1 { assert x[i] == body[i] && x[i + 1] == body[i + 1]; }
    }
  }

  /** A piece that is a quoted text without white space around it. */
  function QuotedPiece(body: string): Piece { Piece("", "", Text('\'', body), "") }

  function Quoted(body: string): string { ['\''] + body + ['\''] }

  lemma {:induction false} QuotedWhole(body: string)
    ensures WholeHole(Glue(["", Quoted(body), "'}}"])) == Some(Quoted(body + "'}}"))
  {
    var parts := ["", Quoted(body), "'}}"];
    assert parts[2..] == ["'}}"];
    var raw := "{{" + Quoted(body + "'}}") + "}}";
    assert Glue(parts) == raw;
    TrimOfTrimmed(raw);
    assert raw[2..|raw| - 2] == Quoted(body + "'}}");
  }

  lemma {:induction false} QuoteAfterHoleText(body: string)
    ensures PieceTexts([QuotedPiece(body)], "'}}") == ["", Quoted(body), "'}}"]
    ensures WholeHole(Glue(["", Quoted(body), "'}}"])) == Some(Quoted(body + "'}}"))
  {
    var p := QuotedPiece(body);
    assert [p][1..] == [] && HoleOf(p) == Quoted(body);
    assert PieceTexts([p], "'}}") == ["", HoleOf(p)] + ["'}}"];
    QuotedWhole(body);
  }

  lemma {:induction false} QuotedValue(w: World, vals: Vals, body: string)
    requires SafeBody(body)
    ensures Resolve(w, vals, Quoted(body)) == Str(body)
  {
    RoundTrip(w, vals, "", Text('\'', body), "");
    assert "" + Quoted(body) + "" == Quoted(body);
  }

  lemma {:induction false} QuotedPieceValue(w: World, toText: Value -> string, vals: Vals, body: string, last: string)
    requires TellsTexts(toText)
    ensures PieceValues(w, toText, vals, [QuotedPiece(body)], last) == body + last
  {
    assert [QuotedPiece(body)][1..] == [];
    assert HoleText(w, toText, vals, Text('\'', body)) == body;
    assert "" + body + last == body + last;
  }

  /** One hole and a literal that closes another one, as in `{{'a'}}'}}`: here the
      quoted text that is read happens to be the concatenation. */
  lemma {:induction false} QuoteAfterHoleJoins(w: World, toText: Value -> string, vals: Vals, body: string)
    requires SafeBody(body) && TellsTexts(toText)
    ensures var pieces := [QuotedPiece(body)];
      && WholeHole(Glue(PieceTexts(pieces, "'}}"))).Some?
      && AttrValue(w, toText, vals, Glue(PieceTexts(pieces, "'}}")))
         == Str(PieceValues(w, toText, vals, pieces, "'}}")) == Str(body + "'}}")
  {
    QuoteAfterHoleText(body);
    SafeAfter(body);
    QuotedValue(w, vals, body + "'}}");
    QuotedPieceValue(w, toText, vals, body, "'}}");
  }
}
