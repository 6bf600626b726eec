/** What the evaluator makes of each form of text, said about the texts themselves.
    Of the evaluator only `Resolve` is named: characters, operators and words are
    written out, and values are combined by the operations of `World`. */
module ExprLaws {
  import opened JsText
  import opened Expr
  import opened ExprPrint
  import opened ExprRoundTrip

  // ---------- characters ----------

  predicate LetterChar(c: char) { 'a' <= c <= 'z' || 'A' <= c <= 'Z' || c == '_' || c == '$' }

  predicate DigitChar(c: char) { '0' <= c <= '9' }

  /** By code points: control characters, spaces and line separators of JavaScript. */
  predicate BlankChar(c: char) {
    var n := c as int;
    9 <= n <= 13 || n == 32 || n == 0xA0 || n == 0x1680 || 0x2000 <= n <= 0x200A ||
    n == 0x2028 || n == 0x2029 || n == 0x202F || n == 0x205F || n == 0x3000 || n == 0xFEFF
  }

  predicate NameText(n: string) {
    n != "" && LetterChar(n[0]) && forall i :: 0 <= i < |n| ==> LetterChar(n[i]) || DigitChar(n[i])
  }

  predicate DigitText(d: string) { d != "" && forall i :: 0 <= i < |d| ==> DigitChar(d[i]) }

  // ---------- words, numbers and texts ----------

  lemma {:induction false} Value(w: World, vals: Vals, e: Tree)
    requires WellFormed(e)
    ensures Resolve(w, vals, Print(e)) == Denote(w, vals, e)
  {
    RoundTrip(w, vals, "", e, "");
    assert "" + Print(e) + "" == Print(e);
  }

  /** The four words, whatever white space is around them, and white space alone. */
  lemma {:induction false} Words(w: World, vals: Vals, l: string, r: string)
    requires AllSpace(l) && AllSpace(r)
    ensures Resolve(w, vals, l + "true" + r) == Bool(true)
    ensures Resolve(w, vals, l + "false" + r) == Bool(false)
    ensures Resolve(w, vals, l + "null" + r) == Null
    ensures Resolve(w, vals, l + "undefined" + r) == Undefined
    ensures Resolve(w, vals, l) == Undefined
  {
    RoundTrip(w, vals, l, Const(True), r);
    RoundTrip(w, vals, l, Const(False), r);
    RoundTrip(w, vals, l, Const(NullConst), r);
    RoundTrip(w, vals, l, Const(UndefinedConst), r);
    TrimUnique(l, "", "");
    AppendEmpty(l);
  }

  /** A sign or none, digits, and perhaps a dot and more digits. */
  ghost predicate Numeral(t: string) {
    exists i, j :: 0 <= i < j <= |t| && (i == 0 || (i == 1 && t[0] == '-'))
      && DigitText(t[i..j]) && (j == |t| || (t[j] == '.' && DigitText(t[j + 1..])))
  }

  lemma {:induction false} DigitRun(t: string, i: nat, j: nat)
    requires i <= j <= |t| && (i == j || DigitText(t[i..j])) && (j < |t| ==> !DigitChar(t[j]))
    ensures DigitsEnd(t, i) == j
  {
    assert forall k :: i <= k < j ==> t[i..j][k - i] == t[k];
    DigitsEndIs(t, i, j);
  }

  lemma {:induction false} NumeralIsNumber(t: string, i: nat, j: nat)
    requires i < j <= |t| && (i == 0 || (i == 1 && t[0] == '-'))
    requires DigitText(t[i..j]) && (j == |t| || (t[j] == '.' && DigitText(t[j + 1..])))
    ensures IsNumber(t)
  {
    assert t[i] == t[i..j][0];
    DigitRun(t, i, j);
    if j < |t| {
      assert t[j + 1..|t|] == t[j + 1..];
      DigitRun(t, j + 1, |t|);
    }
  }

  lemma {:induction false} NumberIsNumeral(t: string)
    requires IsNumber(t)
    ensures Numeral(t)
  {
    var i := if t[0] == '-' then 1 else 0;
    var j := DigitsEnd(t, i);
    DigitsAre(t, i);
    assert DigitText(t[i..j]);
    if j < |t| {
      DigitsAre(t, j + 1);
      assert DigitText(t[j + 1..]);
    }
  }

  lemma {:induction false} NumeralIff(t: string)
    ensures Numeral(t) <==> IsNumber(t)
  {
    if Numeral(t) {
      var i, j :| 0 <= i < j <= |t| && (i == 0 || (i == 1 && t[0] == '-'))
        && DigitText(t[i..j]) && (j == |t| || (t[j] == '.' && DigitText(t[j + 1..])));
      NumeralIsNumber(t, i, j);
    }
    if IsNumber(t) { NumberIsNumeral(t); }
  }

  /** A text that begins like a number is one exactly when it is a numeral to its
      end; else it has no value. */
  lemma {:induction false} NumberIff(w: World, vals: Vals, l: string, t: string, r: string)
    requires AllSpace(l) && AllSpace(r) && Trimmed(t) && Flat(t)
    requires t != "" && (DigitChar(t[0]) || t[0] == '-' || t[0] == '.')
    ensures Resolve(w, vals, l + t + r) == if Numeral(t) then w.number(t) else Undefined
  {
    ResolvePadded(w, vals, l, t, r);
    FlatIsCalm(t);
    CalmHasNoHit(t);
    NumeralIff(t);
    assert t[0] != 't' && t[0] != 'f' && t[0] != 'n' && t[0] != 'u' && t[0] != '(' && t[0] != '!';
    assert IdentEnd(t, 0) == 0;
  }

  /** A text between quotes of either kind is itself, where no operator can be read in it. */
  lemma {:induction false} Texts(w: World, vals: Vals, l: string, b: string, r: string)
    requires AllSpace(l) && AllSpace(r) && SafeBody(b)
    ensures Resolve(w, vals, l + ("\"" + b + "\"") + r) == Str(b)
    ensures Resolve(w, vals, l + ("'" + b + "'") + r) == Str(b)
  {
    RoundTrip(w, vals, l, Tree.Text('"', b), r);
    RoundTrip(w, vals, l, Tree.Text('\'', b), r);
  }

  // ---------- names ----------

  /** A name and one more character: a longer name, the name before white space, or
      nothing that has a value. */
  lemma {:induction false} NameThen(w: World, vals: Vals, n: string, c: char)
    requires NameText(n) && !IsKeyword(n) && !IsKeyword(n + [c])
    ensures var read := if LetterChar(c) || DigitChar(c) then n + [c] else n;
      Resolve(w, vals, n + [c]) ==
        if !LetterChar(c) && !DigitChar(c) && !BlankChar(c) then Undefined
        else if vals == NoVals then Undefined
        else if read in vals.own then vals.own[read]
        else w.inherited(read)
  {
    var e := n + [c];
    assert IsIdent(n);
    if LetterChar(c) || DigitChar(c) {
      Value(w, vals, Head(e));
    } else if BlankChar(c) {
      Value(w, vals, Head(n));
      ResolvePadRight(w, vals, n, [c]);
      TrimOfTrimmed(n);
    } else {
      TrimOfTrimmed(e);
      NameStops(w, vals, n, c);
    }
  }

  lemma {:induction false} NameStops(w: World, vals: Vals, n: string, c: char)
    requires NameText(n) && !LetterChar(c) && !DigitChar(c)
    ensures ResolveTrimmed(w, vals, n + [c]) == Undefined
  {
    var e := n + [c];
    assert e[0] == n[0] && e[|n|] == c;
    assert forall i :: 0 <= i < |n| ==> e[i] == n[i] && IsIdentPart(e[i]);
    FirstHitNone(e, 0);
    PartsEndIs(e, 1, |n|);
    PathNoLiteral(w, e) by { assert c !in "true" && c !in "false" && c !in "null" && c !in "undefined"; }
    PathEnds(w, vals, e, |n|, Lookup(w, vals, e[..|n|]));
  }

  // ---------- operators ----------

  /** The four equalities between any two trees, the first of which is none itself. */
  lemma {:induction false} Equalities(w: World, vals: Vals, l: Tree, p: string, q: string, r: Tree)
    requires AllSpace(p) && AllSpace(q) && WellFormed(l) && WellFormed(r) && !l.Equal?
    ensures var x, y := Resolve(w, vals, Print(l)), Resolve(w, vals, Print(r));
      && Resolve(w, vals, Print(l) + p + ("===" + (q + Print(r)))) == Bool(w.strictEq(x, y))
      && Resolve(w, vals, Print(l) + p + ("!==" + (q + Print(r)))) == Bool(!w.strictEq(x, y))
      && Resolve(w, vals, Print(l) + p + ("==" + (q + Print(r)))) == Bool(w.looseEq(x, y))
      && Resolve(w, vals, Print(l) + p + ("!=" + (q + Print(r)))) == Bool(!w.looseEq(x, y))
  {
    Value(w, vals, l);
    Value(w, vals, r);
    Value(w, vals, Equal(l, p, StrictEq, q, r));
    Value(w, vals, Equal(l, p, StrictNe, q, r));
    Value(w, vals, Equal(l, p, LooseEq, q, r));
    Value(w, vals, Equal(l, p, LooseNe, q, r));
  }

  /** Negation, which binds closer than an equality, and parentheses. */
  lemma {:induction false} NotAndGroup(w: World, vals: Vals, p: string, x: Tree, q: string)
    requires AllSpace(p) && AllSpace(q) && WellFormed(x)
    ensures !x.Equal? ==>
      Resolve(w, vals, "!" + (p + Print(x))) == Bool(!w.truthy(Resolve(w, vals, Print(x))))
    ensures Resolve(w, vals, "(" + (p + Print(x) + q) + ")") == Resolve(w, vals, Print(x))
  {
    Value(w, vals, x);
    if !x.Equal? { Value(w, vals, Not(p, x)); }
    Value(w, vals, Group(p, x, q));
  }

  /** Nothing in front of an operator keeps it from being one. */
  lemma {:induction false} NoHitAfter(o: string, x: string)
    requires 0 < |o| <= 3 && IsEqChar(o[0]) && (forall i :: 0 < i < |o| ==> o[i] == '=') && Shape(x) && Calm(x)
    ensures FindEquality(o + x) == None
  {
    var e := o + x;
    LevelFlat(Both, o, |o|);
    forall j: nat ensures !IsHit(e, j) {
      if j == 0 {
        assert e[..0] == "";
      } else if j < |o| {
        assert e[j - 1] == o[j - 1];
      } else if j + 1 < |e| {
        LevelAppend(Both, o, x, j);
        LevelAppend(Both, o, x, |o|);
        assert e[j] == x[j - |o|] && e[j + 1] == x[j - |o| + 1];
      }
    }
    FirstHitNone(e, 0);
  }

  lemma {:induction false} EqualsFirst(w: World, vals: Vals, o: string, x: string)
    requires 0 < |o| <= 3 && (forall i :: 0 <= i < |o| ==> o[i] == '=') && Shape(x) && Calm(x)
    ensures Resolve(w, vals, o + x) == Undefined
  {
    var e := o + x;
    NoHitAfter(o, x);
    assert e[0] == '=' && e[|e| - 1] == x[|x| - 1];
    TrimOfTrimmed(e);
    assert DigitsEnd(e, 0) == 0 && IdentEnd(e, 0) == 0;
    assert Literal(w, e).None?;
    assert ResolveTrimmed(w, vals, e) == PathValue(w, vals, e);
  }

  lemma {:induction false} NotEqualsFirst(w: World, vals: Vals, o: string, x: string, n: string)
    requires 0 < |o| <= 2 && (forall i :: 0 <= i < |o| ==> o[i] == '=') && n == "!" + o && Shape(x) && Calm(x)
    ensures Resolve(w, vals, n + x) == Bool(!w.truthy(Undefined))
  {
    var e := n + x;
    NoHitAfter(n, x);
    EqualsFirst(w, vals, o, x);
    assert e[0] == '!' && e[|e| - 1] == x[|x| - 1] && e[1..] == o + x;
    TrimOfTrimmed(e);
  }

  /** An operator with nothing to its left is none: what begins with `=` has no
      value, and a `!` negates that. */
  lemma {:induction false} OperatorFirst(w: World, vals: Vals, x: Tree)
    requires WellFormed(x) && !x.Equal?
    ensures Resolve(w, vals, "==" + Print(x)) == Resolve(w, vals, "===" + Print(x)) == Undefined
    ensures Resolve(w, vals, "!=" + Print(x)) == Bool(!w.truthy(Undefined))
    ensures Resolve(w, vals, "!==" + Print(x)) == Bool(!w.truthy(Undefined))
  {
    PrintShape(x);
    EqualsFirst(w, vals, "==", Print(x));
    EqualsFirst(w, vals, "===", Print(x));
    NotEqualsFirst(w, vals, "=", Print(x), "!=");
    NotEqualsFirst(w, vals, "==", Print(x), "!==");
  }

  // ---------- paths ----------

  /** The next step of a path, by name, by number and by key, of whatever the path
      has come to; nothing comes of `null` and `undefined`. */
  lemma {:induction false} Steps(w: World, vals: Vals, b: Tree, n: string, d: string, p: string, k: Tree, q: string)
    requires WellFormed(b) && IsPath(b) && NameText(n) && DigitText(d)
    requires AllSpace(p) && AllSpace(q) && WellFormed(k)
    ensures var base, key := Resolve(w, vals, Print(b)), Resolve(w, vals, Print(k));
      var byName := Resolve(w, vals, Print(b) + ("." + n));
      var byNumber := Resolve(w, vals, Print(b) + ("." + d));
      var byKey := Resolve(w, vals, Print(b) + ("[" + (p + Print(k) + q) + "]"));
      if base == Undefined || base == Null then byName == byNumber == byKey == Undefined
      else byName == w.get(base, Str(n)) && byNumber == w.get(base, Str(d)) && byKey == w.get(base, key)
  {
    Value(w, vals, b);
    Value(w, vals, k);
    assert IsIdent(n) && PathWellFormed(b);
    Value(w, vals, Dot(b, n));
    Value(w, vals, Nth(b, d));
    Value(w, vals, At(b, p, k, q));
  }

  /** A bracket that is opened and not closed runs to the end. */
  lemma {:induction false} CloseNever(a: string, x: string, k: nat)
    requires Balanced(x) && k <= |x|
    ensures CloseIndex(a + x, |a| + k, 1 + Level(Square, x, k)) == |a| + |x|
    decreases |x| - k
  {
    if k < |x| {
      assert (a + x)[|a| + k] == x[k];
      assert Level(Square, x, k + 1) == Level(Square, x, k) + Delta(Square, x[k]);
      CloseNever(a, x, k + 1);
    }
  }

  lemma OpenCalm(x: string)
    requires Balanced(x)
    ensures Calm("[" + x)
  {
    var s := "[" + x;
    forall i | 0 <= i < |s| - 1 && IsEqChar(s[i]) && s[i + 1] == '='
      ensures Level(Both, s, i) > 0
    {
      assert Level(Both, "[", 1) == Level(Both, "[", 0) + 1;
      LevelAppend(Both, "[", x, i);
      LevelBoth(x, i - 1);
    }
  }

  lemma {:induction false} OpenBracketEnds(w: World, vals: Vals, a: string, x: string, cur: Value)
    requires Balanced(x)
    ensures PathFrom(w, vals, a + ("[" + x), |a|, cur) == Undefined
  {
    CloseNever(a + "[", x, 0);
    assert a + "[" + x == a + ("[" + x);
    PathEnds(w, vals, a + ("[" + x), |a|, cur);
  }

  lemma {:induction false} OpenBracketPath(w: World, vals: Vals, b: Tree, x: string)
    requires PathWellFormed(b) && Balanced(x)
    ensures PathValue(w, vals, Print(b) + ("[" + x)) == Undefined
  {
    PathText(w, vals, b, "[" + x);
    OpenBracketEnds(w, vals, Print(b), x, Denote(w, vals, b));
  }

  lemma {:induction false} OpenBracketNoHit(a: string, x: string)
    requires Shape(a) && Calm(a) && Balanced(x)
    ensures FindEquality(a + ("[" + x)) == None
  {
    OpenCalm(x);
    CalmAppend(a, "[" + x);
    FirstHitNone(a + ("[" + x), 0);
  }

  lemma {:induction false} OpenBracketText(w: World, a: string, x: string)
    requires a != "" && IsIdentStart(a[0]) && (x != "" ==> !IsSpace(x[|x| - 1]))
    ensures var e := a + ("[" + x); Trim(e) == e && e[0] == a[0] && Literal(w, e).None?
  {
    var e := a + ("[" + x);
    assert e[0] == a[0] && e[|e| - 1] == if x == "" then '[' else x[|x| - 1];
    TrimOfTrimmed(e);
    StepNoKeyword(a, '[', x);
    PathNoLiteral(w, e) by { assert ['['] + x == "[" + x; }
  }

  /** Such a path has no value. */
  lemma {:induction false} OpenBracket(w: World, vals: Vals, b: Tree, x: string)
    requires WellFormed(b) && IsPath(b) && Balanced(x) && (x != "" ==> !IsSpace(x[|x| - 1]))
    ensures Resolve(w, vals, Print(b) + ("[" + x)) == Undefined
  {
    assert PathWellFormed(b);
    PrintShape(b);
    PathStart(b);
    OpenBracketNoHit(Print(b), x);
    OpenBracketText(w, Print(b), x);
    OpenBracketPath(w, vals, b, x);
  }
}
