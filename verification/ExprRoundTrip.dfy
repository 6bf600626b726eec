/** Evaluating the text of a tree gives the tree's denotation. */
module ExprRoundTrip {
  import opened JsText
  import opened Expr
  import opened ExprPrint

  // ---------- what the scanners find in printed text ----------

  lemma CalmHasNoHit(s: string)
    requires Balanced(s) && Calm(s)
    ensures FindEquality(s) == None
  {
    FirstHitNone(s, 0);
  }

  /** A left operand, an operator, a right operand: the operator is what is found. */
  lemma {:induction false} EqualHit(l: string, p: string, op: Op, q: string, r: string)
    requires AllSpace(p) && AllSpace(q) && Shape(l) && Calm(l) && Shape(r)
    ensures var e := l + p + (OpText(op) + (q + r)); var i := |l + p|;
      && FindEquality(e) == Some(Equality(i, op))
      && e[..i] == l + p && e[i + OpLength(op)..] == q + r
  {
    var tail := q + r;
    var e, i := l + p + (OpText(op) + tail), |l + p|;
    assert tail[0] != '=';
    OperatorRead(l + p, op, tail);
    HitAtOperator(l, p, OpText(op) + tail);
    forall j | 0 <= j < i ensures !IsHit(e, j) { NoEarlierHit(l, p, OpText(op) + tail, j); }
    FirstHitIs(e, 0, i);
  }

  /** The operator that is read is the one that was written. */
  lemma {:induction false} OperatorRead(a: string, op: Op, tail: string)
    requires tail != "" && tail[0] != '='
    ensures var e := a + (OpText(op) + tail);
      OpAt(e, |a|) == op && e[..|a|] == a && e[|a| + OpLength(op)..] == tail
  {
    var e, t := a + (OpText(op) + tail), OpText(op);
    assert |t| == OpLength(op) && e[|a|] == t[0] && e[|a| + 1] == t[1];
    assert e[|a| + 2] == if |t| == 3 then t[2] else tail[0];
  }

  lemma {:induction false} HitAtOperator(l: string, p: string, o: string)
    requires AllSpace(p) && Shape(l) && |o| >= 2 && IsEqChar(o[0]) && o[1] == '='
    ensures IsHit(l + p + o, |l + p|)
  {
    var e, i := l + p + o, |l + p|;
    BalancedFlat(p);
    BalancedAppend(l, p);
    LevelAppend(Both, l + p, o, i);
    LevelBoth(l + p, i);
    TrimUnique("", l, p);
    assert e[..i] == "" + l + p;
    assert e[i] == o[0] && e[i + 1] == o[1];
  }

  lemma {:induction false} NoEarlierHit(l: string, p: string, o: string, j: nat)
    requires AllSpace(p) && Balanced(l) && l != "" && !IsEqChar(l[|l| - 1]) && Calm(l) && j < |l + p|
    ensures !IsHit(l + p + o, j)
  {
    var e := l + p + o;
    if j < |l| - 1 {
      LevelAppend(Both, l, p, j);
      LevelAppend(Both, l + p, o, j);
      assert e[j] == l[j] && e[j + 1] == l[j + 1];
    } else if j >= |l| {
      assert e[j] == p[j - |l|];
    }
  }

  /** Parentheses around a balanced text wrap it as a whole. */
  lemma GroupWraps(x: string)
    requires Balanced(x)
    ensures WrapsWhole("(" + x + ")")
  {
    var e := "(" + x + ")";
    forall i | 0 <= i < |e| - 1 && e[i] == ')'
      ensures Level(Round, e, i + 1) != 0
    {
      LevelWrap(Round, '(', x, ')', i + 1);
    }
  }

  /** Parentheses around the left operand alone do not. */
  lemma LeftGroupStops(x: string, o: string)
    requires Balanced(x) && o != ""
    ensures !WrapsWhole("(" + x + ")" + o)
  {
    var g := "(" + x + ")";
    var e, i := g + o, |x| + 1;
    BalancedWrap('(', x, ')');
    LevelAppend(Round, g, o, i + 1);
    assert e[i] == ')' && Level(Round, e, i + 1) == 0;
  }

  // ---------- lexical pieces of a path ----------

  lemma {:induction false} PartsEndIs(e: string, i: nat, n: nat)
    requires i <= n <= |e| && (forall j :: i <= j < n ==> IsIdentPart(e[j])) && (n < |e| ==> !IsIdentPart(e[n]))
    ensures PartsEnd(e, i) == n
    decreases n - i
  {
    if i == n {
    } else {
      PartsEndIs(e, i + 1, n);
    }
  }

  lemma {:induction false} DigitsEndIs(e: string, i: nat, n: nat)
    requires i <= n <= |e| && (forall j :: i <= j < n ==> IsDigit(e[j])) && (n < |e| ==> !IsDigit(e[n]))
    ensures DigitsEnd(e, i) == n
    decreases n - i
  {
    if i == n {
    } else {
      DigitsEndIs(e, i + 1, n);
    }
  }

  /** What may follow a path: nothing, or its next step. */
  predicate Follows(rest: string) { rest == "" || rest[0] == '.' || rest[0] == '[' }

  lemma IdentThen(a: string, n: string, rest: string)
    requires IsIdent(n) && Follows(rest)
    ensures var e := a + (n + rest);
      IdentEnd(e, |a|) == NameEnd(e, |a|) == |a| + |n| && e[|a|..|a| + |n|] == n
  {
    var e := a + (n + rest);
    assert forall j :: 0 <= j < |n| ==> e[|a| + j] == n[j];
    assert rest != "" ==> e[|a| + |n|] == rest[0];
    PartsEndIs(e, |a| + 1, |a| + |n|);
  }

  lemma DigitsThen(a: string, d: string, rest: string)
    requires d != "" && (forall i :: 0 <= i < |d| ==> IsDigit(d[i])) && Follows(rest)
    ensures var e := a + (d + rest);
      NameEnd(e, |a|) == |a| + |d| && e[|a|..|a| + |d|] == d
  {
    var e := a + (d + rest);
    assert forall j :: 0 <= j < |d| ==> e[|a| + j] == d[j];
    assert rest != "" ==> e[|a| + |d|] == rest[0];
    DigitsEndIs(e, |a|, |a| + |d|);
  }

  /** The bracket that closes a balanced text is the one after it. */
  lemma {:induction false} CloseAfter(a: string, x: string, rest: string, k: nat)
    requires Balanced(x) && k <= |x|
    ensures var e := a + (x + "]" + rest);
      CloseIndex(e, |a| + k, 1 + Level(Square, x, k)) == |a| + |x|
    decreases |x| - k
  {
    var e := a + (x + "]" + rest);
    assert e[|a| + k] == if k < |x| then x[k] else ']';
    if k < |x| {
      assert Level(Square, x, k + 1) == Level(Square, x, k) + Delta(Square, x[k]);
      CloseAfter(a, x, rest, k + 1);
    }
  }

  // ---------- one lemma a tree form ----------

  /** White space around a text does not matter. */
  lemma {:induction false} ResolvePadded(w: World, vals: Vals, l: string, t: string, r: string)
    requires AllSpace(l) && AllSpace(r) && Trimmed(t)
    ensures Resolve(w, vals, l + t + r) == ResolveTrimmed(w, vals, t)
  {
    TrimUnique(l, t, r);
  }

  /** White space in front only. */
  lemma {:induction false} ResolvePadLeft(w: World, vals: Vals, l: string, t: string)
    requires AllSpace(l) && Trimmed(t)
    ensures Resolve(w, vals, l + t) == ResolveTrimmed(w, vals, t)
  {
    ResolvePadded(w, vals, l, t, "");
    AppendEmpty(l + t);
  }

  /** White space behind only. */
  lemma {:induction false} ResolvePadRight(w: World, vals: Vals, t: string, r: string)
    requires AllSpace(r) && Trimmed(t)
    ensures Resolve(w, vals, t + r) == ResolveTrimmed(w, vals, t)
  {
    ResolvePadded(w, vals, "", t, r);
    AppendEmpty(t);
  }

  lemma {:induction false} ResolveGroup(w: World, vals: Vals, p: string, x: string, q: string)
    requires AllSpace(p) && AllSpace(q) && Shape(x)
    ensures ResolveTrimmed(w, vals, "(" + (p + x + q) + ")") == ResolveTrimmed(w, vals, x)
  {
    var y := p + x + q;
    var e := "(" + y + ")";
    PadBalanced(p, x, q);
    GroupWraps(y);
    assert e[1..|e| - 1] == y;
    ResolvePadded(w, vals, p, x, q);
  }

  lemma {:induction false} ResolveNot(w: World, vals: Vals, p: string, x: string)
    requires AllSpace(p) && Shape(x) && Calm(x)
    ensures ResolveTrimmed(w, vals, "!" + (p + x)) == Bool(!w.truthy(ResolveTrimmed(w, vals, x)))
  {
    var e := "!" + (p + x);
    NotShape(p, x);
    CalmHasNoHit(e);
    assert e[1..] == p + x;
    ResolvePadLeft(w, vals, p, x);
  }

  /** The left operand is not mistaken for parentheses around the whole. */
  ghost predicate NotWrapped(l: string, o: string) {
    l != "" && (l[0] == '(' ==> !WrapsWhole(l + o))
  }

  lemma {:induction false} ResolveEqual(w: World, vals: Vals, l: string, p: string, op: Op, q: string, r: string)
    requires AllSpace(p) && AllSpace(q) && Shape(l) && Calm(l) && Shape(r)
    requires NotWrapped(l, p + (OpText(op) + (q + r)))
    ensures ResolveTrimmed(w, vals, l + p + (OpText(op) + (q + r)))
            == Bool(Holds(w, op, ResolveTrimmed(w, vals, l), ResolveTrimmed(w, vals, r)))
  {
    var o := OpText(op) + (q + r);
    var e := l + p + o;
    Assoc(l, p, o);
    EqualHit(l, p, op, q, r);
    assert e[0] == l[0];
    CutAt(w, vals, e, |l + p|, op, l + p, q + r);
    ResolvePadRight(w, vals, l, p);
    ResolvePadLeft(w, vals, q, r);
  }

  /** A text that is no group, no negation and holds no operator outside brackets. */
  lemma {:induction false} ResolveAtom(w: World, vals: Vals, e: string)
    requires Shape(e) && Calm(e) && e[0] != '(' && e[0] != '!'
    ensures ResolveTrimmed(w, vals, e) ==
            if Literal(w, e).Some? then Literal(w, e).value else PathValue(w, vals, e)
  {
    CalmHasNoHit(e);
  }

  lemma WordLiteral(w: World, k: Constant)
    ensures Keyword(Word(k)).Some? && Literal(w, Word(k)) == Keyword(Word(k))
  {
  }

  lemma NumberLiteral(w: World, t: string)
    requires IsNumber(t)
    ensures Literal(w, t) == Some(w.number(t)) && t[0] != '('
  {
    NumberPlain(t);
    assert t[0] != 't' && t[0] != 'f' && t[0] != 'n' && t[0] != 'u';
  }

  lemma QuotedLiteral(w: World, q: char, b: string)
    requires q == '"' || q == '\''
    ensures Literal(w, [q] + b + [q]) == Some(Str(b))
  {
    var e := [q] + b + [q];
    assert e[0] == q && e[1..|e| - 1] == b;
    assert Keyword(e).None?;
    assert DigitsEnd(e, 0) == 0;
  }

  /** A path text is no literal. */
  lemma PathNoLiteral(w: World, e: string)
    requires e != "" && IsIdentStart(e[0]) && !IsKeyword(e)
    ensures Literal(w, e).None?
  {
    assert DigitsEnd(e, 0) == 0;
  }

  /** No path text is a keyword, unless it is a head alone. */
  lemma {:induction false} PathStart(e: Tree)
    requires PathWellFormed(e)
    ensures Print(e) != "" && IsIdentStart(Print(e)[0]) && (IsKeyword(Print(e)) ==> e.Head?)
  {
    match e
    case Head(n) =>
    case Dot(b, n) => PathStart(b); StepNoKeyword(Print(b), '.', n);
    case Nth(b, d) => PathStart(b); StepNoKeyword(Print(b), '.', d);
    case At(b, p, k, q) =>
      PathStart(b);
      StepNoKeyword(Print(b), '[', p + Print(k) + q + "]");
      assert "[" + (p + Print(k) + q) + "]" == ['['] + (p + Print(k) + q + "]");
  }

  lemma StepNoKeyword(a: string, c: char, b: string)
    requires c == '.' || c == '['
    ensures !IsKeyword(a + ([c] + b))
  {
    assert (a + ([c] + b))[|a|] == c;
    assert c !in "true" && c !in "false" && c !in "null" && c !in "undefined";
  }

  // ---------- paths ----------

  lemma {:induction false} DotText(a: string, n: string, rest: string)
    requires Follows(rest)
    requires IsIdent(n) || (n != "" && forall i :: 0 <= i < |n| ==> IsDigit(n[i]))
    ensures var e := a + ("." + n) + rest;
      e[|a|] == '.' && NameEnd(e, |a| + 1) == |a + ("." + n)| && e[|a| + 1..|a + ("." + n)|] == n
  {
    assert a + ("." + n) + rest == (a + ".") + (n + rest);
    if IsIdent(n) { IdentThen(a + ".", n, rest); } else { DigitsThen(a + ".", n, rest); }
  }

  /** One step of the walk, over `.name` or `.digits`. */
  lemma {:induction false} WalkDot(w: World, vals: Vals, a: string, n: string, rest: string, cur: Value)
    requires Follows(rest)
    requires IsIdent(n) || (n != "" && forall i :: 0 <= i < |n| ==> IsDigit(n[i]))
    ensures var e := a + ("." + n) + rest;
      PathFrom(w, vals, e, |a|, cur) == PathFrom(w, vals, e, |a + ("." + n)|, Member(w, cur, Str(n)))
  {
    DotText(a, n, rest);
    PathDot(w, vals, a + ("." + n) + rest, |a|, cur);
  }

  lemma {:induction false} BracketText(a: string, x: string, rest: string)
    requires Balanced(x)
    ensures var e := a + ("[" + x + "]") + rest; var j := |a| + 1 + |x|;
      e[|a|] == '[' && CloseIndex(e, |a| + 1, 1) == j && e[|a| + 1..j] == x && |a + ("[" + x + "]")| == j + 1
  {
    assert a + ("[" + x + "]") + rest == (a + "[") + (x + "]" + rest);
    CloseAfter(a + "[", x, rest, 0);
  }

  /** One step of the walk, over `[key]`. */
  lemma {:induction false} WalkAt(w: World, vals: Vals, a: string, x: string, rest: string, cur: Value)
    requires Balanced(x)
    ensures var e := a + ("[" + x + "]") + rest;
      PathFrom(w, vals, e, |a|, cur) == PathFrom(w, vals, e, |a + ("[" + x + "]")|,
                                                   Member(w, cur, Resolve(w, vals, x)))
  {
    BracketText(a, x, rest);
    PathKey(w, vals, a + ("[" + x + "]") + rest, |a|, |a| + 1 + |x|, Resolve(w, vals, x), cur);
  }

  lemma {:induction false} WalkHead(w: World, vals: Vals, n: string, rest: string)
    requires IsIdent(n) && Follows(rest)
    ensures PathValue(w, vals, n + rest) == PathFrom(w, vals, n + rest, |n|, Property(w, vals, n))
  {
    IdentThen("", n, rest);
    AppendEmpty(n + rest);
  }

  /** The walk over a path text reaches its end with the path's denotation. */
  lemma {:induction false} PathText(w: World, vals: Vals, e: Tree, rest: string)
    requires PathWellFormed(e) && Follows(rest)
    ensures var t := Print(e);
      PathValue(w, vals, t + rest) == PathFrom(w, vals, t + rest, |t|, Denote(w, vals, e))
    decreases e, 0
  {
    match e
    case Head(n) => WalkHead(w, vals, n, rest);
    case Dot(b, n) =>
      PathText(w, vals, b, "." + n + rest);
      Assoc(Print(b), "." + n, rest);
      WalkDot(w, vals, Print(b), n, rest, Denote(w, vals, b));
    case Nth(b, d) =>
      PathText(w, vals, b, "." + d + rest);
      Assoc(Print(b), "." + d, rest);
      WalkDot(w, vals, Print(b), d, rest, Denote(w, vals, b));
    case At(b, p, k, q) =>
      var x := p + Print(k) + q;
      PathText(w, vals, b, "[" + x + "]" + rest);
      Assoc(Print(b), "[" + x + "]", rest);
      PrintShape(k);
      PadBalanced(p, Print(k), q);
      WalkAt(w, vals, Print(b), x, rest, Denote(w, vals, b));
      ResolvePadded(w, vals, p, Print(k), q);
      RoundTripTrimmed(w, vals, k);
  }

  // ---------- the round trip ----------

  lemma {:induction false} RoundTripTrimmed(w: World, vals: Vals, e: Tree)
    requires WellFormed(e)
    ensures ResolveTrimmed(w, vals, Print(e)) == Denote(w, vals, e)
    decreases e, 1
  {
    var t := Print(e);
    PrintShape(e);
    match e
    case Const(k) =>
      WordLiteral(w, k);
      ResolveAtom(w, vals, t);
    case Number(_) =>
      NumberPlain(t);
      NumberLiteral(w, t);
      ResolveAtom(w, vals, t);
    case Text(q, b) =>
      QuotedLiteral(w, q, b);
      ResolveAtom(w, vals, t);
    case Not(p, x) =>
      PrintShape(x);
      RoundTripTrimmed(w, vals, x);
      ResolveNot(w, vals, p, Print(x));
    case Equal(l, p, op, q, r) =>
      PrintShape(l);
      PrintShape(r);
      RoundTripTrimmed(w, vals, l);
      RoundTripTrimmed(w, vals, r);
      LeftOperand(l, p + (OpText(op) + (q + Print(r))));
      ResolveEqual(w, vals, Print(l), p, op, q, Print(r));
    case Group(p, x, q) =>
      PrintShape(x);
      RoundTripTrimmed(w, vals, x);
      ResolveGroup(w, vals, p, Print(x), q);
    case _ =>
      PathStart(e);
      PathNoLiteral(w, t);
      ResolveAtom(w, vals, t);
      PathText(w, vals, e, "");
      AppendEmpty(t);
  }

  lemma {:induction false} LeftOperand(l: Tree, o: string)
    requires WellFormed(l) && !l.Equal? && o != ""
    ensures NotWrapped(Print(l), o)
  {
    PrintShape(l);
    match l
    case Group(p, x, q) =>
      PrintShape(x);
      PadBalanced(p, Print(x), q);
      LeftGroupStops(p + Print(x) + q, o);
    case Number(t) => NumberPlain(t);
    case Const(_) =>
    case Text(_, _) =>
    case Not(_, _) =>
    case _ => PathStart(l);
  }

  /** Evaluating the text of a well-formed tree, with any white space around it,
      around each of its operators and inside each of its brackets, gives the
      tree's denotation. */
  lemma {:induction false} RoundTrip(w: World, vals: Vals, l: string, e: Tree, r: string)
    requires AllSpace(l) && AllSpace(r) && WellFormed(e)
    ensures Resolve(w, vals, l + Print(e) + r) == Denote(w, vals, e)
  {
    PrintShape(e);
    ResolvePadded(w, vals, l, Print(e), r);
    RoundTripTrimmed(w, vals, e);
  }
}
