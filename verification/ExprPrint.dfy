/** A syntax tree for expressions, its denotation and its text.

    The text of a tree is written with white space around operators and inside
    brackets.  What the scanners of Expr rely on is proved here: printed text is
    balanced under every bracket counter, trimmed, and free of operators outside
    brackets, unless it is an equality itself. */
module ExprPrint {
  import opened JsText
  import opened Expr

  datatype Constant = True | False | NullConst | UndefinedConst

  /** `Group` is a pair of parentheses in the text.  A path is a `Head` followed
      by any number of `.name`, `.digits` and `[key]`.  The texts `before` and
      `after` are white space around an operator or inside a pair of brackets. */
  datatype Tree =
    | Const(k: Constant)
    | Number(text: string)
    | Text(quote: char, body: string)
    | Not(after: string, x: Tree)
    | Equal(l: Tree, before: string, op: Op, after: string, r: Tree)
    | Group(before: string, x: Tree, after: string)
    | Head(name: string)
    | Dot(base: Tree, name: string)
    | Nth(base: Tree, digits: string)
    | At(base: Tree, before: string, key: Tree, after: string)

  predicate IsPath(e: Tree) { e.Head? || e.Dot? || e.Nth? || e.At? }

  function Word(k: Constant): string {
    match k case True => "true" case False => "false" case NullConst => "null" case UndefinedConst => "undefined"
  }

  function OpText(op: Op): string {
    match op case StrictEq => "===" case StrictNe => "!==" case LooseEq => "==" case LooseNe => "!="
  }

  /** The text of a tree.  The right operand of an equality needs no parentheses. */
  function Print(e: Tree): string {
    match e
    case Const(k) => Word(k)
    case Number(t) => t
    case Text(q, b) => [q] + b + [q]
    case Not(p, x) => "!" + (p + Print(x))
    case Equal(l, p, op, q, r) => Print(l) + p + (OpText(op) + (q + Print(r)))
    case Group(p, x, q) => "(" + (p + Print(x) + q) + ")"
    case Head(n) => n
    case Dot(b, n) => Print(b) + ("." + n)
    case Nth(b, d) => Print(b) + ("." + d)
    case At(b, p, k, q) => Print(b) + ("[" + (p + Print(k) + q) + "]")
  }

  // ---------- meaning ----------

  /** The property of the object, else what it inherits; nothing where there is no object. */
  function Property(w: World, vals: Vals, n: string): Value {
    if vals == NoVals then Undefined else if n in vals.own then vals.own[n] else w.inherited(n)
  }

  /** `base?.[key]`. */
  function Member(w: World, base: Value, key: Value): Value {
    if base == Undefined || base == Null then Undefined else w.get(base, key)
  }

  predicate Holds(w: World, op: Op, x: Value, y: Value) {
    match op
    case StrictEq => w.strictEq(x, y)
    case StrictNe => !w.strictEq(x, y)
    case LooseEq => w.looseEq(x, y)
    case LooseNe => !w.looseEq(x, y)
  }

  /** What a tree means, in the operations of `World`; no function of the evaluator
      is used. */
  ghost function Denote(w: World, vals: Vals, e: Tree): Value {
    match e
    case Const(True) => Bool(true)
    case Const(False) => Bool(false)
    case Const(NullConst) => Null
    case Const(UndefinedConst) => Undefined
    case Number(t) => w.number(t)
    case Text(_, b) => Str(b)
    case Not(_, x) => Bool(!w.truthy(Denote(w, vals, x)))
    case Equal(l, _, op, _, r) => Bool(Holds(w, op, Denote(w, vals, l), Denote(w, vals, r)))
    case Group(_, x, _) => Denote(w, vals, x)
    case Head(n) => Property(w, vals, n)
    case Dot(b, n) => Member(w, Denote(w, vals, b), Str(n))
    case Nth(b, d) => Member(w, Denote(w, vals, b), Str(d))
    case At(b, _, k, _) => Member(w, Denote(w, vals, b), Denote(w, vals, k))
  }

  predicate IsIdent(n: string) {
    n != "" && IsIdentStart(n[0]) && forall i :: 0 <= i < |n| ==> IsIdentPart(n[i])
  }

  predicate IsKeyword(n: string) { n == "true" || n == "false" || n == "null" || n == "undefined" }

  /** What a string literal may hold: brackets of either kind only in balance, and
      no equality operator.  Single `=`, `!` and quotes are harmless. */
  ghost predicate SafeBody(b: string) {
    && Balanced(b)
    && forall i :: 0 <= i < |b| - 1 ==> !(IsEqChar(b[i]) && b[i + 1] == '=')
  }

  /** Which trees have a text: operands that would be read differently are grouped,
      and what stands around operators and inside brackets is white space. */
  ghost predicate WellFormed(e: Tree)
    decreases e, 0
  {
    match e
    case Const(_) => true
    case Number(t) => IsNumber(t)
    case Text(q, b) => (q == '"' || q == '\'') && SafeBody(b)
    case Not(p, x) => AllSpace(p) && WellFormed(x) && !x.Equal?
    case Equal(l, p, _, q, r) => AllSpace(p) && AllSpace(q) && WellFormed(l) && WellFormed(r) && !l.Equal?
    case Group(p, x, q) => AllSpace(p) && AllSpace(q) && WellFormed(x)
    case Head(n) => IsIdent(n) && !IsKeyword(n)
    case Dot(b, n) => PathWellFormed(b) && IsIdent(n)
    case Nth(b, d) => PathWellFormed(b) && d != "" && forall i :: 0 <= i < |d| ==> IsDigit(d[i])
    case At(b, p, k, q) => PathWellFormed(b) && AllSpace(p) && AllSpace(q) && WellFormed(k)
  }

  /** The head of a longer path may be a keyword. */
  ghost predicate PathWellFormed(e: Tree)
    decreases e, 1
  {
    IsPath(e) && if e.Head? then IsIdent(e.name) else WellFormed(e)
  }

  // ---------- bracket levels of a concatenation ----------

  lemma {:induction false} LevelPrefix(k: Kind, a: string, b: string, i: nat)
    requires i <= |a|
    ensures Level(k, a + b, i) == Level(k, a, i)
  {
    if i == 0 {
    } else {
      LevelPrefix(k, a, b, i - 1);
    }
  }

  lemma {:induction false} LevelSuffix(k: Kind, a: string, b: string, i: nat)
    requires i <= |b|
    ensures Level(k, a + b, |a| + i) == Level(k, a, |a|) + Level(k, b, i)
  {
    if i == 0 { LevelPrefix(k, a, b, |a|); } else { LevelSuffix(k, a, b, i - 1); }
  }

  lemma {:induction false} LevelBoth(s: string, i: nat)
    requires i <= |s|
    ensures Level(Both, s, i) == Level(Round, s, i) + Level(Square, s, i)
  {
    if i == 0 {
    } else {
      LevelBoth(s, i - 1);
    }
  }

  /** Every bracket kind is closed after it is opened, and only then. */
  ghost predicate Balanced(s: string) {
    && (forall i :: 0 <= i <= |s| ==> Level(Round, s, i) >= 0 && Level(Square, s, i) >= 0)
    && Level(Round, s, |s|) == 0 && Level(Square, s, |s|) == 0
  }

  lemma BalancedAppend(a: string, b: string)
    requires Balanced(a) && Balanced(b)
    ensures Balanced(a + b)
  {
    forall i | 0 <= i <= |a + b|
      ensures Level(Round, a + b, i) >= 0 && Level(Square, a + b, i) >= 0
    {
      LevelAppend(Round, a, b, i);
      LevelAppend(Square, a, b, i);
    }
    LevelAppend(Round, a, b, |a + b|);
    LevelAppend(Square, a, b, |a + b|);
  }

  lemma LevelAppend(k: Kind, a: string, b: string, i: nat)
    requires i <= |a + b|
    ensures Level(k, a + b, i) == if i <= |a| then Level(k, a, i) else Level(k, a, |a|) + Level(k, b, i - |a|)
  {
    if i <= |a| { LevelPrefix(k, a, b, i); } else { LevelSuffix(k, a, b, i - |a|); }
  }

  /** A text without brackets stays at level zero. */
  lemma {:induction false} LevelFlat(k: Kind, s: string, i: nat)
    requires i <= |s| && forall j :: 0 <= j < |s| ==> s[j] !in {'(', ')', '[', ']'}
    ensures Level(k, s, i) == 0
  {
    if i == 0 {
    } else {
      LevelFlat(k, s, i - 1);
    }
  }

  lemma BalancedFlat(s: string)
    requires forall j :: 0 <= j < |s| ==> s[j] !in {'(', ')', '[', ']'}
    ensures Balanced(s)
  {
    forall i | 0 <= i <= |s|
      ensures Level(Round, s, i) == 0 && Level(Square, s, i) == 0
    {
      LevelFlat(Round, s, i);
      LevelFlat(Square, s, i);
    }
  }

  /** Inside a pair of brackets the level is one up. */
  lemma LevelWrap(k: Kind, open: char, x: string, close: char, i: nat)
    requires 1 <= i <= |x| + 1
    ensures Level(k, [open] + x + [close], i) == Delta(k, open) + Level(k, x, i - 1)
  {
    LevelPrefix(k, [open] + x, [close], i);
    LevelSuffix(k, [open], x, i - 1);
    assert Level(k, [open], 1) == Level(k, [open], 0) + Delta(k, open);
  }

  lemma BalancedWrap(open: char, x: string, close: char)
    requires Balanced(x) && ((open == '(' && close == ')') || (open == '[' && close == ']'))
    ensures Balanced([open] + x + [close])
  {
    var s := [open] + x + [close];
    forall i, k: Kind | 0 <= i <= |s| && k != Both
      ensures Level(k, s, i) >= 0 && (i == |s| ==> Level(k, s, i) == 0)
    {
      if 1 <= i <= |x| + 1 { LevelWrap(k, open, x, close, i); }
      if i == |s| {
        LevelWrap(k, open, x, close, |x| + 1);
        assert s[|x| + 1] == close;
      }
    }
  }

  // ---------- the shape of printed text ----------

  /** Balanced, trimmed, and starting and ending where no operator can be misread. */
  ghost predicate Shape(s: string) {
    Balanced(s) && s != "" && Trimmed(s) && s[0] != '=' && !IsEqChar(s[|s| - 1])
  }

  /** No equality operator outside brackets. */
  ghost predicate Calm(s: string) {
    forall i :: 0 <= i < |s| - 1 && IsEqChar(s[i]) && s[i + 1] == '=' ==> Level(Both, s, i) > 0
  }

  lemma CalmAppend(a: string, b: string)
    requires Balanced(a) && Calm(a) && Calm(b)
    requires a != "" && b != "" ==> !IsEqChar(a[|a| - 1]) || b[0] != '='
    ensures Calm(a + b)
  {
    var s := a + b;
    forall i | 0 <= i < |s| - 1 && IsEqChar(s[i]) && s[i + 1] == '='
      ensures Level(Both, s, i) > 0
    {
      LevelAppend(Both, a, b, i);
      LevelBoth(a, |a|);
      if i < |a| - 1 {
        assert a[i] == s[i] && a[i + 1] == s[i + 1];
      } else if i >= |a| {
        assert b[i - |a|] == s[i] && b[i - |a| + 1] == s[i + 1];
        LevelAppend(Both, a, b, |a|);
      }
    }
  }

  lemma CalmWrap(open: char, x: string, close: char)
    requires Balanced(x) && ((open == '(' && close == ')') || (open == '[' && close == ']'))
    ensures Calm([open] + x + [close])
  {
    var s := [open] + x + [close];
    forall i | 0 <= i < |s| - 1 && IsEqChar(s[i]) && s[i + 1] == '='
      ensures Level(Both, s, i) > 0
    {
      LevelWrap(Both, open, x, close, i);
      LevelBoth(x, i - 1);
    }
  }

  /** Nothing in the text matters to the scanners. */
  predicate Flat(s: string) {
    forall i :: 0 <= i < |s| ==> s[i] !in {'(', ')', '[', ']', '='}
  }

  lemma FlatIsCalm(s: string)
    requires Flat(s)
    ensures Balanced(s) && Calm(s)
  {
    BalancedFlat(s);
  }

  /** What a printed tree satisfies, a tree in base position included. */
  ghost predicate Printable(e: Tree) { WellFormed(e) || PathWellFormed(e) }

  lemma QuotedShape(q: char, b: string)
    requires (q == '"' || q == '\'') && SafeBody(b)
    ensures Shape([q] + b + [q]) && Calm([q] + b + [q])
  {
    FlatIsCalm([q]);
    BalancedAppend([q], b);
    BalancedAppend([q] + b, [q]);
    var s := [q] + b + [q];
    forall i | 0 <= i < |s| - 1
      ensures !(IsEqChar(s[i]) && s[i + 1] == '=')
    {
      if 1 <= i < |b| { assert s[i] == b[i - 1] && s[i + 1] == b[i]; }
    }
  }

  /** A name, a number or a word: flat, and neither end is space. */
  predicate Plain(s: string) {
    Flat(s) && s != "" && !IsSpace(s[0]) && !IsSpace(s[|s| - 1]) && !IsEqChar(s[|s| - 1])
  }

  lemma PlainShape(s: string)
    requires Plain(s)
    ensures Shape(s) && Calm(s)
  {
    FlatIsCalm(s);
  }

  /** Putting white space on both sides keeps the balance. */
  lemma {:induction false} PadBalanced(p: string, s: string, q: string)
    requires AllSpace(p) && AllSpace(q) && Balanced(s)
    ensures Balanced(p + s) && Balanced(p + s + q)
  {
    FlatIsCalm(p);
    FlatIsCalm(q);
    BalancedAppend(p, s);
    BalancedAppend(p + s, q);
  }

  lemma ShapeAppend(a: string, b: string)
    requires Shape(a) && Balanced(b) && b != "" && !IsSpace(b[|b| - 1]) && !IsEqChar(b[|b| - 1])
    ensures Shape(a + b)
  {
    BalancedAppend(a, b);
  }

  lemma WrapShape(open: char, x: string, close: char)
    requires Balanced(x) && ((open == '(' && close == ')') || (open == '[' && close == ']'))
    ensures Shape([open] + x + [close]) && Calm([open] + x + [close])
  {
    BalancedWrap(open, x, close);
    CalmWrap(open, x, close);
  }

  lemma NotShape(p: string, x: string)
    requires AllSpace(p) && Shape(x) && Calm(x)
    ensures Shape("!" + (p + x)) && Calm("!" + (p + x))
  {
    FlatIsCalm("!");
    FlatIsCalm(p);
    BalancedAppend(p, x);
    BalancedAppend("!", p + x);
    CalmAppend(p, x);
    CalmAppend("!", p + x);
  }

  lemma {:induction false} EqualShape(l: string, p: string, op: Op, q: string, r: string)
    requires AllSpace(p) && AllSpace(q) && Shape(l) && Shape(r)
    ensures Shape(l + p + (OpText(op) + (q + r)))
  {
    BalancedFlat(p);
    BalancedFlat(q);
    BalancedFlat(OpText(op));
    BalancedAppend(l, p);
    BalancedAppend(q, r);
    BalancedAppend(OpText(op), q + r);
    BalancedAppend(l + p, OpText(op) + (q + r));
  }

  lemma PathShape(a: string, b: string)
    requires Shape(a) && Calm(a) && Shape(b) && Calm(b)
    ensures Shape(a + b) && Calm(a + b)
  {
    ShapeAppend(a, b);
    CalmAppend(a, b);
  }

  lemma {:induction false} DigitsAre(e: string, i: nat)
    requires i <= |e|
    ensures forall j :: i <= j < DigitsEnd(e, i) ==> IsDigit(e[j])
    decreases |e| - i
  {
    if i < |e| && IsDigit(e[i]) { DigitsAre(e, i + 1); }
  }

  lemma NumberPlain(t: string)
    requires IsNumber(t)
    ensures Plain(t) && t[0] != '!'
    ensures forall i :: 0 <= i < |t| ==> IsDigit(t[i]) || t[i] == '-' || t[i] == '.'
  {
    var i := if t[0] == '-' then 1 else 0;
    DigitsAre(t, i);
    var j := DigitsEnd(t, i);
    if j < |t| { DigitsAre(t, j + 1); }
  }

  lemma NameShape(n: string)
    requires n != "" && forall i :: 0 <= i < |n| ==> IsIdentPart(n[i])
    ensures Shape(n) && Calm(n) && Shape("." + n) && Calm("." + n)
  {
    PlainShape(n);
    PlainShape("." + n);
  }

  /** One step of a path added to a printed one. */
  lemma {:induction false} StepShape(a: string, n: string)
    requires Shape(a) && Calm(a) && n != "" && forall i :: 0 <= i < |n| ==> IsIdentPart(n[i])
    ensures Shape(a + ("." + n)) && Calm(a + ("." + n))
  {
    NameShape(n);
    PathShape(a, "." + n);
  }

  lemma {:induction false} KeyShape(a: string, p: string, k: string, q: string)
    requires Shape(a) && Calm(a) && AllSpace(p) && AllSpace(q) && Shape(k)
    ensures Shape(a + ("[" + (p + k + q) + "]")) && Calm(a + ("[" + (p + k + q) + "]"))
  {
    PadBalanced(p, k, q);
    WrapShape('[', p + k + q, ']');
    PathShape(a, "[" + (p + k + q) + "]");
  }

  lemma {:induction false} PrintShape(e: Tree)
    requires Printable(e)
    ensures Shape(Print(e)) && (!e.Equal? ==> Calm(Print(e)))
  {
    match e
    case Const(k) => PlainShape(Word(k));
    case Number(t) => NumberPlain(t); PlainShape(t);
    case Text(q, b) => QuotedShape(q, b);
    case Not(p, x) => PrintShape(x); NotShape(p, Print(x));
    case Equal(l, p, op, q, r) =>
      PrintShape(l);
      PrintShape(r);
      EqualShape(Print(l), p, op, q, Print(r));
    case Group(p, x, q) =>
      PrintShape(x);
      PadBalanced(p, Print(x), q);
      WrapShape('(', p + Print(x) + q, ')');
    case Head(n) => NameShape(n);
    case Dot(b, n) =>
      assert WellFormed(e);
      assert PathWellFormed(b);
      PrintShape(b);
      StepShape(Print(b), n);
    case Nth(b, d) =>
      assert WellFormed(e);
      assert PathWellFormed(b);
      PrintShape(b);
      StepShape(Print(b), d);
    case At(b, p, k, q) =>
      assert WellFormed(e);
      assert PathWellFormed(b);
      PrintShape(b);
      PrintShape(k);
      KeyShape(Print(b), p, Print(k), q);
  }
}
