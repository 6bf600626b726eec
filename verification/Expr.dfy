/** The expression evaluator of expr.ts: it has no syntax tree, it cuts the text
    of an expression into smaller texts with scanners that count brackets. */
module Expr {
  import opened JsText

  // ---------- values ----------

  /** Numbers, functions and objects are `Other`, told apart by an identity. */
  datatype Value = Undefined | Null | Bool(b: bool) | Str(s: string) | Other(id: nat)

  /** The JavaScript operations the evaluator uses, left uninterpreted: property
      lookup on a value that is not nullish, what a plain object inherits,
      `Number(text)`, the two equalities and truthiness. */
  datatype World = World(
    get: (Value, Value) -> Value,
    inherited: string -> Value,
    number: string -> Value,
    strictEq: (Value, Value) -> bool,
    looseEq: (Value, Value) -> bool,
    truthy: Value -> bool)

  /** The object an expression is evaluated against: its own properties. */
  datatype Vals = NoVals | Vals(own: map<string, Value>)

  function Lookup(w: World, vals: Vals, name: string): Value {
    if vals.NoVals? then Undefined
    else if name in vals.own then vals.own[name]
    else w.inherited(name)
  }

  predicate Nullish(v: Value) { v.Undefined? || v.Null? }

  /** `cur == null ? undefined : cur[key]`. */
  function Get(w: World, cur: Value, key: Value): Value {
    if Nullish(cur) then Undefined else w.get(cur, key)
  }

  datatype Op = StrictEq | StrictNe | LooseEq | LooseNe

  function Compare(w: World, op: Op, l: Value, r: Value): Value {
    match op
    case StrictEq => Bool(w.strictEq(l, r))
    case StrictNe => Bool(!w.strictEq(l, r))
    case LooseEq => Bool(w.looseEq(l, r))
    case LooseNe => Bool(!w.looseEq(l, r))
  }

  // ---------- bracket levels ----------

  datatype Kind = Round | Square | Both

  function Delta(k: Kind, c: char): int {
    if c == '(' && k != Square then 1
    else if c == ')' && k != Square then -1
    else if c == '[' && k != Round then 1
    else if c == ']' && k != Round then -1
    else 0
  }

  /** How many brackets are open before index `i`; negative if more were closed. */
  function Level(k: Kind, s: string, i: nat): int
    requires i <= |s|
  {
    if i == 0 then 0 else Level(k, s, i - 1) + Delta(k, s[i - 1])
  }

  // ---------- parentheses around the whole ----------

  /** No round bracket before the last character brings the level back to zero. */
  ghost predicate WrapsWhole(e: string) {
    forall i :: 0 <= i < |e| - 1 && e[i] == ')' ==> Level(Round, e, i + 1) != 0
  }

  method ParensWrapWhole(e: string) returns (r: bool)
    ensures r == WrapsWhole(e)
  {
    var depth, i := 0, 0;
    while i < |e| - 1
      invariant 0 <= i && (i <= |e| - 1 || i == 0) && depth == Level(Round, e, i)
      invariant forall j :: 0 <= j < i && e[j] == ')' ==> Level(Round, e, j + 1) != 0
    {
      if e[i] == '(' {
        depth := depth + 1;
      } else if e[i] == ')' {
        depth := depth - 1;
        if depth == 0 {
          assert Level(Round, e, i + 1) == 0;
          return false;
        }
      }
      i := i + 1;
    }
    return true;
  }

  // ---------- the leftmost equality ----------

  predicate IsEqChar(c: char) { c == '=' || c == '!' }

  /** An equality operator starts at `i`: outside brackets, not the tail of
      another operator, with something to its left. */
  predicate IsHit(e: string, i: nat) {
    && i + 1 < |e| && IsEqChar(e[i]) && e[i + 1] == '='
    && Level(Both, e, i) == 0
    && !(i > 0 && IsEqChar(e[i - 1]))
    && Trim(e[..i]) != ""
  }

  datatype Equality = Equality(index: nat, op: Op)

  function OpLength(op: Op): nat { if op.StrictEq? || op.StrictNe? then 3 else 2 }

  function OpAt(e: string, i: nat): Op
    requires i < |e|
  {
    if i + 2 < |e| && e[i + 2] == '=' then (if e[i] == '=' then StrictEq else StrictNe)
    else if e[i] == '=' then LooseEq else LooseNe
  }

  /** The first hit from `i` on. */
  function FirstHit(e: string, i: nat): (r: Option<nat>)
    ensures r.Some? ==> i <= r.value && IsHit(e, r.value)
    decreases |e| - i
  {
    if i >= |e| then None else if IsHit(e, i) then Some(i) else FirstHit(e, i + 1)
  }

  /** The operator found is the leftmost one; its text lies inside the expression. */
  lemma {:induction false} FirstHitLeftmost(e: string, i: nat)
    ensures var r := FirstHit(e, i);
      && (r.None? ==> forall j :: i <= j ==> !IsHit(e, j))
      && (r.Some? ==> r.value + OpLength(OpAt(e, r.value)) <= |e| && forall j :: i <= j < r.value ==> !IsHit(e, j))
    decreases |e| - i
  {
    if i < |e| && !IsHit(e, i) { FirstHitLeftmost(e, i + 1); }
  }

  lemma {:induction false} FirstHitIs(e: string, i: nat, h: nat)
    requires i <= h && IsHit(e, h) && forall j :: i <= j < h ==> !IsHit(e, j)
    ensures FirstHit(e, i) == Some(h)
    decreases h - i
  {
    if i >= h {
    } else {
      FirstHitIs(e, i + 1, h);
    }
  }

  lemma {:induction false} FirstHitNone(e: string, i: nat)
    requires forall j :: i <= j ==> !IsHit(e, j)
    ensures FirstHit(e, i) == None
    decreases |e| - i
  {
    if i >= |e| {
    } else {
      FirstHitNone(e, i + 1);
    }
  }

  /** The leftmost operator, and which one it is. */
  function FindEquality(e: string): (r: Option<Equality>)
    ensures r.Some? ==> r.value.index + OpLength(r.value.op) <= |e|
  {
    var h := FirstHit(e, 0);
    if h.None? then None else Some(Equality(h.value, OpAt(e, h.value)))
  }

  method FindTopLevelEquality(e: string) returns (r: Option<Equality>)
    ensures r == FindEquality(e)
  {
    var depth := 0;
    for i := 0 to |e|
      invariant depth == Level(Both, e, i)
      invariant FirstHit(e, 0) == FirstHit(e, i)
    {
      var c := e[i];
      if c == '[' || c == '(' {
        depth := depth + 1;
      } else if c == ']' || c == ')' {
        depth := depth - 1;
      } else if depth == 0 && IsEqChar(c) && i + 1 < |e| && e[i + 1] == '=' {
        if i > 0 && IsEqChar(e[i - 1]) { continue; }
        if Trim(e[..i]) == "" { continue; }
        return Some(Equality(i, OpAt(e, i)));
      }
    }
    return None;
  }

  // ---------- lexical pieces ----------

  predicate IsIdentStart(c: char) { 'A' <= c <= 'Z' || 'a' <= c <= 'z' || c == '_' || c == '$' }
  predicate IsDigit(c: char) { '0' <= c <= '9' }
  predicate IsIdentPart(c: char) { IsIdentStart(c) || IsDigit(c) }

  /** The end of the longest run of identifier characters from `i` on. */
  function PartsEnd(e: string, i: nat): (n: nat)
    requires i <= |e|
    ensures i <= n <= |e|
    decreases |e| - i
  {
    if i < |e| && IsIdentPart(e[i]) then PartsEnd(e, i + 1) else i
  }

  /** The end of the identifier that starts at `i`, or `i` if none does. */
  function IdentEnd(e: string, i: nat): (n: nat)
    requires i <= |e|
    ensures i <= n <= |e|
  {
    if i < |e| && IsIdentStart(e[i]) then PartsEnd(e, i + 1) else i
  }

  function DigitsEnd(e: string, i: nat): (n: nat)
    requires i <= |e|
    ensures i <= n <= |e|
    decreases |e| - i
  {
    if i < |e| && IsDigit(e[i]) then DigitsEnd(e, i + 1) else i
  }

  /** The pattern `^-?\d+(\.\d+)?$`. */
  predicate IsNumber(e: string) {
    var i := if e != "" && e[0] == '-' then 1 else 0;
    var j := DigitsEnd(e, i);
    && j > i
    && (j == |e| || (e[j] == '.' && DigitsEnd(e, j + 1) > j + 1 && DigitsEnd(e, j + 1) == |e|))
  }

  /** The four words that stand for a value. */
  function Keyword(e: string): Option<Value> {
    if e == "true" then Some(Bool(true))
    else if e == "false" then Some(Bool(false))
    else if e == "null" then Some(Null)
    else if e == "undefined" then Some(Undefined)
    else None
  }

  /** The text begins and ends with the same quote. */
  predicate IsQuoted(e: string) {
    |e| >= 2 && (e[0] == '"' || e[0] == '\'') && e[|e| - 1] == e[0]
  }

  /** The value of a keyword, a number or a quoted text. */
  function Literal(w: World, e: string): Option<Value> {
    if Keyword(e).Some? then Keyword(e)
    else if IsNumber(e) then Some(w.number(e))
    else if IsQuoted(e) then Some(Str(e[1..|e| - 1]))
    else None
  }

  /** The end of a path name after a dot: an identifier, or else digits. */
  function NameEnd(e: string, i: nat): (n: nat)
    requires i <= |e|
    ensures i <= n <= |e|
  {
    if IdentEnd(e, i) > i then IdentEnd(e, i) else DigitsEnd(e, i)
  }

  /** The square bracket that closes `depth` open ones, reading from `j` on;
      the end of the text if there is none. */
  function CloseIndex(e: string, j: nat, depth: nat): (n: nat)
    requires j <= |e| && depth > 0
    ensures j <= n <= |e|
    decreases |e| - j
  {
    if j == |e| then j
    else if e[j] == '[' then CloseIndex(e, j + 1, depth + 1)
    else if e[j] == ']' then if depth == 1 then j else CloseIndex(e, j + 1, depth - 1)
    else CloseIndex(e, j + 1, depth)
  }

  // ---------- evaluation ----------

  /** The value of an expression text.  Every string has one: the texts it is cut
      into are shorter, and every cut is within range. */
  ghost function Resolve(w: World, vals: Vals, src: string): Value
    decreases |src|, 3, 0
  {
    ResolveTrimmed(w, vals, Trim(src))
  }

  ghost function ResolveTrimmed(w: World, vals: Vals, e: string): Value
    decreases |e|, 2, 0
  {
    if e == "" then Undefined
    else if e[0] == '(' && e[|e| - 1] == ')' && WrapsWhole(e) then Resolve(w, vals, e[1..|e| - 1])
    else
      match FindEquality(e)
      case Some(Equality(i, op)) =>
        Compare(w, op, Resolve(w, vals, e[..i]), Resolve(w, vals, e[i + OpLength(op)..]))
      case None =>
        if e[0] == '!' then Bool(!w.truthy(Resolve(w, vals, e[1..])))
        else if Literal(w, e).Some? then Literal(w, e).value
        else PathValue(w, vals, e)
  }

  ghost function PathValue(w: World, vals: Vals, e: string): Value
    decreases |e|, 1, 0
  {
    var n := IdentEnd(e, 0);
    if n == 0 then Undefined else PathFrom(w, vals, e, n, Lookup(w, vals, e[..n]))
  }

  /** The rest of a path from index `i` on, `cur` being the value so far. */
  ghost function PathFrom(w: World, vals: Vals, e: string, i: nat, cur: Value): Value
    requires i <= |e|
    decreases |e|, 0, |e| - i
  {
    if i == |e| then cur
    else if e[i] == '.' then
      var n := NameEnd(e, i + 1);
      if n == i + 1 then Undefined else PathFrom(w, vals, e, n, Get(w, cur, Str(e[i + 1..n])))
    else if e[i] == '[' then
      var j := CloseIndex(e, i + 1, 1);
      if j == |e| then Undefined
      else PathFrom(w, vals, e, j + 1, Get(w, cur, Resolve(w, vals, e[i + 1..j])))
    else Undefined
  }

  /** A text with an operator outside brackets is cut there. */
  lemma {:induction false} CutAt(w: World, vals: Vals, e: string, i: nat, op: Op, l: string, r: string)
    requires e != "" && !(e[0] == '(' && e[|e| - 1] == ')' && WrapsWhole(e))
    requires FindEquality(e) == Some(Equality(i, op))
    requires i + OpLength(op) <= |e| && e[..i] == l && e[i + OpLength(op)..] == r
    ensures ResolveTrimmed(w, vals, e) == Compare(w, op, Resolve(w, vals, l), Resolve(w, vals, r))
  {
  }

  /** The next step of a path, over `.name` or `.digits`. */
  lemma {:induction false} PathDot(w: World, vals: Vals, e: string, i: nat, cur: Value)
    requires i < |e| && e[i] == '.' && NameEnd(e, i + 1) > i + 1
    ensures var n := NameEnd(e, i + 1);
      PathFrom(w, vals, e, i, cur) == PathFrom(w, vals, e, n, Get(w, cur, Str(e[i + 1..n])))
  {
  }

  /** The next step of a path, over `[key]`. */
  lemma {:induction false} PathAt(w: World, vals: Vals, e: string, i: nat, cur: Value)
    requires i < |e| && e[i] == '[' && CloseIndex(e, i + 1, 1) < |e|
    ensures var j := CloseIndex(e, i + 1, 1);
      PathFrom(w, vals, e, i, cur) == PathFrom(w, vals, e, j + 1, Get(w, cur, Resolve(w, vals, e[i + 1..j])))
  {
  }

  /** The same, for the key's value and where the key ends. */
  lemma {:induction false} PathKey(w: World, vals: Vals, e: string, i: nat, j: nat, key: Value, cur: Value)
    requires i < j < |e| && e[i] == '[' && CloseIndex(e, i + 1, 1) == j && key == Resolve(w, vals, e[i + 1..j])
    ensures PathFrom(w, vals, e, i, cur) == PathFrom(w, vals, e, j + 1, Get(w, cur, key))
  {
    PathAt(w, vals, e, i, cur);
  }

  /** Where there is no next step, and the text goes on, there is no value. */
  lemma {:induction false} PathEnds(w: World, vals: Vals, e: string, i: nat, cur: Value)
    requires i < |e| && (e[i] == '.' ==> NameEnd(e, i + 1) == i + 1)
    requires e[i] == '[' ==> CloseIndex(e, i + 1, 1) == |e|
    ensures PathFrom(w, vals, e, i, cur) == Undefined
  {
  }

  /** The inner loop of the path walk; it yields the length of the text where the
      loop runs off the end with brackets still open. */
  method FindClose(e: string, start: nat) returns (j: nat)
    requires start <= |e|
    ensures j == CloseIndex(e, start, 1)
  {
    var depth: nat := 1;
    j := start;
    while j < |e| && depth > 0
      invariant start <= j <= |e| && depth > 0
      invariant CloseIndex(e, j, depth) == CloseIndex(e, start, 1)
      decreases |e| - j
    {
      if e[j] == '[' {
        depth := depth + 1;
      } else if e[j] == ']' {
        depth := depth - 1;
        if depth == 0 { break; }
      }
      j := j + 1;
    }
  }

  method Evaluate(w: World, vals: Vals, src: string) returns (v: Value)
    ensures v == Resolve(w, vals, src)
    decreases |src|, 2
  {
    var e := Trim(src);
    if e == "" { return Undefined; }
    if e[0] == '(' && e[|e| - 1] == ')' {
      var wraps := ParensWrapWhole(e);
      if wraps {
        v := Evaluate(w, vals, e[1..|e| - 1]);
        return;
      }
    }
    var eq := FindTopLevelEquality(e);
    if eq.Some? {
      var i, op := eq.value.index, eq.value.op;
      var l := Evaluate(w, vals, e[..i]);
      var r := Evaluate(w, vals, e[i + OpLength(op)..]);
      CutAt(w, vals, e, i, op, e[..i], e[i + OpLength(op)..]);
      return Compare(w, op, l, r);
    }
    if e[0] == '!' {
      var x := Evaluate(w, vals, e[1..]);
      return Bool(!w.truthy(x));
    }
    var literal := Literal(w, e);
    if literal.Some? { return literal.value; }
    v := ResolvePath(w, vals, e);
  }

  method ResolvePath(w: World, vals: Vals, e: string) returns (v: Value)
    ensures v == PathValue(w, vals, e)
    decreases |e|, 1
  {
    var n := IdentEnd(e, 0);
    if n == 0 { return Undefined; }
    var cur := Lookup(w, vals, e[..n]);
    var i := n;
    ghost var value := PathFrom(w, vals, e, i, cur);
    while i < |e|
      invariant n <= i <= |e| && PathFrom(w, vals, e, i, cur) == value
      decreases |e| - i
    {
      if e[i] == '.' {
        var m := NameEnd(e, i + 1);
        if m == i + 1 { return Undefined; }
        PathDot(w, vals, e, i, cur);
        cur := Get(w, cur, Str(e[i + 1..m]));
        i := m;
      } else if e[i] == '[' {
        var j, next := ReadKey(w, vals, e, i, cur);
        if j == |e| { return Undefined; }
        cur := next;
        i := j + 1;
      } else {
        return Undefined;
      }
    }
    return cur;
  }

  /** A `[key]` that starts at `i`: where its bracket is closed, and the value there. */
  method ReadKey(w: World, vals: Vals, e: string, i: nat, cur: Value) returns (j: nat, next: Value)
    requires i < |e| && e[i] == '['
    ensures i < j <= |e| && (j == |e| ==> PathFrom(w, vals, e, i, cur) == Undefined)
    ensures j < |e| ==> PathFrom(w, vals, e, i, cur) == PathFrom(w, vals, e, j + 1, next)
    decreases |e|, 0
  {
    j := FindClose(e, i + 1);
    if j == |e| { return j, Undefined; }
    var key := Evaluate(w, vals, e[i + 1..j]);
    PathKey(w, vals, e, i, j, key, cur);
    return j, Get(w, cur, key);
  }
}
