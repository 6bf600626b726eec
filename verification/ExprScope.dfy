/** What an expression text can see: the names it looks up, and nothing else of
    the object it is evaluated against.  Loop bodies extend that object. */
module ExprScope {
  import opened JsText
  import opened Expr
  import opened ExprPrint
  import opened ExprRoundTrip

  // ---------- the names a text looks up ----------

  ghost function Heads(src: string): set<string>
    decreases |src|, 3, 0
  {
    HeadsTrimmed(Trim(src))
  }

  ghost function HeadsTrimmed(e: string): set<string>
    decreases |e|, 2, 0
  {
    if e == "" then {}
    else if e[0] == '(' && e[|e| - 1] == ')' && WrapsWhole(e) then Heads(e[1..|e| - 1])
    else
      match FindEquality(e)
      case Some(Equality(i, op)) => Heads(e[..i]) + Heads(e[i + OpLength(op)..])
      case None =>
        if e[0] == '!' then Heads(e[1..])
        else if IsKeyword(e) || IsNumber(e) || IsQuoted(e) then {}
        else if IdentEnd(e, 0) == 0 then {}
        else {e[..IdentEnd(e, 0)]} + HeadsFrom(e, IdentEnd(e, 0))
  }

  ghost function HeadsFrom(e: string, i: nat): set<string>
    requires i <= |e|
    decreases |e|, 0, |e| - i
  {
    if i == |e| then {}
    else if e[i] == '.' then
      var n := NameEnd(e, i + 1);
      if n == i + 1 then {} else HeadsFrom(e, n)
    else if e[i] == '[' then
      var j := CloseIndex(e, i + 1, 1);
      if j == |e| then {} else Heads(e[i + 1..j]) + HeadsFrom(e, j + 1)
    else {}
  }

  ghost predicate Agree(w: World, u: Vals, v: Vals, names: set<string>) {
    forall n :: n in names ==> Lookup(w, u, n) == Lookup(w, v, n)
  }

  /** Evaluation depends on the object only through the names in `Heads`, for
      every text, well-formed or not. */
  lemma {:induction false} Frame(w: World, u: Vals, v: Vals, src: string)
    requires Agree(w, u, v, Heads(src))
    ensures Resolve(w, u, src) == Resolve(w, v, src)
    decreases |src|, 3, 0
  {
    FrameTrimmed(w, u, v, Trim(src));
  }

  lemma {:induction false} FrameTrimmed(w: World, u: Vals, v: Vals, e: string)
    requires Agree(w, u, v, HeadsTrimmed(e))
    ensures ResolveTrimmed(w, u, e) == ResolveTrimmed(w, v, e)
    decreases |e|, 2, 0
  {
    if e == "" {
    } else if e[0] == '(' && e[|e| - 1] == ')' && WrapsWhole(e) {
      Frame(w, u, v, e[1..|e| - 1]);
    } else if FindEquality(e).Some? {
      var Equality(i, op) := FindEquality(e).value;
      var l, r := e[..i], e[i + OpLength(op)..];
      AgreeUnion(w, u, v, Heads(l), Heads(r));
      Frame(w, u, v, l);
      Frame(w, u, v, r);
      CutAt(w, u, e, i, op, l, r);
      CutAt(w, v, e, i, op, l, r);
    } else if e[0] == '!' {
      Frame(w, u, v, e[1..]);
    } else if Literal(w, e).None? && IdentEnd(e, 0) > 0 {
      var n := IdentEnd(e, 0);
      FrameFrom(w, u, v, e, n, Lookup(w, u, e[..n]));
    }
  }

  lemma AgreeUnion(w: World, u: Vals, v: Vals, a: set<string>, b: set<string>)
    requires Agree(w, u, v, a + b)
    ensures Agree(w, u, v, a) && Agree(w, u, v, b)
  {
  }

  lemma {:induction false} HeadsStep(e: string, i: nat)
    requires i < |e|
    ensures e[i] == '.' && NameEnd(e, i + 1) > i + 1 ==> HeadsFrom(e, i) == HeadsFrom(e, NameEnd(e, i + 1))
    ensures var j := CloseIndex(e, i + 1, 1);
      e[i] == '[' && j < |e| ==> HeadsFrom(e, i) == Heads(e[i + 1..j]) + HeadsFrom(e, j + 1)
  {
  }

  /** A key that is the same in both objects takes the path on alike. */
  lemma {:induction false} SameKeyStep(w: World, u: Vals, v: Vals, e: string, i: nat, j: nat, key: Value, cur: Value)
    requires i < j < |e| && e[i] == '[' && CloseIndex(e, i + 1, 1) == j
    requires Resolve(w, u, e[i + 1..j]) == key == Resolve(w, v, e[i + 1..j])
    requires PathFrom(w, u, e, j + 1, Get(w, cur, key)) == PathFrom(w, v, e, j + 1, Get(w, cur, key))
    ensures PathFrom(w, u, e, i, cur) == PathFrom(w, v, e, i, cur)
  {
    PathAt(w, u, e, i, cur);
    PathAt(w, v, e, i, cur);
  }

  lemma {:induction false} FrameFrom(w: World, u: Vals, v: Vals, e: string, i: nat, cur: Value)
    requires i <= |e| && Agree(w, u, v, HeadsFrom(e, i))
    ensures PathFrom(w, u, e, i, cur) == PathFrom(w, v, e, i, cur)
    decreases |e|, 0, |e| - i
  {
    if i < |e| && e[i] == '.' && NameEnd(e, i + 1) > i + 1 {
      var n := NameEnd(e, i + 1);
      HeadsStep(e, i);
      PathDot(w, u, e, i, cur);
      PathDot(w, v, e, i, cur);
      FrameFrom(w, u, v, e, n, Get(w, cur, Str(e[i + 1..n])));
    } else if i < |e| && e[i] == '[' && CloseIndex(e, i + 1, 1) < |e| {
      var j := CloseIndex(e, i + 1, 1);
      var key := Resolve(w, u, e[i + 1..j]);
      HeadsStep(e, i);
      AgreeUnion(w, u, v, Heads(e[i + 1..j]), HeadsFrom(e, j + 1));
      Frame(w, u, v, e[i + 1..j]);
      FrameFrom(w, u, v, e, j + 1, Get(w, cur, key));
      SameKeyStep(w, u, v, e, i, j, key, cur);
    } else if i < |e| {
      PathEnds(w, u, e, i, cur);
      PathEnds(w, v, e, i, cur);
    }
  }

  // ---------- such names stand in the text ----------

  predicate Occurs(n: string, s: string) {
    exists i, j :: 0 <= i <= j <= |s| && s[i..j] == n
  }

  lemma OccursIn(n: string, s: string, lo: nat, hi: nat)
    requires lo <= hi <= |s| && Occurs(n, s[lo..hi])
    ensures Occurs(n, s)
  {
    var t := s[lo..hi];
    var i, j :| 0 <= i <= j <= |t| && t[i..j] == n;
    assert s[lo + i..lo + j] == t[i..j] by {
      assert forall k :: i <= k < j ==> t[k] == s[lo + k];
    }
  }

  lemma {:induction false} HeadsOccur(src: string)
    ensures forall n :: n in Heads(src) ==> Occurs(n, src)
    decreases |src|, 3, 0
  {
    var l, r := TrimSplits(src);
    var e := Trim(src);
    HeadsTrimmedOccur(e);
    assert src[|l|..|l| + |e|] == e;
    forall n | n in Heads(src) ensures Occurs(n, src) { OccursIn(n, src, |l|, |l| + |e|); }
  }

  lemma {:induction false} SliceOccurs(e: string, lo: nat, hi: nat)
    requires lo <= hi <= |e| && hi - lo < |e|
    ensures forall n :: n in Heads(e[lo..hi]) ==> Occurs(n, e)
    decreases |e|, 0, 0
  {
    HeadsOccur(e[lo..hi]);
    forall n | n in Heads(e[lo..hi]) ensures Occurs(n, e) { OccursIn(n, e, lo, hi); }
  }

  lemma {:induction false} HeadsTrimmedOccur(e: string)
    ensures forall n :: n in HeadsTrimmed(e) ==> Occurs(n, e)
    decreases |e|, 2, 0
  {
    if e == "" {
    } else if e[0] == '(' && e[|e| - 1] == ')' && WrapsWhole(e) {
      SliceOccurs(e, 1, |e| - 1);
    } else if FindEquality(e).Some? {
      var Equality(i, op) := FindEquality(e).value;
      SliceOccurs(e, 0, i);
      assert e[0..i] == e[..i];
      SliceOccurs(e, i + OpLength(op), |e|);
      assert e[i + OpLength(op)..|e|] == e[i + OpLength(op)..];
    } else if e[0] == '!' {
      SliceOccurs(e, 1, |e|);
      assert e[1..|e|] == e[1..];
    } else if IdentEnd(e, 0) > 0 {
      var n := IdentEnd(e, 0);
      assert e[0..n] == e[..n];
      HeadsFromOccur(e, n);
    }
  }

  lemma {:induction false} HeadsFromOccur(e: string, i: nat)
    requires i <= |e|
    ensures forall n :: n in HeadsFrom(e, i) ==> Occurs(n, e)
    decreases |e|, 1, |e| - i
  {
    if i < |e| && e[i] == '.' {
      var n := NameEnd(e, i + 1);
      if n > i + 1 { HeadsFromOccur(e, n); }
    } else if i < |e| && e[i] == '[' {
      var j := CloseIndex(e, i + 1, 1);
      if j < |e| {
        SliceOccurs(e, i + 1, j);
        HeadsFromOccur(e, j + 1);
      }
    }
  }

  // ---------- loop bodies ----------

  const INDEX := "$index"

  /** `{ ...vals, [asName]: item, $index: i }`. */
  function LoopScope(vals: Vals, asName: string, item: Value, index: Value): Vals {
    Vals((if vals.NoVals? then map[] else vals.own)[asName := item][INDEX := index])
  }

  /** An expression that looks up neither the loop name nor `$index` means the
      same inside the loop as outside. */
  lemma LoopFrame(w: World, vals: Vals, asName: string, item: Value, index: Value, src: string)
    requires vals.Vals? && asName !in Heads(src) && INDEX !in Heads(src)
    ensures Resolve(w, LoopScope(vals, asName, item, index), src) == Resolve(w, vals, src)
  {
    Frame(w, LoopScope(vals, asName, item, index), vals, src);
  }

  /** In particular one in whose text neither of them stands. */
  lemma LoopFrameText(w: World, vals: Vals, asName: string, item: Value, index: Value, src: string)
    requires vals.Vals? && !Occurs(asName, src) && !Occurs(INDEX, src)
    ensures Resolve(w, LoopScope(vals, asName, item, index), src) == Resolve(w, vals, src)
  {
    HeadsOccur(src);
    LoopFrame(w, vals, asName, item, index, src);
  }

  lemma ResolveName(w: World, vals: Vals, l: string, n: string, r: string)
    requires AllSpace(l) && AllSpace(r) && IsIdent(n) && !IsKeyword(n)
    ensures Resolve(w, vals, l + n + r) == Lookup(w, vals, n)
  {
    RoundTrip(w, vals, l, Head(n), r);
  }

  lemma IndexName()
    ensures IsIdent(INDEX) && !IsKeyword(INDEX)
  {
    assert INDEX[0] == '$';
  }

  /** The loop name reads the item and `$index` the index, even where a loop is
      named `$index`. */
  lemma LoopBinds(w: World, vals: Vals, a: string, x: Value, i: Value, l: string, r: string)
    requires AllSpace(l) && AllSpace(r) && IsIdent(a) && !IsKeyword(a)
    ensures Resolve(w, LoopScope(vals, a, x, i), l + a + r) == if a == "$index" then i else x
    ensures Resolve(w, LoopScope(vals, a, x, i), l + "$index" + r) == i
  {
    IndexName();
    ResolveName(w, LoopScope(vals, a, x, i), l, a, r);
    ResolveName(w, LoopScope(vals, a, x, i), l, INDEX, r);
  }

  /** Of nested loops the innermost binding is seen, and an outer name that no
      inner loop takes stays visible. */
  lemma {:induction false} NestedScopes(w: World, vals: Vals, a: string, x: Value, i: Value,
                                        b: string, y: Value, j: Value)
    ensures var inner := LoopScope(LoopScope(vals, a, x, i), b, y, j);
      && Lookup(w, inner, a) == (if a == INDEX then j else if a == b then y else x)
      && (a == b ==> inner == LoopScope(vals, a, y, j))
  {
  }

  lemma LoopNesting(w: World, vals: Vals, a: string, x: Value, i: Value, b: string, y: Value, j: Value,
                    l: string, r: string)
    requires AllSpace(l) && AllSpace(r) && IsIdent(a) && !IsKeyword(a)
    ensures Resolve(w, LoopScope(LoopScope(vals, a, x, i), b, y, j), l + a + r)
            == if a == "$index" then j else if a == b then y else x
  {
    var inner := LoopScope(LoopScope(vals, a, x, i), b, y, j);
    NestedScopes(w, vals, a, x, i, b, y, j);
    ResolveName(w, inner, l, a, r);
  }

  // ---------- quoted texts ----------

  /** A quoted text reads as its body exactly when no equality operator is found
      in it: the operator scan runs first and knows nothing of quotes. */
  lemma QuotedIff(w: World, vals: Vals, q: char, b: string)
    requires q == '"' || q == '\''
    ensures Resolve(w, vals, [q] + b + [q]) == Str(b) <==> FindEquality([q] + b + [q]) == None
  {
    var e := [q] + b + [q];
    TrimOfTrimmed(e);
    QuotedLiteral(w, q, b);
  }

  /** An operator inside the quotes splits the text. */
  lemma QuotedOperator(w: World, vals: Vals)
    ensures Resolve(w, vals, "'a==b'") != Str("a==b")
  {
    var e := "'a==b'";
    assert e == ['\''] + "a==b" + ['\''];
    assert Level(Both, e, 1) == 0 && Level(Both, e, 2) == 0;
    TrimOfTrimmed("'a");
    assert e[..2] == "'a";
    assert IsHit(e, 2);
    FirstHitLeftmost(e, 0);
    QuotedIff(w, vals, '\'', "a==b");
  }
}
