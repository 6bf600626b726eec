/** What each kind of node shows, in terms of the trees and literals that its
    attributes are written from. */
module RenderLaws {
  import opened JsText
  import opened Expr
  import opened ExprPrint
  import opened ExprScope
  import opened Interpolation
  import opened Rendering

  // ---------- attribute texts ----------

  /** How an attribute can be written: as one hole with white space around it, or
      from literals and holes. */
  datatype Source =
    | Whole(a: string, l: string, tree: Tree, r: string, b: string)
    | Mixed(pieces: seq<Piece>, last: string)

  ghost predicate SourceOk(s: Source) {
    match s
    case Whole(a, l, tree, r, b) => AllSpace(a) && AllSpace(l) && WellFormed(tree) && AllSpace(r) && AllSpace(b)
    case Mixed(pieces, last) =>
      && PiecesOk(pieces) && Canonical(PieceTexts(pieces, last))
      && (pieces != [] ==> !(AllSpace(pieces[0].literal) && Closes(last)))
  }

  function SourceText(s: Source): string {
    match s
    case Whole(a, l, tree, r, b) => a + ("{{" + (l + Print(tree) + r) + "}}") + b
    case Mixed(pieces, last) => Glue(PieceTexts(pieces, last))
  }

  /** One hole is the tree's value; otherwise the value is a text. */
  ghost function SourceValue(rt: Runtime, vals: Vals, s: Source): Value {
    match s
    case Whole(_, _, tree, _, _) => Denote(rt.w, vals, tree)
    case Mixed(pieces, last) => Str(PieceValues(rt.w, rt.toText, vals, pieces, last))
  }

  lemma BracesMakeHole(s: string, i: nat, k: nat)
    requires i + 3 <= k < |s| - 1 && s[i] == '{' && s[i + 1] == '{' && s[k] == '}' && s[k + 1] == '}'
    ensures HoleAt(s, i)
  {
    CloseBound(s, i + 3, k);
  }

  lemma {:induction false} NoHoleFree(s: string)
    requires FirstHole(s, 0) == |s|
    ensures HoleFree(s)
  {
    if i, k :| 0 <= i && i + 3 <= k < |s| - 1 && s[i] == '{' && s[i + 1] == '{' && s[k] == '}' && s[k + 1] == '}' {
      BracesMakeHole(s, i, k);
      NoHoleBefore(s, 0);
    }
  }

  lemma {:induction false} SourceMeans(rt: Runtime, vals: Vals, s: Source)
    requires SourceOk(s)
    ensures Attribute(rt, vals, SourceText(s)) == SourceValue(rt, vals, s)
  {
    match s
    case Whole(a, l, tree, r, b) => AttrWhole(rt.w, rt.toText, vals, Piece(a, l, tree, r), b);
    case Mixed(pieces, last) =>
      if pieces == [] {
        NoHoleFree(last);
        AttrPlain(rt.w, rt.toText, vals, last);
      } else {
        AttrPieces(rt.w, rt.toText, vals, pieces, last);
      }
  }

  // ---------- text ----------

  lemma {:induction false} OnePiece(p: Piece, last: string)
    ensures PieceTexts([], last) == [last] && PieceTexts([p], last) == [p.literal, HoleOf(p), last]
    ensures Glue(PieceTexts([p], last)) == p.literal + ("{{" + HoleOf(p) + "}}") + last
  {
    var none: seq<Piece> := [];
    assert PieceTexts(none, last) == [last] && [p][1..] == none;
    assert PieceTexts([p], last)[2..] == [last];
  }

  /** A text node with one hole shows the literals around it and the tree's value, one
      without a hole its text. */
  lemma {:induction false} TextShows(rt: Runtime, vals: Vals, p: Piece, last: string, chain: seq<string>)
    requires chain != [] && PieceOk(p) && LiteralOk(p.literal) && HoleOk(HoleOf(p)) && FirstHole(last, 0) == |last|
    ensures Render(rt, Tpl.Text(p.literal + ("{{" + HoleOf(p) + "}}") + last), vals, chain)
            == Words([Str(p.literal), Denote(rt.w, vals, p.hole), Str(last)])
    ensures Render(rt, Tpl.Text(last), vals, chain) == Words([Str(last)])
  {
    OnePiece(p, last);
    TextShowsPieces(rt, vals, [p], last, chain);
    TextShowsPieces(rt, vals, [], last, chain);
  }

  // ---------- conditions ----------

  lemma {:induction false} IfStep(rt: Runtime, vals: Vals, raw: string, hint: Option<string>, body: Tpl,
                                  chain: seq<string>)
    requires chain != []
    ensures var x := Attribute(rt, vals, raw);
      var asked := if x == Undefined && hint.Some? && rt.streaming(chain[|chain| - 1])
                   then Attribute(rt, vals, hint.value) else x;
      Render(rt, If(raw, hint, body), vals, chain)
      == if rt.w.truthy(asked) then Render(rt, body, vals, chain) else Nothing
  {
  }

  /** An `sc-if` shows its body exactly when its value is truthy.  A hint decides in
      its place exactly when the value is undefined and the template streams. */
  lemma {:induction false} IfShows(rt: Runtime, vals: Vals, v: Source, hint: Option<Source>, body: Tpl,
                                   chain: seq<string>)
    requires chain != [] && SourceOk(v) && (hint.Some? ==> SourceOk(hint.value))
    ensures var x := SourceValue(rt, vals, v);
      var asked := if x == Undefined && hint.Some? && rt.streaming(chain[|chain| - 1])
                   then SourceValue(rt, vals, hint.value) else x;
      Render(rt, If(SourceText(v), if hint.Some? then Some(SourceText(hint.value)) else None, body), vals, chain)
      == if rt.w.truthy(asked) then Render(rt, body, vals, chain) else Nothing
  {
    SourceMeans(rt, vals, v);
    if hint.Some? { SourceMeans(rt, vals, hint.value); }
    IfStep(rt, vals, SourceText(v), if hint.Some? then Some(SourceText(hint.value)) else None, body, chain);
  }

  // ---------- loops ----------

  /** Outputs side by side, in order. */
  function RowOf(outs: seq<Out>): Out {
    if outs == [] then Nothing else Beside(outs[0], RowOf(outs[1..]))
  }

  /** The object one turn of a loop is rendered against: the outer one, with the item
      under the loop's name and the number of the turn under `$index`, which wins. */
  function TurnVals(vals: Vals, asName: string, item: Value, number: Value): Vals {
    match vals
    case NoVals => Vals(map[asName := item]["$index" := number])
    case Vals(own) => Vals(own[asName := item]["$index" := number])
  }

  lemma {:induction false} ItemStep(rt: Runtime, body: Tpl, vals: Vals, asName: string, items: seq<Value>, k: nat,
                                    chain: seq<string>)
    requires chain != [] && k < |items|
    ensures RenderItems(rt, body, vals, asName, items, k, chain) ==
      Beside(Render(rt, body, TurnVals(vals, asName, items[k], rt.index(k)), chain),
             RenderItems(rt, body, vals, asName, items, k + 1, chain))
  {
    assert LoopScope(vals, asName, items[k], rt.index(k)) == TurnVals(vals, asName, items[k], rt.index(k));
  }

  /** Each output is the body, rendered for its turn. */
  ghost predicate Turns(rt: Runtime, body: Tpl, vals: Vals, asName: string, items: seq<Value>, chain: seq<string>,
                        outs: seq<Out>)
    requires chain != []
  {
    && |outs| == |items|
    && forall i :: 0 <= i < |outs| ==> outs[i] == Render(rt, body, TurnVals(vals, asName, items[i], rt.index(i)), chain)
  }

  lemma {:induction false} ItemsShow(rt: Runtime, body: Tpl, vals: Vals, asName: string, items: seq<Value>,
                                     chain: seq<string>, outs: seq<Out>, k: nat)
    requires chain != [] && k <= |items| && Turns(rt, body, vals, asName, items, chain, outs)
    ensures RenderItems(rt, body, vals, asName, items, k, chain) == RowOf(outs[k..])
    decreases |items| - k
  {
    if k == |items| {
    } else {
      ItemStep(rt, body, vals, asName, items, k, chain);
      ItemsShow(rt, body, vals, asName, items, chain, outs, k + 1);
      assert outs[k..][1..] == outs[k + 1..];
    }
  }

  lemma {:induction false} ForStep(rt: Runtime, vals: Vals, raw: string, asName: string, hint: nat, body: Tpl,
                                   chain: seq<string>) returns (items: seq<Value>)
    requires chain != []
    ensures Render(rt, For(raw, asName, hint, body), vals, chain)
            == RenderItems(rt, body, vals, asName, items, 0, chain)
    ensures match rt.asArray(Attribute(rt, vals, raw))
      case Some(list) => items == list
      case None =>
        && |items| == (if rt.streaming(chain[|chain| - 1]) then hint else 0)
        && forall i :: 0 <= i < |items| ==> items[i] == Undefined
  {
    items := LoopItems(rt, vals, raw, hint, chain[|chain| - 1]);
  }

  /** An `sc-for` over an array shows its body once for every item, in order.  What is
      no array shows nothing, except while the template streams: then as many bodies
      as the hint says, their items undefined. */
  lemma {:induction false} ForShows(rt: Runtime, vals: Vals, list: Source, asName: string, hint: nat, body: Tpl,
                                    chain: seq<string>) returns (items: seq<Value>, outs: seq<Out>)
    requires chain != [] && SourceOk(list)
    ensures Render(rt, For(SourceText(list), asName, hint, body), vals, chain) == RowOf(outs)
    ensures Turns(rt, body, vals, asName, items, chain, outs)
    ensures match rt.asArray(SourceValue(rt, vals, list))
      case Some(found) => items == found
      case None =>
        && |items| == (if rt.streaming(chain[|chain| - 1]) then hint else 0)
        && forall i :: 0 <= i < |items| ==> items[i] == Undefined
  {
    SourceMeans(rt, vals, list);
    items := ForStep(rt, vals, SourceText(list), asName, hint, body, chain);
    outs := seq(|items|, i requires 0 <= i < |items| =>
                           Render(rt, body, TurnVals(vals, asName, items[i], rt.index(i)), chain));
    ItemsShow(rt, body, vals, asName, items, chain, outs, 0);
    assert outs[0..] == outs;
  }

  // ---------- components ----------

  /** What a template sees of its component: the props, and over them what the logic
      made. */
  ghost predicate Seen(props: map<string, Value>, made: map<string, Value>, seen: map<string, Value>) {
    forall k :: (k in seen <==> k in props || k in made)
             && (k in seen ==> seen[k] == if k in made then made[k] else props[k])
  }

  predicate Named(attrs: seq<Attr>, k: string) { exists i :: 0 <= i < |attrs| && attrs[i].key == k }

  /** No later attribute has the same name. */
  predicate IsLast(attrs: seq<Attr>, i: nat)
    requires i < |attrs|
  {
    forall j :: i < j < |attrs| ==> attrs[j].key != attrs[i].key
  }

  lemma {:induction false} PropNames(rt: Runtime, vals: Vals, attrs: seq<Attr>, k: string)
    ensures k in Props(rt, vals, attrs) <==> Named(attrs, k)
  {
    if attrs == [] {
    } else {
      var n := |attrs| - 1;
      PropNames(rt, vals, attrs[..n], k);
      if Named(attrs[..n], k) {
        var i :| 0 <= i < n && attrs[..n][i].key == k;
        assert attrs[i].key == k;
      }
      if i :| 0 <= i < n && attrs[i].key == k { assert attrs[..n][i].key == k; }
    }
  }

  /** Of two attributes with one name the later counts. */
  lemma {:induction false} PropLast(rt: Runtime, vals: Vals, attrs: seq<Attr>, i: nat)
    requires i < |attrs| && IsLast(attrs, i)
    ensures var props := Props(rt, vals, attrs);
      attrs[i].key in props && props[attrs[i].key] == Attribute(rt, vals, attrs[i].value)
    decreases |attrs|
  {
    var n := |attrs| - 1;
    var front := attrs[..n];
    if i == n {
    } else {
      assert attrs[n].key != attrs[i].key;
      assert front[i] == attrs[i];
      assert IsLast(front, i) by { assert forall j :: i < j < n ==> front[j] == attrs[j]; }
      PropLast(rt, vals, front, i);
    }
  }

  lemma {:induction false} EnterImport(rt: Runtime, vals: Vals, name: string, attrs: seq<Attr>, chain: seq<string>)
    requires chain != [] && name !in chain
    ensures var props := Props(rt, vals, attrs);
      Render(rt, Import(name, attrs), vals, chain) ==
        if name in rt.templates
        then Frame(name, Render(rt, rt.templates[name], Vals(props + rt.logic(name, props)), chain + [name]))
        else Missing(name)
  {
  }

  /** The props of an import are the values of its attributes. */
  ghost predicate PropsOf(rt: Runtime, vals: Vals, attrs: seq<Attr>, values: seq<Source>, props: map<string, Value>)
    requires |attrs| == |values|
  {
    && (forall k :: k in props <==> Named(attrs, k))
    && forall i :: 0 <= i < |attrs| && IsLast(attrs, i) ==>
        attrs[i].key in props && props[attrs[i].key] == SourceValue(rt, vals, values[i])
  }

  lemma {:induction false} PropsAre(rt: Runtime, vals: Vals, attrs: seq<Attr>, values: seq<Source>)
    requires |attrs| == |values|
    requires forall i :: 0 <= i < |values| ==> SourceOk(values[i]) && attrs[i].value == SourceText(values[i])
    ensures PropsOf(rt, vals, attrs, values, Props(rt, vals, attrs))
  {
    var props := Props(rt, vals, attrs);
    forall k ensures k in props <==> Named(attrs, k) { PropNames(rt, vals, attrs, k); }
    forall i | 0 <= i < |attrs| && IsLast(attrs, i)
      ensures attrs[i].key in props && props[attrs[i].key] == SourceValue(rt, vals, values[i])
    {
      PropLast(rt, vals, attrs, i);
      SourceMeans(rt, vals, values[i]);
    }
  }

  /** An import of a component that is not among its ancestors renders its template
      against its props, which are the values of its attributes, and over them what
      its logic makes of the props; one that does not exist is missing. */
  lemma {:induction false} ImportShows(rt: Runtime, vals: Vals, name: string, attrs: seq<Attr>,
                                       values: seq<Source>, chain: seq<string>)
    returns (props: map<string, Value>, seen: map<string, Value>)
    requires chain != [] && |attrs| == |values|
    requires forall i :: 0 <= i < |values| ==> SourceOk(values[i]) && attrs[i].value == SourceText(values[i])
    ensures PropsOf(rt, vals, attrs, values, props) && Seen(props, rt.logic(name, props), seen)
    ensures name !in chain ==>
      Render(rt, Import(name, attrs), vals, chain) ==
        if name in rt.templates then Frame(name, Render(rt, rt.templates[name], Vals(seen), chain + [name]))
        else Missing(name)
  {
    PropsAre(rt, vals, attrs, values);
    props := Props(rt, vals, attrs);
    seen := props + rt.logic(name, props);
    if name !in chain { EnterImport(rt, vals, name, attrs, chain); }
  }

  lemma {:induction false} FirstIndex(chain: seq<string>, name: string)
    requires name in chain
    ensures forall j :: 0 <= j < IndexOf(chain, name) ==> chain[j] != name
  {
    if chain[0] == name {
    } else {
      FirstIndex(chain[1..], name);
    }
  }

  lemma {:induction false} CycleShows(rt: Runtime, vals: Vals, name: string, attrs: seq<Attr>, chain: seq<string>,
                                      i: nat)
    requires i < |chain| && chain[i] == name && forall j :: 0 <= j < i ==> chain[j] != name
    ensures Render(rt, Import(name, attrs), vals, chain) == Circular(name, chain[i..] + [name])
  {
    FirstIndex(chain, name);
  }

  // ---------- the rest ----------

  /** Siblings stand in order, an element around its children, and the root's template
      is seen like that of any component. */
  lemma {:induction false} PageShows(rt: Runtime, vals: Vals, a: Tpl, b: Tpl, tag: string, chain: seq<string>,
                                     name: string, props: map<string, Value>) returns (seen: map<string, Value>)
    requires chain != []
    ensures Render(rt, Empty, vals, chain) == Nothing
    ensures Render(rt, Then(a, b), vals, chain) == Beside(Render(rt, a, vals, chain), Render(rt, b, vals, chain))
    ensures Render(rt, Element(tag, a), vals, chain) == Tag(tag, Render(rt, a, vals, chain))
    ensures Seen(props, rt.logic(name, props), seen)
    ensures RenderRoot(rt, name, props) ==
      if name in rt.templates then Frame(name, Render(rt, rt.templates[name], Vals(seen), [name])) else Missing(name)
  {
    seen := props + rt.logic(name, props);
  }
}
