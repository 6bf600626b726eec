/** Rendering a system of component templates that may import each other in
    cycles (compile.ts and the `render` of component.ts).  The chain of ancestor
    names stops it; the results say what the chain changes and what it does not. */
module Rendering {
  import opened JsText
  import opened Expr
  import opened ExprPrint
  import opened ExprRoundTrip
  import opened ExprScope
  import opened Interpolation

  // ---------- templates ----------

  datatype Attr = Attr(key: string, value: string)

  /** A list of sibling nodes is `Then(first, Then(second, ... Empty))`.  Names of
      imported components are literal; slot children are left out. */
  datatype Tpl =
    | Empty
    | Then(first: Tpl, rest: Tpl)
    | Text(text: string)
    | Element(tag: string, kids: Tpl)
    | For(list: string, asName: string, hint: nat, body: Tpl)
    | If(value: string, hintValue: Option<string>, body: Tpl)
    | Import(name: string, attrs: seq<Attr>)

  /** What rendering depends on from outside: the operations on values, the vals
      that a component's logic makes of its props, and the registry. */
  datatype Runtime = Runtime(
    w: World,
    toText: Value -> string,
    asArray: Value -> Option<seq<Value>>,
    index: nat -> Value,
    logic: (string, map<string, Value>) -> map<string, Value>,
    streaming: string -> bool,
    templates: map<string, Tpl>)

  datatype Out =
    | Nothing
    | Beside(first: Out, rest: Out)
    | Words(parts: seq<Value>)
    | Tag(tag: string, kids: Out)
    | Frame(name: string, body: Out)
    | Missing(name: string)
    | Circular(name: string, cycle: seq<string>)

  // ---------- what nodes evaluate ----------

  ghost function Attribute(rt: Runtime, vals: Vals, raw: string): Value {
    AttrValue(rt.w, rt.toText, vals, raw)
  }

  ghost function TextParts(rt: Runtime, vals: Vals, parts: seq<string>): seq<Value>
    requires |parts| % 2 == 1
  {
    if |parts| == 1 then [Str(parts[0])]
    else [Str(parts[0]), Resolve(rt.w, vals, parts[1])] + TextParts(rt, vals, parts[2..])
  }

  /** The list a loop runs over; placeholders stand in while the template streams. */
  ghost function LoopItems(rt: Runtime, vals: Vals, list: string, hint: nat, owner: string): seq<Value> {
    var v := rt.asArray(Attribute(rt, vals, list));
    if v.Some? then v.value
    else if rt.streaming(owner) then seq(hint, _ => Undefined)
    else []
  }

  ghost predicate Shows(rt: Runtime, vals: Vals, value: string, hintValue: Option<string>, owner: string) {
    var v := Attribute(rt, vals, value);
    rt.w.truthy(if v == Undefined && hintValue.Some? && rt.streaming(owner)
                then Attribute(rt, vals, hintValue.value) else v)
  }

  ghost function Props(rt: Runtime, vals: Vals, attrs: seq<Attr>): map<string, Value> {
    if attrs == [] then map[]
    else
      var n := |attrs| - 1;
      Props(rt, vals, attrs[..n])[attrs[n].key := Attribute(rt, vals, attrs[n].value)]
  }

  /** The object a component's template is rendered against. */
  ghost function ComponentVals(rt: Runtime, name: string, props: map<string, Value>): Vals {
    Vals(props + rt.logic(name, props))
  }

  // ---------- rendering ----------

  function Names(chain: seq<string>): set<string> { set n | n in chain }

  /** The components that can still be entered below a chain. */
  function Left(rt: Runtime, chain: seq<string>): set<string> { rt.templates.Keys - Names(chain) }

  function IndexOf(chain: seq<string>, name: string): (i: nat)
    requires name in chain
    ensures i < |chain| && chain[i] == name
  {
    if chain[0] == name then 0 else 1 + IndexOf(chain[1..], name)
  }

  /** The cycle that is reported: the chain from the first occurrence on. */
  function Cycle(chain: seq<string>, name: string): seq<string>
    requires name in chain
  {
    chain[IndexOf(chain, name)..] + [name]
  }

  lemma Enter(rt: Runtime, chain: seq<string>, name: string)
    requires name in rt.templates && name !in chain
    ensures Left(rt, chain + [name]) < Left(rt, chain)
  {
    assert name in Left(rt, chain) && name !in Left(rt, chain + [name]);
  }

  /** One template, rendered inside the components of `chain`, the innermost last. */
  ghost function Render(rt: Runtime, t: Tpl, vals: Vals, chain: seq<string>): Out
    requires chain != []
    decreases Left(rt, chain), t, 0
  {
    match t
    case Empty => Nothing
    case Then(a, b) => Beside(Render(rt, a, vals, chain), Render(rt, b, vals, chain))
    case Text(s) => Words(TextParts(rt, vals, SplitHoles(s)))
    case Element(tag, kids) => Tag(tag, Render(rt, kids, vals, chain))
    case For(list, asName, hint, body) =>
      RenderItems(rt, body, vals, asName, LoopItems(rt, vals, list, hint, chain[|chain| - 1]), 0, chain)
    case If(value, hintValue, body) =>
      if Shows(rt, vals, value, hintValue, chain[|chain| - 1]) then Render(rt, body, vals, chain) else Nothing
    case Import(name, attrs) =>
      if name in chain then Circular(name, Cycle(chain, name))
      else if name !in rt.templates then Missing(name)
      else
        Enter(rt, chain, name);
        Frame(name, Render(rt, rt.templates[name], ComponentVals(rt, name, Props(rt, vals, attrs)), chain + [name]))
  }

  ghost function RenderItems(rt: Runtime, body: Tpl, vals: Vals, asName: string, items: seq<Value>, k: nat,
                             chain: seq<string>): Out
    requires chain != [] && k <= |items|
    decreases Left(rt, chain), body, 1 + |items| - k
  {
    if k == |items| then Nothing
    else Beside(Render(rt, body, LoopScope(vals, asName, items[k], rt.index(k)), chain),
              RenderItems(rt, body, vals, asName, items, k + 1, chain))
  }

  /** A whole page: the root component. */
  ghost function RenderRoot(rt: Runtime, name: string, props: map<string, Value>): Out {
    if name !in rt.templates then Missing(name)
    else Frame(name, Render(rt, rt.templates[name], ComponentVals(rt, name, props), [name]))
  }

  // ---------- text nodes ----------

  /** What a text written from literals and trees shows. */
  ghost function PieceParts(rt: Runtime, vals: Vals, pieces: seq<Piece>, last: string): seq<Value> {
    if pieces == [] then [Str(last)]
    else [Str(pieces[0].literal), Denote(rt.w, vals, pieces[0].hole)] + PieceParts(rt, vals, pieces[1..], last)
  }

  lemma {:induction false} TextPieces(rt: Runtime, vals: Vals, pieces: seq<Piece>, last: string)
    requires PiecesOk(pieces)
    ensures TextParts(rt, vals, PieceTexts(pieces, last)) == PieceParts(rt, vals, pieces, last)
  {
    if pieces == [] {
    } else {
      var parts := PieceTexts(pieces, last);
      assert parts[2..] == PieceTexts(pieces[1..], last);
      TextPieces(rt, vals, pieces[1..], last);
      assert PieceOk(pieces[0]);
      RoundTrip(rt.w, vals, pieces[0].before, pieces[0].hole, pieces[0].after);
    }
  }

  /** A text node written from literals and trees shows the literals and the trees'
      values in turn, wherever it stands. */
  lemma {:induction false} TextShowsPieces(rt: Runtime, vals: Vals, pieces: seq<Piece>, last: string,
                                           chain: seq<string>)
    requires chain != [] && PiecesOk(pieces) && Canonical(PieceTexts(pieces, last))
    ensures Render(rt, Tpl.Text(Glue(PieceTexts(pieces, last))), vals, chain)
            == Words(PieceParts(rt, vals, pieces, last))
  {
    SplitOfGlue(PieceTexts(pieces, last));
    TextPieces(rt, vals, pieces, last);
  }

  // ---------- naive expansion ----------

  /** The same without a chain: components are entered without end.  `fuel` bounds
      how deep, and `None` says that it did not suffice. */
  ghost function Expand(rt: Runtime, fuel: nat, t: Tpl, vals: Vals, owner: string): Option<Out>
    decreases fuel, t, 0
  {
    match t
    case Empty => Some(Nothing)
    case Then(a, b) => Pair(Expand(rt, fuel, a, vals, owner), Expand(rt, fuel, b, vals, owner))
    case Text(s) => Some(Words(TextParts(rt, vals, SplitHoles(s))))
    case Element(tag, kids) =>
      var k := Expand(rt, fuel, kids, vals, owner);
      if k.None? then None else Some(Tag(tag, k.value))
    case For(list, asName, hint, body) =>
      ExpandItems(rt, fuel, body, vals, asName, LoopItems(rt, vals, list, hint, owner), 0, owner)
    case If(value, hintValue, body) =>
      if Shows(rt, vals, value, hintValue, owner) then Expand(rt, fuel, body, vals, owner) else Some(Nothing)
    case Import(name, attrs) =>
      if name !in rt.templates then Some(Missing(name))
      else if fuel == 0 then None
      else
        var b := Expand(rt, fuel - 1, rt.templates[name], ComponentVals(rt, name, Props(rt, vals, attrs)), name);
        if b.None? then None else Some(Frame(name, b.value))
  }

  function Pair(a: Option<Out>, b: Option<Out>): Option<Out> {
    if a.None? || b.None? then None else Some(Beside(a.value, b.value))
  }

  ghost function ExpandItems(rt: Runtime, fuel: nat, body: Tpl, vals: Vals, asName: string, items: seq<Value>, k: nat,
                             owner: string): Option<Out>
    requires k <= |items|
    decreases fuel, body, 1 + |items| - k
  {
    if k == |items| then Some(Nothing)
    else Pair(Expand(rt, fuel, body, LoopScope(vals, asName, items[k], rt.index(k)), owner),
              ExpandItems(rt, fuel, body, vals, asName, items, k + 1, owner))
  }

  ghost function ExpandRoot(rt: Runtime, fuel: nat, name: string, props: map<string, Value>): Option<Out> {
    if name !in rt.templates then Some(Missing(name))
    else
      var b := Expand(rt, fuel, rt.templates[name], ComponentVals(rt, name, props), name);
      if b.None? then None else Some(Frame(name, b.value))
  }

  predicate NoCircular(o: Out) {
    match o
    case Beside(a, b) => NoCircular(a) && NoCircular(b)
    case Tag(_, k) => NoCircular(k)
    case Frame(_, b) => NoCircular(b)
    case Circular(_, _) => false
    case _ => true
  }

  /** More fuel changes nothing once it suffices. */
  lemma {:induction false} MoreFuel(rt: Runtime, fuel: nat, more: nat, t: Tpl, vals: Vals, owner: string)
    requires fuel <= more && Expand(rt, fuel, t, vals, owner).Some?
    ensures Expand(rt, more, t, vals, owner) == Expand(rt, fuel, t, vals, owner)
    decreases fuel, t, 0
  {
    match t
    case Then(a, b) => MoreFuel(rt, fuel, more, a, vals, owner); MoreFuel(rt, fuel, more, b, vals, owner);
    case Element(_, kids) => MoreFuel(rt, fuel, more, kids, vals, owner);
    case For(list, asName, hint, body) =>
      MoreFuelItems(rt, fuel, more, body, vals, asName, LoopItems(rt, vals, list, hint, owner), 0, owner);
    case If(value, hintValue, body) =>
      if Shows(rt, vals, value, hintValue, owner) { MoreFuel(rt, fuel, more, body, vals, owner); }
    case Import(name, attrs) =>
      if name in rt.templates {
        MoreFuel(rt, fuel - 1, more - 1, rt.templates[name],
                 ComponentVals(rt, name, Props(rt, vals, attrs)), name);
      }
    case _ =>
  }

  lemma {:induction false} MoreFuelItems(rt: Runtime, fuel: nat, more: nat, body: Tpl, vals: Vals, asName: string,
                                         items: seq<Value>, k: nat, owner: string)
    requires fuel <= more && k <= |items| && ExpandItems(rt, fuel, body, vals, asName, items, k, owner).Some?
    ensures ExpandItems(rt, more, body, vals, asName, items, k, owner)
            == ExpandItems(rt, fuel, body, vals, asName, items, k, owner)
    decreases fuel, body, 1 + |items| - k
  {
    if k == |items| {
    } else {
      MoreFuel(rt, fuel, more, body, LoopScope(vals, asName, items[k], rt.index(k)), owner);
      MoreFuelItems(rt, fuel, more, body, vals, asName, items, k + 1, owner);
    }
  }

  // ---------- rendering against expansion ----------

  /** Where no cycle is reported, rendering is expansion, and as much fuel as
      there are components left suffices. */
  lemma {:induction false} RenderExpands(rt: Runtime, t: Tpl, vals: Vals, chain: seq<string>)
    requires chain != [] && NoCircular(Render(rt, t, vals, chain))
    ensures Expand(rt, |Left(rt, chain)|, t, vals, chain[|chain| - 1]) == Some(Render(rt, t, vals, chain))
    decreases Left(rt, chain), t, 1
  {
    var owner := chain[|chain| - 1];
    match t
    case Then(a, b) => RenderExpands(rt, a, vals, chain); RenderExpands(rt, b, vals, chain);
    case Element(_, kids) => RenderExpands(rt, kids, vals, chain);
    case For(list, asName, hint, body) =>
      RenderItemsExpands(rt, body, vals, asName, LoopItems(rt, vals, list, hint, owner), 0, chain);
    case If(value, hintValue, body) =>
      if Shows(rt, vals, value, hintValue, owner) { RenderExpands(rt, body, vals, chain); }
    case Import(_, _) => RenderImportExpands(rt, t, vals, chain);
    case _ =>
  }

  lemma {:induction false} RenderImportExpands(rt: Runtime, t: Tpl, vals: Vals, chain: seq<string>)
    requires chain != [] && t.Import? && NoCircular(Render(rt, t, vals, chain))
    ensures Expand(rt, |Left(rt, chain)|, t, vals, chain[|chain| - 1]) == Some(Render(rt, t, vals, chain))
    decreases Left(rt, chain), t, 0
  {
    var name := t.name;
    if name in rt.templates {
      var inner := ComponentVals(rt, name, Props(rt, vals, t.attrs));
      var chain' := chain + [name];
      Enter(rt, chain, name);
      assert chain'[|chain'| - 1] == name;
      RenderExpands(rt, rt.templates[name], inner, chain');
      Smaller(Left(rt, chain'), Left(rt, chain));
      MoreFuel(rt, |Left(rt, chain')|, |Left(rt, chain)| - 1, rt.templates[name], inner, name);
    }
  }

  lemma {:induction false} RenderItemsExpands(rt: Runtime, body: Tpl, vals: Vals, asName: string, items: seq<Value>,
                                              k: nat, chain: seq<string>)
    requires chain != [] && k <= |items| && NoCircular(RenderItems(rt, body, vals, asName, items, k, chain))
    ensures ExpandItems(rt, |Left(rt, chain)|, body, vals, asName, items, k, chain[|chain| - 1])
            == Some(RenderItems(rt, body, vals, asName, items, k, chain))
    decreases Left(rt, chain), body, 2 + |items| - k
  {
    if k == |items| {
    } else {
      RenderExpands(rt, body, LoopScope(vals, asName, items[k], rt.index(k)), chain);
      RenderItemsExpands(rt, body, vals, asName, items, k + 1, chain);
    }
  }

  lemma Smaller(a: set<string>, b: set<string>)
    requires a < b
    ensures |a| < |b|
  {
    assert b == a + (b - a);
    assert b - a != {};
  }

  // ---------- the chain ----------

  function Imports(t: Tpl): set<string> {
    match t
    case Then(a, b) => Imports(a) + Imports(b)
    case Element(_, kids) => Imports(kids)
    case For(_, _, _, body) => Imports(body)
    case If(_, _, body) => Imports(body)
    case Import(name, _) => {name}
    case _ => {}
  }

  predicate Distinct(chain: seq<string>) {
    forall i, j :: 0 <= i < j < |chain| ==> chain[i] != chain[j]
  }

  /** Each name's template imports the next name. */
  ghost predicate ImportPath(rt: Runtime, path: seq<string>) {
    forall i :: 0 <= i < |path| - 1 ==> path[i] in rt.templates && path[i + 1] in Imports(rt.templates[path[i]])
  }

  /** A report is right: it is an import cycle through components without repetition. */
  ghost predicate TrueCycle(rt: Runtime, name: string, cycle: seq<string>) {
    && |cycle| >= 2 && cycle[0] == name && cycle[|cycle| - 1] == name
    && ImportPath(rt, cycle) && Distinct(cycle[1..])
  }

  /** Inside the components of `chain`, no component is entered twice, no more are
      nested than there are, and every cycle reported is one. */
  ghost predicate Sound(rt: Runtime, o: Out, chain: seq<string>)
    decreases o
  {
    match o
    case Beside(a, b) => Sound(rt, a, chain) && Sound(rt, b, chain)
    case Tag(_, k) => Sound(rt, k, chain)
    case Frame(name, b) => name in rt.templates && name !in chain && Sound(rt, b, chain + [name])
    case Missing(name) => name !in rt.templates
    case Circular(name, cycle) => name in chain && TrueCycle(rt, name, cycle)
    case _ => true
  }

  /** A chain that rendering can be in: distinct components, each importing the next. */
  ghost predicate Reached(rt: Runtime, t: Tpl, chain: seq<string>) {
    && chain != [] && Distinct(chain) && Names(chain) <= rt.templates.Keys && ImportPath(rt, chain)
    && Imports(t) <= Imports(rt.templates[chain[|chain| - 1]])
  }

  lemma CycleIsTrue(rt: Runtime, t: Tpl, chain: seq<string>, name: string)
    requires Reached(rt, t, chain) && name in Imports(t) && name in chain
    ensures TrueCycle(rt, name, Cycle(chain, name))
  {
    var i := IndexOf(chain, name);
    var c := Cycle(chain, name);
    forall k | 0 <= k < |c| - 1
      ensures c[k] in rt.templates && c[k + 1] in Imports(rt.templates[c[k]])
    {
      assert c[k] == chain[i + k] && chain[i + k] in Names(chain);
      if k < |c| - 2 { assert c[k + 1] == chain[i + k + 1]; }
    }
    assert forall k :: 0 <= k < |c| - 2 ==> c[1..][k] == chain[i + 1 + k];
    assert c[1..][|c| - 2] == name == chain[i];
  }

  lemma ReachedEnter(rt: Runtime, t: Tpl, chain: seq<string>, name: string)
    requires Reached(rt, t, chain) && name in Imports(t) && name !in chain && name in rt.templates
    ensures Reached(rt, rt.templates[name], chain + [name])
  {
    var c := chain + [name];
    forall k | 0 <= k < |c| - 1
      ensures c[k] in rt.templates && c[k + 1] in Imports(rt.templates[c[k]])
    {
      assert c[k] in Names(chain);
    }
  }

  lemma {:induction false} RenderSound(rt: Runtime, t: Tpl, vals: Vals, chain: seq<string>)
    requires Reached(rt, t, chain)
    ensures Sound(rt, Render(rt, t, vals, chain), chain)
    decreases Left(rt, chain), t, 0
  {
    var owner := chain[|chain| - 1];
    match t
    case Then(a, b) => RenderSound(rt, a, vals, chain); RenderSound(rt, b, vals, chain);
    case Element(_, kids) => RenderSound(rt, kids, vals, chain);
    case For(list, asName, hint, body) =>
      RenderItemsSound(rt, body, vals, asName, LoopItems(rt, vals, list, hint, owner), 0, chain);
    case If(value, hintValue, body) =>
      if Shows(rt, vals, value, hintValue, owner) { RenderSound(rt, body, vals, chain); }
    case Import(name, attrs) =>
      assert name in Imports(t);
      if name in chain {
        CycleIsTrue(rt, t, chain, name);
      } else if name in rt.templates {
        Enter(rt, chain, name);
        ReachedEnter(rt, t, chain, name);
        RenderSound(rt, rt.templates[name], ComponentVals(rt, name, Props(rt, vals, attrs)), chain + [name]);
      }
    case _ =>
  }

  lemma {:induction false} RenderItemsSound(rt: Runtime, body: Tpl, vals: Vals, asName: string, items: seq<Value>,
                                            k: nat, chain: seq<string>)
    requires k <= |items| && Reached(rt, body, chain)
    ensures Sound(rt, RenderItems(rt, body, vals, asName, items, k, chain), chain)
    decreases Left(rt, chain), body, 1 + |items| - k
  {
    if k == |items| {
    } else {
      RenderSound(rt, body, LoopScope(vals, asName, items[k], rt.index(k)), chain);
      RenderItemsSound(rt, body, vals, asName, items, k + 1, chain);
    }
  }

  /** How many components are nested in one another. */
  function Nesting(o: Out): nat {
    match o
    case Beside(a, b) => if Nesting(a) < Nesting(b) then Nesting(b) else Nesting(a)
    case Tag(_, k) => Nesting(k)
    case Frame(_, b) => 1 + Nesting(b)
    case _ => 0
  }

  lemma {:induction false} NestingBound(rt: Runtime, o: Out, chain: seq<string>)
    requires Sound(rt, o, chain)
    ensures Nesting(o) <= |Left(rt, chain)|
    decreases o
  {
    match o
    case Beside(a, b) => NestingBound(rt, a, chain); NestingBound(rt, b, chain);
    case Tag(_, k) => NestingBound(rt, k, chain);
    case Frame(name, b) =>
      NestingBound(rt, b, chain + [name]);
      Enter(rt, chain, name);
      Smaller(Left(rt, chain + [name]), Left(rt, chain));
    case _ =>
  }

  /** Every page of every system, cyclic or not, is rendered (it terminates), with
      no component inside itself, at most as many nested as there are, and only
      true import cycles reported. */
  lemma PageSound(rt: Runtime, name: string, props: map<string, Value>)
    ensures Sound(rt, RenderRoot(rt, name, props), []) && Nesting(RenderRoot(rt, name, props)) <= |rt.templates|
  {
    if name in rt.templates {
      assert Reached(rt, rt.templates[name], [name]);
      RenderSound(rt, rt.templates[name], ComponentVals(rt, name, props), [name]);
      assert [] + [name] == [name];
    }
    NestingBound(rt, RenderRoot(rt, name, props), []);
    assert Left(rt, []) == rt.templates.Keys;
  }

  // ---------- when a page is its expansion ----------

  /** No component stands inside itself, `above` being the ones around. */
  predicate Once(o: Out, above: seq<string>) {
    match o
    case Beside(a, b) => Once(a, above) && Once(b, above)
    case Tag(_, k) => Once(k, above)
    case Frame(name, b) => name !in above && Once(b, above + [name])
    case _ => true
  }

  lemma {:induction false} SoundOnce(rt: Runtime, o: Out, chain: seq<string>)
    requires Sound(rt, o, chain)
    ensures Once(o, chain)
  {
    match o
    case Beside(a, b) => SoundOnce(rt, a, chain); SoundOnce(rt, b, chain);
    case Tag(_, k) => SoundOnce(rt, k, chain);
    case Frame(name, b) => SoundOnce(rt, b, chain + [name]);
    case _ =>
  }

  /** An expansion in which no component stands inside itself is what is rendered. */
  lemma {:induction false} OnceRenders(rt: Runtime, fuel: nat, t: Tpl, vals: Vals, chain: seq<string>)
    requires chain != [] && Names(chain) <= rt.templates.Keys
    requires Expand(rt, fuel, t, vals, chain[|chain| - 1]).Some?
    requires Once(Expand(rt, fuel, t, vals, chain[|chain| - 1]).value, chain)
    ensures Render(rt, t, vals, chain) == Expand(rt, fuel, t, vals, chain[|chain| - 1]).value
    decreases fuel, t, 0
  {
    var owner := chain[|chain| - 1];
    match t
    case Then(a, b) => OnceRenders(rt, fuel, a, vals, chain); OnceRenders(rt, fuel, b, vals, chain);
    case Element(_, kids) => OnceRenders(rt, fuel, kids, vals, chain);
    case For(list, asName, hint, body) =>
      OnceRendersItems(rt, fuel, body, vals, asName, LoopItems(rt, vals, list, hint, owner), 0, chain);
    case If(value, hintValue, body) =>
      if Shows(rt, vals, value, hintValue, owner) { OnceRenders(rt, fuel, body, vals, chain); }
    case Import(name, attrs) =>
      if name in rt.templates {
        var chain' := chain + [name];
        assert chain'[|chain'| - 1] == name;
        assert name !in chain;
        OnceRenders(rt, fuel - 1, rt.templates[name], ComponentVals(rt, name, Props(rt, vals, attrs)), chain');
      } else {
        assert name !in Names(chain);
      }
    case _ =>
  }

  lemma {:induction false} OnceRendersItems(rt: Runtime, fuel: nat, body: Tpl, vals: Vals, asName: string,
                                            items: seq<Value>, k: nat, chain: seq<string>)
    requires chain != [] && Names(chain) <= rt.templates.Keys && k <= |items|
    requires ExpandItems(rt, fuel, body, vals, asName, items, k, chain[|chain| - 1]).Some?
    requires Once(ExpandItems(rt, fuel, body, vals, asName, items, k, chain[|chain| - 1]).value, chain)
    ensures RenderItems(rt, body, vals, asName, items, k, chain)
            == ExpandItems(rt, fuel, body, vals, asName, items, k, chain[|chain| - 1]).value
    decreases fuel, body, 1 + |items| - k
  {
    if k == |items| {
    } else {
      OnceRenders(rt, fuel, body, LoopScope(vals, asName, items[k], rt.index(k)), chain);
      OnceRendersItems(rt, fuel, body, vals, asName, items, k + 1, chain);
    }
  }

  /** A page that expands at all is rendered as its expansion exactly when, in the
      expansion, no component stands inside itself. */
  lemma RenderIsExpansionIff(rt: Runtime, name: string, props: map<string, Value>, fuel: nat)
    requires ExpandRoot(rt, fuel, name, props).Some?
    ensures RenderRoot(rt, name, props) == ExpandRoot(rt, fuel, name, props).value
            <==> Once(ExpandRoot(rt, fuel, name, props).value, [])
  {
    PageSound(rt, name, props);
    SoundOnce(rt, RenderRoot(rt, name, props), []);
    if name in rt.templates && Once(ExpandRoot(rt, fuel, name, props).value, []) {
      assert [] + [name] == [name];
      OnceRenders(rt, fuel, rt.templates[name], ComponentVals(rt, name, props), [name]);
    }
  }

  /** No component imports itself, directly or through others. */
  ghost predicate Acyclic(rt: Runtime) { forall n, cycle :: !TrueCycle(rt, n, cycle) }

  lemma {:induction false} AcyclicNoCircular(rt: Runtime, o: Out, chain: seq<string>)
    requires Acyclic(rt) && Sound(rt, o, chain)
    ensures NoCircular(o)
  {
    match o
    case Beside(a, b) => AcyclicNoCircular(rt, a, chain); AcyclicNoCircular(rt, b, chain);
    case Tag(_, k) => AcyclicNoCircular(rt, k, chain);
    case Frame(name, b) => AcyclicNoCircular(rt, b, chain + [name]);
    case _ =>
  }

  /** Without import cycles every page is rendered as its naive expansion, which
      exists, whatever the data. */
  lemma AcyclicIsExpansion(rt: Runtime, name: string, props: map<string, Value>)
    requires Acyclic(rt)
    ensures NoCircular(RenderRoot(rt, name, props))
    ensures ExpandRoot(rt, |rt.templates|, name, props) == Some(RenderRoot(rt, name, props))
  {
    PageSound(rt, name, props);
    AcyclicNoCircular(rt, RenderRoot(rt, name, props), []);
    if name in rt.templates {
      var t, vals := rt.templates[name], ComponentVals(rt, name, props);
      RenderExpands(rt, t, vals, [name]);
      assert Left(rt, [name]) < rt.templates.Keys by {
        assert name in rt.templates.Keys && name !in Left(rt, [name]);
      }
      Smaller(Left(rt, [name]), rt.templates.Keys);
      MoreFuel(rt, |Left(rt, [name])|, |rt.templates|, t, vals, name);
    }
  }

  lemma {:induction false} DataRecursionExpands(rt: Runtime, n: string, value: string, attrs: seq<Attr>,
                                                props: map<string, Value>)
    requires n in rt.templates && rt.templates[n] == If(value, None, Import(n, attrs))
    requires var outer := ComponentVals(rt, n, props);
      Shows(rt, outer, value, None, n) && !Shows(rt, ComponentVals(rt, n, Props(rt, outer, attrs)), value, None, n)
    ensures ExpandRoot(rt, 1, n, props) == Some(Frame(n, Frame(n, Nothing)))
  {
    var t, outer := rt.templates[n], ComponentVals(rt, n, props);
    var inner := ComponentVals(rt, n, Props(rt, outer, attrs));
    assert Expand(rt, 0, t, inner, n) == Some(Nothing);
    assert Expand(rt, 1, t.body, outer, n) == Some(Frame(n, Nothing));
  }

  lemma {:induction false} SelfImportReports(rt: Runtime, n: string, attrs: seq<Attr>, vals: Vals)
    ensures Render(rt, Import(n, attrs), vals, [n]) == Circular(n, [n, n])
  {
    assert [n][0..] == [n];
  }

  /** Recursion that the data would end is cut all the same: a component that
      imports itself under a condition, which holds once and then no more, has a
      finite expansion, but the page reports a cycle. */
  lemma {:induction false} DataRecursionCut(rt: Runtime, n: string, value: string, attrs: seq<Attr>,
                                            props: map<string, Value>)
    requires n in rt.templates && rt.templates[n] == If(value, None, Import(n, attrs))
    requires var outer := ComponentVals(rt, n, props);
      Shows(rt, outer, value, None, n) && !Shows(rt, ComponentVals(rt, n, Props(rt, outer, attrs)), value, None, n)
    ensures ExpandRoot(rt, 1, n, props) == Some(Frame(n, Frame(n, Nothing)))
    ensures RenderRoot(rt, n, props) == Frame(n, Circular(n, [n, n]))
  {
    DataRecursionExpands(rt, n, value, attrs, props);
    SelfImportReports(rt, n, attrs, ComponentVals(rt, n, props));
  }
}
