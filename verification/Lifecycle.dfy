/** The life of one component (component.ts) as a state machine.  Renders may swap
    the author's logic instance; `Allowed` says which orders of steps React keeps to. */
module Lifecycle {
  import opened JsText

  // ---------- props and their comparison ----------

  /** A prop value, as `===` sees it: NaN is unequal to itself. */
  datatype Prop = Undef | NaN | Val(id: int)

  type Props = map<string, Prop>

  predicate Identical(a: Prop, b: Prop) { a == b && a != NaN }

  /** What every object inherits under a name: the members of `Object.prototype`,
      `undefined` for all other names. */
  type Inherited = string -> Prop

  /** A lookup in a plain object. */
  function PropOf(inherited: Inherited, p: Props, k: string): Prop { if k in p then p[k] else inherited(k) }

  /** The keys that the comparison looks at. */
  function Visible(p: Props): set<string> { p.Keys - {"children"} }

  /** As many visible keys, and every one of the first reads the same in the second. */
  ghost predicate ShallowEqual(inherited: Inherited, a: Props, b: Option<Props>) {
    && b.Some?
    && |Visible(a)| == |Visible(b.value)|
    && forall k :: k in Visible(a) ==> Identical(a[k], PropOf(inherited, b.value, k))
  }

  method CompareShallow(inherited: Inherited, a: Props, b: Option<Props>) returns (r: bool)
    ensures r == ShallowEqual(inherited, a, b)
    ensures r <==>
      && b.Some? && |a.Keys - {"children"}| == |b.value.Keys - {"children"}|
      && forall k :: k in a && k != "children" ==>
        a[k] != NaN && a[k] == if k in b.value then b.value[k] else inherited(k)
  {
    if b.None? { return false; }
    var ak := Visible(a);
    if |ak| != |Visible(b.value)| { return false; }
    var rest := ak;
    while rest != {}
      invariant rest <= ak && forall k :: k in ak - rest ==> Identical(a[k], PropOf(inherited, b.value, k))
    {
      var k :| k in rest;
      if !Identical(a[k], PropOf(inherited, b.value, k)) { return false; }
      rest := rest - {k};
    }
    return true;
  }

  lemma SubsetOfSameSize(a: set<string>, b: set<string>)
    requires a <= b && |a| == |b|
    ensures a == b
  {
    assert b == a + (b - a);
    assert |b| == |a| + |b - a|;
  }

  /** Props compare equal to themselves exactly when none of them is NaN. */
  lemma ShallowReflexive(inherited: Inherited, p: Props)
    ensures ShallowEqual(inherited, p, Some(p)) <==> forall k :: k in Visible(p) ==> p[k] != NaN
  {
  }

  /** The same props, children aside. */
  ghost predicate SameVisible(a: Props, b: Props) {
    Visible(a) == Visible(b) && forall k :: k in Visible(a) ==> a[k] == b[k]
  }

  /** Neither NaN nor what an object without the prop would show in its place. */
  predicate Plain(inherited: Inherited, k: string, v: Prop) { v != NaN && v != inherited(k) }

  lemma ShallowPlain(inherited: Inherited, a: Props, b: Props)
    requires forall k :: k in Visible(a) ==> Plain(inherited, k, a[k])
    ensures ShallowEqual(inherited, a, Some(b)) <==> SameVisible(a, b)
  {
    if ShallowEqual(inherited, a, Some(b)) {
      assert Visible(a) <= Visible(b);
      SubsetOfSameSize(Visible(a), Visible(b));
    }
  }

  /** A longer text than any of the set. */
  lemma {:induction false} LongerThanAll(keys: set<string>) returns (f: string)
    ensures forall k :: k in keys ==> |k| < |f|
  {
    if keys == {} {
      f := "";
    } else {
      var k :| k in keys;
      var g := LongerThanAll(keys - {k});
      f := g + k + "+";
    }
  }

  /** Props with an inherited value pass for those in which it was renamed. */
  lemma RenamedPasses(inherited: Inherited, a: Props, k: string) returns (b: Props)
    requires k in Visible(a) && a[k] == inherited(k) && forall j :: j in Visible(a) ==> a[j] != NaN
    ensures ShallowEqual(inherited, a, Some(b)) && !SameVisible(a, b)
  {
    var f := LongerThanAll(a.Keys + {"children"});
    b := (a - {k})[f := Val(1)];
    assert f !in a.Keys + {"children"};
    assert Visible(b) == (Visible(a) - {k}) + {f};
    assert |Visible(b)| == |Visible(a) - {k}| + 1 == |Visible(a)|;
    assert f in Visible(b) && f !in Visible(a);
  }

  /** The comparison tells, against every other props, whether they are the same,
      exactly when the props it starts from hold neither NaN nor, under any name,
      what every object inherits under it. */
  lemma ShallowExactIff(inherited: Inherited, a: Props)
    ensures (forall b: Props :: ShallowEqual(inherited, a, Some(b)) <==> SameVisible(a, b))
            <==> forall k :: k in Visible(a) ==> Plain(inherited, k, a[k])
  {
    if forall k :: k in Visible(a) ==> Plain(inherited, k, a[k]) {
      forall b: Props { ShallowPlain(inherited, a, b); }
    } else if k :| k in Visible(a) && a[k] == NaN {
      assert !ShallowEqual(inherited, a, Some(a)) && SameVisible(a, a);
    } else {
      var k :| k in Visible(a) && a[k] == inherited(k);
      var b := RenamedPasses(inherited, a, k);
    }
  }

  /** One prop that holds what is inherited under its name passes for one that was
      there under another name. */
  lemma InheritedPasses(inherited: Inherited, name: string, other: string, v: Prop)
    requires name != other && name != "children" && other != "children" && inherited(name) != NaN
    ensures ShallowEqual(inherited, map[name := inherited(name)], Some(map[other := v]))
    ensures !SameVisible(map[name := inherited(name)], map[other := v])
  {
    var now: Props := map[name := inherited(name)];
    var before: Props := map[other := v];
    assert Visible(now) == {name} && Visible(before) == {other};
    assert name !in Visible(before);
  }

  /** So a prop renamed to one that is now `undefined` goes unnoticed; renamed back
      it would be seen. */
  lemma ShallowMissesRename(inherited: Inherited)
    requires inherited("x") == Undef && inherited("y") == Undef
    ensures var now: Props := map["x" := Undef]; var before: Props := map["y" := Val(1)];
      ShallowEqual(inherited, now, Some(before)) && !ShallowEqual(inherited, before, Some(now))
  {
    var now: Props := map["x" := Undef];
    var before: Props := map["y" := Val(1)];
    InheritedPasses(inherited, "x", "y", Val(1));
    assert Visible(before) == {"y"};
    assert "y" in Visible(before);
  }

  /** And a prop named `constructor` that holds `Object` passes for any single other. */
  lemma ShallowMissesConstructor(inherited: Inherited, obj: int, title: Prop)
    requires inherited("constructor") == Val(obj)
    ensures var now: Props := map["constructor" := Val(obj)]; var before: Props := map["title" := title];
      ShallowEqual(inherited, now, Some(before)) && !SameVisible(now, before)
  {
    InheritedPasses(inherited, "constructor", "title", title);
  }

  // ---------- the state ----------

  datatype Class = Base | User(id: nat)

  /** What the registry, the parent and the page hand to the component at one moment. */
  datatype Env = Env(logic: Option<Class>, ver: int, hasTpl: bool, circular: bool, props: Props, inherited: Inherited)

  /** How `new L(props)` ends: with an initial state, or with an exception. */
  datatype Built = Made(initial: map<string, int>) | Threw(e: Exception)

  /** The calls the component makes on a logic instance. */
  datatype Hook = DidMount(inst: nat) | DidUpdate(inst: nat) | WillUnmount(inst: nat)

  datatype Phase = Constructed | Mounted | Unmounted

  /** `jammed`: the current instance was unmounted to be replaced, but nothing has
      replaced it. */
  datatype Comp = Comp(
    inst: nat, cls: Class, state: map<string, int>,
    needsDidMount: bool, jammed: bool,
    failedLogic: Option<Class>, failedProps: Option<Props>, failedVer: int, ctorError: bool,
    err: bool, phase: Phase,
    made: nat, log: seq<Hook>)

  /** A previous state wins over the new instance's own. */
  function Adopt(initial: map<string, int>, prev: Option<map<string, int>>): map<string, int> {
    if prev.Some? then initial + prev.value else initial
  }

  function ClassOf(env: Env): Class { if env.logic.Some? then env.logic.value else Base }

  /** The constructor throws what has no text, so that the code which catches it
      throws too.  The base class never throws. */
  predicate Jams(env: Env, built: Built) { ClassOf(env) != Base && built == Threw(Textless) }

  /** `__makeLogic`. */
  function MakeLogic(c: Comp, env: Env, built: Built, prev: Option<map<string, int>>): Comp {
    var L := ClassOf(env);
    if L == Base || built.Made? then
      c.(inst := c.made, made := c.made + 1, cls := L,
         state := Adopt(if L == Base then map[] else built.initial, prev),
         failedLogic := None, failedProps := None, ctorError := false)
    else
      var f := c.(failedLogic := env.logic, failedProps := Some(env.props), failedVer := env.ver);
      if built.e == Textless then f
      else f.(inst := c.made, made := c.made + 1, cls := Base, state := Adopt(map[], prev), ctorError := true)
  }

  /** The state before the constructor has built anything. */
  const BLANK := Comp(0, Base, map[], false, false, None, None, -1, false, false, Constructed, 0, [])

  /** The component's constructor; where `__makeLogic` throws there is no component. */
  function Construct(env: Env, built: Built): Comp
    requires !Jams(env, built)
  {
    MakeLogic(BLANK, env, built, None)
  }

  /** The logic class changed, and not merely to the one that is known to fail. */
  ghost predicate MustSwap(c: Comp, env: Env) {
    && env.logic != Some(c.cls)
    && !(env.logic.None? && c.cls == Base)
    && !(env.logic == c.failedLogic && env.ver == c.failedVer && ShallowEqual(env.inherited, env.props, c.failedProps))
  }

  /** An instance that was mounted is unmounted before it is replaced. */
  function Retire(c: Comp): Comp {
    if c.needsDidMount then c else c.(log := c.log + [WillUnmount(c.inst)])
  }

  /** If building the new instance jams, the render throws and the old one stays. */
  function Replace(c: Comp, env: Env, built: Built): Comp {
    var c1 := MakeLogic(c, env, built, Some(c.state));
    if Jams(env, built) then c1.(jammed := c.jammed || !c.needsDidMount)
    else c1.(needsDidMount := true, jammed := false)
  }

  /** `__reconcileLogic`, when it swaps. */
  function Swap(c: Comp, env: Env, built: Built): Comp { Replace(Retire(c), env, built) }

  /** A render gets as far as reconciling. */
  ghost predicate Swaps(c: Comp, env: Env) { !env.circular && !c.err && MustSwap(c, env) }

  datatype Event =
    | Render(env: Env, built: Built)
    | CommitMount
    | CommitUpdate(env: Env)
    | Unmount
    | RenderError
    | RegistryBump
    | SetState(patch: map<string, int>)

  ghost predicate Allowed(c: Comp, ev: Event) {
    match ev
    case Render(_, _) => c.phase != Unmounted
    case CommitMount => c.phase == Constructed
    case CommitUpdate(_) => c.phase == Mounted
    case Unmount => c.phase == Mounted
    case RenderError => c.phase != Unmounted
    case RegistryBump => c.phase == Mounted
    case SetState(_) => true
  }

  ghost function Next(c: Comp, ev: Event): Comp {
    match ev
    case Render(env, built) => if Swaps(c, env) then Swap(c, env, built) else c
    case CommitMount => c.(phase := Mounted, log := c.log + [DidMount(c.inst)])
    case CommitUpdate(env) =>
      if c.needsDidMount then
        if c.err || !env.hasTpl then c
        else c.(needsDidMount := false, log := c.log + [DidMount(c.inst)])
      else c.(log := c.log + [DidUpdate(c.inst)])
    case Unmount =>
      c.(phase := Unmounted, log := if c.needsDidMount then c.log else c.log + [WillUnmount(c.inst)])
    case RenderError => c.(err := true)
    case RegistryBump => c.(err := false)
    case SetState(patch) => c.(state := c.state + patch)
  }

  ghost function Run(c: Comp, evs: seq<Event>): Comp
    decreases |evs|
  {
    if evs == [] then c else Run(Next(c, evs[0]), evs[1..])
  }

  ghost predicate RunAllowed(c: Comp, evs: seq<Event>)
    decreases |evs|
  {
    evs == [] || (Allowed(c, evs[0]) && RunAllowed(Next(c, evs[0]), evs[1..]))
  }

  // ---------- hook pairing ----------

  datatype Status = New | Live | Gone | Bad

  /** One instance's life: mounted once, then updated any number of times, then
      unmounted once.  Everything else is bad. */
  function Advance(s: Status, h: Hook): Status {
    match (s, h)
    case (New, DidMount(_)) => Live
    case (Live, DidUpdate(_)) => Live
    case (Live, WillUnmount(_)) => Gone
    case _ => Bad
  }

  function StatusOf(log: seq<Hook>, i: nat): Status {
    if log == [] then New
    else
      var s := StatusOf(log[..|log| - 1], i);
      if log[|log| - 1].inst == i then Advance(s, log[|log| - 1]) else s
  }

  /** No instance is mounted twice, unmounted twice, unmounted before it is
      mounted, or updated while it is not mounted. */
  ghost predicate Paired(log: seq<Hook>) { forall i :: StatusOf(log, i) != Bad }

  lemma StatusAppend(log: seq<Hook>, h: Hook, i: nat)
    ensures StatusOf(log + [h], i) == if h.inst == i then Advance(StatusOf(log, i), h) else StatusOf(log, i)
  {
    assert (log + [h])[..|log|] == log;
  }

  /** What the current instance has been through. */
  function Expected(c: Comp): Status {
    match c.phase
    case Constructed => New
    case Mounted => if c.needsDidMount then New else if c.jammed then Gone else Live
    case Unmounted => if c.needsDidMount then New else Gone
  }

  ghost predicate Inv(c: Comp) {
    && c.inst < c.made
    && (c.phase == Constructed ==> !c.needsDidMount)
    && (c.jammed ==> c.phase == Mounted && !c.needsDidMount)
    && StatusOf(c.log, c.inst) == Expected(c)
    && (forall i :: 0 <= i < c.made && i != c.inst ==> StatusOf(c.log, i) == New || StatusOf(c.log, i) == Gone)
    && (forall i :: i >= c.made ==> StatusOf(c.log, i) == New)
  }

  /** The first thing that goes wrong: a render swaps the logic before the first mount. */
  ghost predicate EarlySwap(c: Comp, ev: Event) {
    ev.Render? && c.phase == Constructed && Swaps(c, ev.env)
  }

  /** The second: an instance that was unmounted to be replaced, and was not, is
      called again. */
  ghost predicate JamCalls(c: Comp, ev: Event) {
    c.jammed && (ev.CommitUpdate? || ev.Unmount? || (ev.Render? && Swaps(c, ev.env)))
  }

  ghost predicate Misfires(c: Comp, evs: seq<Event>)
    decreases |evs|
  {
    evs != [] && (EarlySwap(c, evs[0]) || JamCalls(c, evs[0]) || Misfires(Next(c, evs[0]), evs[1..]))
  }

  lemma StatusAppendAll(log: seq<Hook>, h: Hook)
    ensures forall i :: i != h.inst ==> StatusOf(log + [h], i) == StatusOf(log, i)
    ensures StatusOf(log + [h], h.inst) == Advance(StatusOf(log, h.inst), h)
  {
    forall i: nat { StatusAppend(log, h, i); }
  }

  /** A swap adds at most the unmounting of the old instance. */
  lemma SwapLog(c: Comp, env: Env, built: Built)
    ensures var c' := Swap(c, env, built);
      && c'.phase == c.phase
      && c'.log == (if c.needsDidMount then c.log else c.log + [WillUnmount(c.inst)])
      && if Jams(env, built)
         then c'.inst == c.inst && c'.made == c.made && c'.needsDidMount == c.needsDidMount
           && c'.jammed == (c.jammed || !c.needsDidMount)
         else c'.inst == c.made && c'.made == c.made + 1 && c'.needsDidMount && !c'.jammed
  {
  }

  lemma {:induction false} InvSwap(c: Comp, env: Env, built: Built)
    requires Inv(c) && c.phase == Mounted && !c.jammed
    ensures Inv(Swap(c, env, built))
  {
    SwapLog(c, env, built);
    if !c.needsDidMount { StatusAppendAll(c.log, WillUnmount(c.inst)); }
  }

  lemma {:induction false} InvCommit(c: Comp, ev: Event)
    requires Inv(c) && Allowed(c, ev) && !c.jammed && (ev.CommitMount? || ev.CommitUpdate?)
    ensures Inv(Next(c, ev))
  {
    var h := if ev.CommitMount? || c.needsDidMount then DidMount(c.inst) else DidUpdate(c.inst);
    StatusAppendAll(c.log, h);
    assert Next(c, ev).log == c.log || Next(c, ev).log == c.log + [h];
  }

  lemma {:induction false} InvUnmount(c: Comp)
    requires Inv(c) && Allowed(c, Unmount) && !c.jammed
    ensures Inv(Next(c, Unmount))
  {
    StatusAppendAll(c.log, WillUnmount(c.inst));
  }

  lemma {:induction false} InvStep(c: Comp, ev: Event)
    requires Inv(c) && Allowed(c, ev) && !EarlySwap(c, ev) && !JamCalls(c, ev)
    ensures Inv(Next(c, ev))
  {
    match ev
    case Render(env, built) => if Swaps(c, env) { InvSwap(c, env, built); }
    case CommitMount => InvCommit(c, ev);
    case CommitUpdate(_) => InvCommit(c, ev);
    case Unmount => InvUnmount(c);
    case _ =>
  }

  lemma InvPaired(c: Comp)
    requires Inv(c)
    ensures Paired(c.log)
    ensures c.phase == Unmounted ==> forall i :: StatusOf(c.log, i) != Live
  {
  }

  lemma ConstructInv(env: Env, built: Built)
    requires !Jams(env, built)
    ensures Inv(Construct(env, built))
  {
  }

  lemma {:induction false} InvRun(c: Comp, evs: seq<Event>)
    requires Inv(c) && RunAllowed(c, evs) && !Misfires(c, evs)
    ensures Inv(Run(c, evs))
    decreases |evs|
  {
    if evs == [] {
    } else {
      InvStep(c, evs[0]);
      InvRun(Next(c, evs[0]), evs[1..]);
    }
  }

  lemma BadStays(c: Comp, ev: Event, i: nat)
    requires StatusOf(c.log, i) == Bad
    ensures StatusOf(Next(c, ev).log, i) == Bad
  {
    StatusAppend(c.log, DidMount(c.inst), i);
    StatusAppend(c.log, DidUpdate(c.inst), i);
    StatusAppend(c.log, WillUnmount(c.inst), i);
  }

  lemma {:induction false} BadForever(c: Comp, evs: seq<Event>, i: nat)
    requires StatusOf(c.log, i) == Bad
    ensures StatusOf(Run(c, evs).log, i) == Bad
    decreases |evs|
  {
    if evs == [] {
    } else {
      BadStays(c, evs[0], i);
      BadForever(Next(c, evs[0]), evs[1..], i);
    }
  }

  /** A hook that the current instance must not get any more, or not yet. */
  lemma MisfireBad(c: Comp, ev: Event)
    requires Inv(c) && Allowed(c, ev) && (EarlySwap(c, ev) || JamCalls(c, ev))
    ensures StatusOf(Next(c, ev).log, c.inst) == Bad
  {
    StatusAppend(c.log, WillUnmount(c.inst), c.inst);
    StatusAppend(c.log, DidUpdate(c.inst), c.inst);
  }

  lemma {:induction false} MisfireBreaks(c: Comp, evs: seq<Event>) returns (i: nat)
    requires Inv(c) && RunAllowed(c, evs) && Misfires(c, evs)
    ensures StatusOf(Run(c, evs).log, i) == Bad
    decreases |evs|
  {
    if EarlySwap(c, evs[0]) || JamCalls(c, evs[0]) {
      i := c.inst;
      MisfireBad(c, evs[0]);
      BadForever(Next(c, evs[0]), evs[1..], i);
    } else {
      InvStep(c, evs[0]);
      i := MisfireBreaks(Next(c, evs[0]), evs[1..]);
    }
  }

  /** Over every run of a component: the hooks of every logic instance are paired
      exactly when no render swaps the logic before the first mount, and no
      instance is called that was unmounted for a replacement that jammed. */
  lemma PairedIff(env: Env, built: Built, evs: seq<Event>)
    requires !Jams(env, built) && RunAllowed(Construct(env, built), evs)
    ensures var c := Construct(env, built);
      Paired(Run(c, evs).log) <==> !Misfires(c, evs)
  {
    var c := Construct(env, built);
    ConstructInv(env, built);
    if Misfires(c, evs) {
      var i := MisfireBreaks(c, evs);
    } else {
      InvRun(c, evs);
      InvPaired(Run(c, evs));
    }
  }

  /** And then no mounted instance survives the unmounting of the component. */
  lemma NoneSurvives(env: Env, built: Built, evs: seq<Event>)
    requires !Jams(env, built) && RunAllowed(Construct(env, built), evs) && !Misfires(Construct(env, built), evs)
    ensures var c := Run(Construct(env, built), evs);
      c.phase == Unmounted ==> forall i :: StatusOf(c.log, i) != Live
  {
    ConstructInv(env, built);
    InvRun(Construct(env, built), evs);
    InvPaired(Run(Construct(env, built), evs));
  }

  // ---------- when nothing changes before the first mount ----------

  ghost predicate HasNaN(p: Props) { exists k :: k in Visible(p) && p[k] == NaN }

  /** The first render, with the registry and the props as they were at
      construction, swaps only a constructor that threw on props that hold a NaN. */
  lemma {:induction false} FirstRenderSwaps(env: Env, built: Built)
    requires !Jams(env, built)
    ensures Swaps(Construct(env, built), env) <==>
      !env.circular && ClassOf(env) != Base && built.Threw? && HasNaN(env.props)
  {
    ShallowReflexive(env.inherited, env.props);
  }

  /** Renders before the first mount all see what the constructor saw. */
  ghost predicate SameUntilMount(env: Env, evs: seq<Event>) {
    evs != [] && !evs[0].CommitMount? ==>
      (evs[0].Render? ==> evs[0].env == env) && SameUntilMount(env, evs[1..])
  }

  /** The component renders before it is mounted, and before a render error. */
  predicate RendersFirst(evs: seq<Event>) {
    evs != [] && (evs[0].Render? || (evs[0].SetState? && RendersFirst(evs[1..])))
  }

  /** What constructors throw during the run has a text. */
  predicate Texts(evs: seq<Event>) {
    forall i :: 0 <= i < |evs| && evs[i].Render? ==> evs[i].built != Threw(Textless)
  }

  lemma {:induction false} NeverMisfires(c: Comp, evs: seq<Event>)
    requires c.phase != Constructed && !c.jammed && Texts(evs)
    ensures !Misfires(c, evs)
    decreases |evs|
  {
    if evs == [] {
    } else {
      NeverMisfires(Next(c, evs[0]), evs[1..]);
    }
  }

  lemma {:induction false} StillMisfiresIff(c: Comp, env: Env, evs: seq<Event>)
    requires RunAllowed(c, evs) && SameUntilMount(env, evs) && Texts(evs)
    requires c.phase == Constructed && !c.jammed
    ensures Misfires(c, evs) <==> RendersFirst(evs) && Swaps(c, env)
    decreases |evs|
  {
    if evs != [] && !EarlySwap(c, evs[0]) {
      var c1 := Next(c, evs[0]);
      assert evs[0].Render? ==> evs[0].env == env;
      if evs[0].CommitMount? {
        NeverMisfires(c1, evs[1..]);
      } else {
        StillMisfiresIff(c1, env, evs[1..]);
      }
    }
  }

  /** So with registry and props unchanged until the first mount a run pairs its
      hooks unless the constructor threw on a prop that is NaN and the component
      rendered before it was mounted. */
  lemma PairedWhenStillIff(env: Env, built: Built, evs: seq<Event>)
    requires !Jams(env, built) && RunAllowed(Construct(env, built), evs)
    requires SameUntilMount(env, evs) && Texts(evs)
    ensures Paired(Run(Construct(env, built), evs).log) <==>
      !(RendersFirst(evs) && !env.circular && ClassOf(env) != Base && built.Threw? && HasNaN(env.props))
  {
    FirstRenderSwaps(env, built);
    StillMisfiresIff(Construct(env, built), env, evs);
    PairedIff(env, built, evs);
  }

  /** A constructor that jams after the mount: the old instance is unmounted twice. */
  lemma JamUnmountsTwice(c: Comp, env: Env)
    requires Inv(c) && c.phase == Mounted && !c.needsDidMount && !c.jammed
    requires Swaps(c, env) && Jams(env, Threw(Textless))
    ensures RunAllowed(c, [Render(env, Threw(Textless)), Unmount])
    ensures StatusOf(Run(c, [Render(env, Threw(Textless)), Unmount]).log, c.inst) == Bad
  {
    var evs := [Render(env, Threw(Textless)), Unmount];
    var c1 := Next(c, evs[0]);
    InvStep(c, evs[0]);
    MisfireBad(c1, Unmount);
    assert evs[1..] == [Unmount] && evs[1..][1..] == [];
    assert Run(c1, [Unmount]) == Next(c1, Unmount);
  }

  // ---------- when a render swaps, and what it makes ----------

  /** A render swaps exactly when it is no circular import, no error is shown, the
      registry's class (the base class where it has none) is not that of the
      instance, and no constructor has failed with this class and version on props
      that compare equal. */
  lemma SwapsIff(c: Comp, env: Env)
    ensures Swaps(c, env) <==>
      && !env.circular && !c.err
      && (match env.logic case None => c.cls != Base case Some(L) => c.cls != L)
      && (c.failedProps.Some? && env.logic == c.failedLogic && env.ver == c.failedVer ==>
            !ShallowEqual(env.inherited, env.props, c.failedProps))
  {
  }

  /** One map over another: the keys of both, and what the upper one says where it
      says anything. */
  ghost predicate Overlaid(lower: map<string, int>, upper: map<string, int>, m: map<string, int>) {
    && m.Keys == lower.Keys + upper.Keys
    && forall k :: k in m ==> m[k] == if k in upper then upper[k] else lower[k]
  }

  /** The constructor's initial state; the base class has none. */
  function InitialState(env: Env, built: Built): map<string, int> {
    match (env.logic, built)
    case (Some(User(_)), Made(initial)) => initial
    case _ => map[]
  }

  /** What a swap that does not jam makes: the next instance, of the registry's class
      or, if its constructor threw, of the base class; the previous state over the
      initial one; the failure on record or forgotten; the old instance unmounted if
      it was mounted.  One that jams leaves the instance and its state. */
  lemma SwapMakes(c: Comp, env: Env, built: Built)
    requires Swaps(c, env)
    ensures var c' := Next(c, Render(env, built));
      var user := env.logic.Some? && env.logic.value != Base;
      && c'.err == c.err && c'.phase == c.phase
      && c'.log == (if c.needsDidMount then c.log else c.log + [WillUnmount(c.inst)])
      && (user && built.Threw? ==>
            c'.failedLogic == env.logic && c'.failedProps == Some(env.props) && c'.failedVer == env.ver)
      && (user && built == Threw(Textless) ==>
            && c'.inst == c.inst && c'.made == c.made && c'.cls == c.cls && c'.state == c.state
            && c'.ctorError == c.ctorError && c'.needsDidMount == c.needsDidMount)
      && (!(user && built == Threw(Textless)) ==>
            && c'.inst == c.made && c'.made == c.made + 1 && c'.needsDidMount
            && c'.cls == (if user && built.Made? then env.logic.value else Base)
            && Overlaid(if user && built.Made? then built.initial else map[], c.state, c'.state)
            && c'.ctorError == (user && built.Threw?)
            && (!c'.ctorError ==> c'.failedLogic == None && c'.failedProps == None && c'.failedVer == c.failedVer))
  {
  }

  function At(m: map<string, int>, k: string): Option<int> { if k in m then Some(m[k]) else None }

  /** The value of one key after a step: the one written; where there is none, that of
      a new instance whose initial state has the key. */
  ghost function NextValue(c: Comp, ev: Event, k: string, v: Option<int>): Option<int> {
    match ev
    case SetState(patch) => if k in patch then Some(patch[k]) else v
    case Render(env, built) =>
      if v == None && Swaps(c, env) && k in InitialState(env, built) then Some(InitialState(env, built)[k]) else v
    case _ => v
  }

  ghost function ValueOf(c: Comp, evs: seq<Event>, k: string, v: Option<int>): Option<int>
    decreases |evs|
  {
    if evs == [] then v else ValueOf(Next(c, evs[0]), evs[1..], k, NextValue(c, evs[0], k, v))
  }

  lemma {:induction false} StateStep(c: Comp, ev: Event, k: string)
    ensures At(Next(c, ev).state, k) == NextValue(c, ev, k, At(c.state, k))
  {
    if ev.Render? && Swaps(c, ev.env) { SwapMakes(c, ev.env, ev.built); }
  }

  /** Over every run, swaps, failing and jamming constructors included: a key holds the
      value written to it last or, until one is, what the first instance to have it
      brought; a key that neither was written nor brought is not there. */
  lemma {:induction false} StateIs(c: Comp, evs: seq<Event>, k: string)
    ensures At(Run(c, evs).state, k) == ValueOf(c, evs, k, At(c.state, k))
    decreases |evs|
  {
    if evs == [] {
    } else {
      StateStep(c, evs[0], k);
      StateIs(Next(c, evs[0]), evs[1..], k);
    }
  }

  /** A render in brief. */
  lemma {:induction false} RenderMakes(c: Comp, env: Env, built: Built)
    ensures var c' := Next(c, Render(env, built));
      && (!Swaps(c, env) ==> c' == c)
      && (Swaps(c, env) && !Jams(env, built) ==>
            c'.inst == c.made && Overlaid(InitialState(env, built), c.state, c'.state))
      && (Swaps(c, env) && Jams(env, built) ==> c'.inst == c.inst && c'.state == c.state)
  {
    if Swaps(c, env) { SwapMakes(c, env, built); }
  }

  // ---------- what a swap keeps ----------

  /** The values written last, over a starting state. */
  function Writes(s: map<string, int>, evs: seq<Event>): map<string, int>
    decreases |evs|
  {
    if evs == [] then s
    else Writes(if evs[0].SetState? then s + evs[0].patch else s, evs[1..])
  }

  ghost predicate Holds(state: map<string, int>, w: map<string, int>) {
    forall k :: k in w ==> k in state && state[k] == w[k]
  }

  /** Over every run, swaps and failing constructors included, each key keeps the
      value written to it last; a new class can only add keys. */
  lemma {:induction false} StateSurvives(c: Comp, w: map<string, int>, evs: seq<Event>)
    requires Holds(c.state, w)
    ensures Holds(Run(c, evs).state, Writes(w, evs))
    decreases |evs|
  {
    if evs == [] {
    } else {
      StateSurvives(Next(c, evs[0]), if evs[0].SetState? then w + evs[0].patch else w, evs[1..]);
    }
  }

  /** Renders that change neither class, version nor props. */
  ghost predicate Unchanged(c: Comp, evs: seq<Event>) {
    forall i :: 0 <= i < |evs| && evs[i].Render? ==>
      && evs[i].env.logic == c.failedLogic && evs[i].env.ver == c.failedVer
      && ShallowEqual(evs[i].env.inherited, evs[i].env.props, c.failedProps)
  }

  lemma UnchangedStep(c: Comp, evs: seq<Event>)
    requires Unchanged(c, evs) && evs != []
    ensures var c1 := Next(c, evs[0]); c1.made == c.made && c1.inst == c.inst && Unchanged(c1, evs[1..])
  {
    var c1 := Next(c, evs[0]);
    assert c1.failedLogic == c.failedLogic && c1.failedVer == c.failedVer && c1.failedProps == c.failedProps;
    assert forall i :: 0 <= i < |evs| - 1 ==> evs[1..][i] == evs[i + 1];
  }

  /** After a constructor has failed nothing is constructed again, however often
      the component renders, while the class and the version stay and the props
      compare equal. */
  lemma {:induction false} FailureRemembered(c: Comp, evs: seq<Event>)
    requires Unchanged(c, evs)
    ensures Run(c, evs).made == c.made && Run(c, evs).inst == c.inst
    decreases |evs|
  {
    if evs == [] {
    } else {
      UnchangedStep(c, evs);
      FailureRemembered(Next(c, evs[0]), evs[1..]);
    }
  }

  /** And it is tried again by the first render that sees a user's class with
      something changed: the class, the version, or props that compare unequal. */
  lemma FailureRetriedIff(c: Comp, env: Env, env': Env)
    requires ClassOf(env) != Base && !env'.circular
    ensures var f := MakeLogic(c, env, Threw(Textual), Some(c.state)).(err := false);
      Swaps(f, env') <==>
        && ClassOf(env') != Base
        && (env'.logic != env.logic || env'.ver != env.ver ||
            !ShallowEqual(env'.inherited, env'.props, Some(env.props)))
  {
  }

  /** A failure is on record for just these props. */
  predicate FailedOn(c: Comp, env: Env) {
    c.cls == Base && c.failedLogic == env.logic && c.failedVer == env.ver && c.failedProps == Some(env.props)
  }

  /** Unchanged props are enough to be spared exactly when none of them is NaN: with
      one, every render constructs again. */
  lemma {:induction false} UnchangedRetriedIff(c: Comp, env: Env, evs: seq<Event>)
    requires FailedOn(c, env) && ClassOf(env) != Base && !env.circular && !c.err
    requires forall i :: 0 <= i < |evs| ==> evs[i] == Render(env, Threw(Textual))
    ensures Run(c, evs).made == c.made + if HasNaN(env.props) then |evs| else 0
    decreases |evs|
  {
    if evs == [] {
    } else {
      ShallowReflexive(env.inherited, env.props);
      UnchangedRetriedIff(Next(c, evs[0]), env, evs[1..]);
    }
  }

  // ---------- what the object's methods rely on ----------

  /** What a component keeps that knows whether anything has misfired. */
  ghost predicate Ok(c: Comp, misfired: bool) {
    if misfired then !Paired(c.log) else Inv(c)
  }

  lemma OkPaired(c: Comp, misfired: bool)
    requires Ok(c, misfired)
    ensures Paired(c.log) <==> !misfired
  {
    if !misfired { InvPaired(c); }
  }

  lemma OkStep(c: Comp, misfired: bool, ev: Event)
    requires Ok(c, misfired) && Allowed(c, ev)
    ensures Ok(Next(c, ev), misfired || EarlySwap(c, ev) || JamCalls(c, ev))
  {
    if misfired {
      var i :| StatusOf(c.log, i) == Bad;
      BadStays(c, ev, i);
    } else if EarlySwap(c, ev) || JamCalls(c, ev) {
      MisfireBad(c, ev);
    } else {
      InvStep(c, ev);
    }
  }

  lemma RenderFacts(c: Comp, misfired: bool, w: map<string, int>, env: Env, built: Built)
    requires Ok(c, misfired) && Holds(c.state, w) && c.phase != Unmounted
    ensures var ev := Render(env, built); var c' := Next(c, ev);
      var m := misfired || EarlySwap(c, ev) || JamCalls(c, ev);
      Ok(c', m) && Holds(c'.state, w) && (Paired(c'.log) <==> !m)
  {
    var ev := Render(env, built);
    OkStep(c, misfired, ev);
    OkPaired(Next(c, ev), misfired || EarlySwap(c, ev) || JamCalls(c, ev));
  }

  /** A commit concerns the current instance only, and leaves it mounted if it calls
      it at all. */
  lemma CommitFacts(c: Comp, misfired: bool, ev: Event)
    requires Ok(c, misfired) && Allowed(c, ev) && (ev.CommitMount? || ev.CommitUpdate?)
    ensures var c' := Next(c, ev); var m := misfired || JamCalls(c, ev);
      && Ok(c', m)
      && (!m ==> forall i :: i != c.inst ==> StatusOf(c'.log, i) == StatusOf(c.log, i))
      && (!m ==> c'.log == c.log || StatusOf(c'.log, c.inst) == Live)
  {
    OkStep(c, misfired, ev);
    StatusAppendAll(c.log, if ev.CommitMount? || c.needsDidMount then DidMount(c.inst) else DidUpdate(c.inst));
  }

  lemma UnmountFacts(c: Comp, misfired: bool)
    requires Ok(c, misfired) && Allowed(c, Unmount)
    ensures var c' := Next(c, Unmount); var m := misfired || c.jammed;
      Ok(c', m) && (!m ==> forall i :: StatusOf(c'.log, i) != Live)
  {
    OkStep(c, misfired, Unmount);
    if !misfired && !c.jammed { InvPaired(Next(c, Unmount)); }
  }
}
