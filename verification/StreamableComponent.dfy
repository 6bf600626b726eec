/** The component class itself: fields updated in place.  Every method makes a step
    of Lifecycle and keeps what holds over its runs, so that an object knows
    whether the hooks of its logic instances are paired. */
module StreamableComponent {
  import opened JsText
  import opened Lifecycle

  /** A logic instance is known by its number, `inst`; its `state` object is kept
      beside it.  How a constructor ends is given to the methods that call one; a
      method whose result `threw` is true ends with an exception. */
  class Component {
    var inst: nat
    var cls: Class
    var state: map<string, int>
    var needsDidMount: bool
    var failedLogic: Option<Class>
    var failedProps: Option<Props>
    var failedVer: int
    var ctorError: bool
    var err: bool
    var made: nat
    ghost var jammed: bool
    ghost var phase: Phase
    /** The hooks called on logic instances; an exception in one is caught and changes
        nothing here. */
    ghost var log: seq<Hook>
    /** Some hook was called out of turn. */
    ghost var misfired: bool
    /** The value last written to each key. */
    ghost var written: map<string, int>

    ghost function View(): Comp
      reads this
    {
      Comp(inst, cls, state, needsDidMount, jammed,
           failedLogic, failedProps, failedVer, ctorError, err, phase, made, log)
    }

    ghost predicate Valid()
      reads this
    {
      Ok(View(), misfired) && Holds(state, written)
    }

    constructor (env: Env, built: Built)
      requires !Jams(env, built)
      ensures Valid() && !misfired && View() == Construct(env, built) && written == map[]
      ensures inst == 0 && made == 1 && log == [] && phase == Constructed && !needsDidMount && !err
      ensures state == InitialState(env, built)
      ensures var user := env.logic.Some? && env.logic.value != Base;
        && cls == (if user && built.Made? then env.logic.value else Base)
        && ctorError == (user && built.Threw?) && failedVer == (if ctorError then env.ver else -1)
        && failedLogic == (if ctorError then env.logic else None)
        && failedProps == if ctorError then Some(env.props) else None
    {
      inst, cls, state := 0, Base, map[];
      needsDidMount, jammed, err := false, false, false;
      failedLogic, failedProps, failedVer, ctorError := None, None, -1, false;
      made := 0;
      phase, log, misfired, written := Constructed, [], false, map[];
      new;
      var _ := Make(env, built, None);
      ConstructInv(env, built);
    }

    /** `__makeLogic`. */
    method Make(env: Env, built: Built, prev: Option<map<string, int>>) returns (threw: bool)
      modifies this`inst, this`made, this`cls, this`state,
               this`failedLogic, this`failedProps, this`failedVer, this`ctorError
      ensures View() == MakeLogic(old(View()), env, built, prev) && threw == Jams(env, built)
      ensures var user := env.logic.Some? && env.logic.value != Base;
        && threw == (user && built == Threw(Textless))
        && (threw ==> inst == old(inst) && made == old(made) && cls == old(cls) && state == old(state))
        && (!threw ==> inst == old(made) && made == old(made) + 1)
        && (!threw ==> cls == if user && built.Made? then env.logic.value else Base)
        && (!threw ==> Overlaid(if user && built.Made? then built.initial else map[],
                                if prev.Some? then prev.value else map[], state))
        && (!threw ==> ctorError == (user && built.Threw?))
        && if user && built.Threw?
           then failedLogic == env.logic && failedProps == Some(env.props) && failedVer == env.ver
           else failedLogic == None && failedProps == None && failedVer == old(failedVer)
    {
      var L := if env.logic.Some? then env.logic.value else Base;
      threw := L != Base && built == Threw(Textless);
      if L != Base && built.Threw? {
        RememberFailure(env);
        if threw { return; }
        ctorError := true;
        Become(Base, map[], prev);
      } else {
        ForgetFailure();
        Become(L, if L == Base then map[] else built.initial, prev);
      }
    }

    /** A new instance, which adopts the previous state over its own. */
    method Become(L: Class, initial: map<string, int>, prev: Option<map<string, int>>)
      modifies this`inst, this`made, this`cls, this`state
      ensures inst == old(made) && made == old(made) + 1 && cls == L && state == Adopt(initial, prev)
      ensures Overlaid(initial, if prev.Some? then prev.value else map[], state)
    {
      inst, made, cls := made, made + 1, L;
      state := if prev.Some? then initial + prev.value else initial;
    }

    /** The constructor threw. */
    method RememberFailure(env: Env)
      modifies this`failedLogic, this`failedProps, this`failedVer
      ensures failedLogic == env.logic && failedProps == Some(env.props) && failedVer == env.ver
    {
      failedLogic := env.logic;
      failedProps := Some(env.props);
      failedVer := env.ver;
    }

    /** It did not; the version stays as it was. */
    method ForgetFailure()
      modifies this`failedLogic, this`failedProps, this`ctorError
      ensures failedLogic == None && failedProps == None && !ctorError
    {
      failedLogic := None;
      failedProps := None;
      ctorError := false;
    }

    /** The part of `__reconcileLogic` that swaps. */
    method SwapLogic(env: Env, built: Built) returns (threw: bool)
      modifies this`inst, this`made, this`cls, this`state, this`needsDidMount, this`jammed, this`log,
               this`failedLogic, this`failedProps, this`failedVer, this`ctorError
      ensures View() == Swap(old(View()), env, built) && threw == Jams(env, built)
    {
      if !needsDidMount { log := log + [WillUnmount(inst)]; }
      assert View() == Retire(old(View()));
      threw := ReplaceLogic(env, built);
    }

    method ReplaceLogic(env: Env, built: Built) returns (threw: bool)
      modifies this`inst, this`made, this`cls, this`state, this`needsDidMount, this`jammed,
               this`failedLogic, this`failedProps, this`failedVer, this`ctorError
      ensures View() == Replace(old(View()), env, built) && threw == Jams(env, built)
    {
      threw := Make(env, built, Some(state));
      if threw {
        jammed := jammed || !needsDidMount;
      } else {
        needsDidMount, jammed := true, false;
      }
    }

    /** `__reconcileLogic`. */
    method Reconcile(env: Env, built: Built) returns (threw: bool)
      modifies this`inst, this`made, this`cls, this`state, this`needsDidMount, this`jammed, this`log,
               this`failedLogic, this`failedProps, this`failedVer, this`ctorError
      ensures var c := old(View());
        && View() == (if MustSwap(c, env) then Swap(c, env, built) else c)
        && threw == (MustSwap(c, env) && Jams(env, built))
    {
      var same := env.logic == Some(cls) || (env.logic.None? && cls == Base);
      if !same && env.logic == failedLogic && env.ver == failedVer {
        same := CompareShallow(env.inherited, env.props, failedProps);
      }
      assert same != MustSwap(View(), env);
      threw := false;
      if !same { threw := SwapLogic(env, built); }
    }

    /** `render` returns before it reconciles where the import is circular or an error
        is shown. */
    method ReconcileUnlessShown(env: Env, built: Built) returns (threw: bool)
      modifies this`inst, this`made, this`cls, this`state, this`needsDidMount, this`jammed, this`log,
               this`failedLogic, this`failedProps, this`failedVer, this`ctorError
      ensures View() == Next(old(View()), Render(env, built))
      ensures threw == (Swaps(old(View()), env) && Jams(env, built))
    {
      threw := false;
      if !env.circular && !err { threw := Reconcile(env, built); }
    }

    /** `render`, as far as the logic is concerned.  Nothing that was written is lost,
        and hooks stay paired unless this render swaps before the first mount, or
        swaps out an instance that is unmounted already. */
    method RenderStep(env: Env, built: Built) returns (threw: bool)
      requires Valid() && phase != Unmounted
      modifies this`inst, this`made, this`cls, this`state, this`needsDidMount, this`jammed, this`log,
               this`failedLogic, this`failedProps, this`failedVer, this`ctorError, this`misfired
      ensures Valid()
      ensures var c := old(View());
        && View() == Next(c, Render(env, built)) && threw == (Swaps(c, env) && Jams(env, built))
        && (!Swaps(c, env) ==> View() == c)
        && (Swaps(c, env) && !threw ==> inst == c.made && Overlaid(InitialState(env, built), c.state, state))
        && (threw ==> inst == c.inst && state == c.state)
      ensures written == old(written)
      ensures misfired <==> old(misfired || (Swaps(View(), env) && (phase == Constructed || jammed)))
      ensures Paired(log) <==> !misfired
    {
      ghost var c, ev := View(), Render(env, built);
      RenderFacts(c, misfired, written, env, built);
      RenderMakes(c, env, built);
      threw := ReconcileUnlessShown(env, built);
      assert View() == Next(c, ev);
      misfired := misfired || EarlySwap(c, ev) || JamCalls(c, ev);
    }

    /** The first commit: the current instance is mounted, and no other concerned. */
    method ComponentDidMount()
      requires Valid() && phase == Constructed
      modifies this`log, this`phase
      ensures Valid() && View() == Next(old(View()), CommitMount)
      ensures log == old(log) + [DidMount(inst)] && phase == Mounted
      ensures !misfired ==> StatusOf(log, inst) == Live
      ensures !misfired ==> forall i :: i != inst ==> StatusOf(log, i) == old(StatusOf(log, i))
    {
      ghost var c := View();
      CommitFacts(c, misfired, CommitMount);
      log := log + [DidMount(inst)];
      phase := Mounted;
      assert View() == Next(c, CommitMount);
    }

    /** A later commit leaves the current instance mounted, a swapped-in one once
        there is a template and no error, unless it was unmounted already; until
        then it calls nothing. */
    method ComponentDidUpdate(env: Env)
      requires Valid() && phase == Mounted
      modifies this`log, this`needsDidMount, this`misfired
      ensures Valid() && View() == Next(old(View()), CommitUpdate(env))
      ensures log == old(log) + if !old(needsDidMount) then [DidUpdate(inst)]
                                else if err || !env.hasTpl then [] else [DidMount(inst)]
      ensures needsDidMount <==> old(needsDidMount) && (err || !env.hasTpl)
      ensures misfired == old(misfired || jammed)
      ensures !misfired && !needsDidMount ==> StatusOf(log, inst) == Live
      ensures !misfired ==> forall i :: i != inst ==> StatusOf(log, i) == old(StatusOf(log, i))
    {
      ghost var c := View();
      CommitFacts(c, misfired, CommitUpdate(env));
      misfired := misfired || jammed;
      if !needsDidMount {
        log := log + [DidUpdate(inst)];
      } else if !err && env.hasTpl {
        needsDidMount := false;
        log := log + [DidMount(inst)];
      }
      assert View() == Next(c, CommitUpdate(env));
    }

    /** After the component no instance is left mounted. */
    method ComponentWillUnmount()
      requires Valid() && phase == Mounted
      modifies this`log, this`phase, this`misfired
      ensures Valid() && View() == Next(old(View()), Unmount)
      ensures log == old(log) + if needsDidMount then [] else [WillUnmount(inst)]
      ensures phase == Unmounted
      ensures misfired == old(misfired || jammed)
      ensures !misfired ==> forall i :: StatusOf(log, i) != Live
    {
      ghost var c := View();
      UnmountFacts(c, misfired);
      misfired := misfired || jammed;
      if !needsDidMount { log := log + [WillUnmount(inst)]; }
      phase := Unmounted;
      assert View() == Next(c, Unmount);
    }

    /** Writes are remembered: each key has the value written to it last, by this
        call or by one before it, over all swaps in between. */
    method SetLogicState(patch: map<string, int>)
      requires Valid()
      modifies this`state, this`written
      ensures Valid() && View() == Next(old(View()), SetState(patch))
      ensures Overlaid(old(state), patch, state)
      ensures Overlaid(old(written), patch, written) && Holds(state, written)
    {
      OkStep(View(), misfired, SetState(patch));
      state := state + patch;
      written := written + patch;
    }

    /** `getDerivedStateFromError`. */
    method CatchError()
      requires Valid() && phase != Unmounted
      modifies this`err
      ensures Valid() && View() == Next(old(View()), RenderError) && err
    {
      OkStep(View(), misfired, RenderError);
      err := true;
    }

    /** The subscription the registry calls. */
    method OnBump()
      requires Valid() && phase == Mounted
      modifies this`err
      ensures Valid() && View() == Next(old(View()), RegistryBump) && !err
    {
      OkStep(View(), misfired, RegistryBump);
      err := false;
    }
  }
}
