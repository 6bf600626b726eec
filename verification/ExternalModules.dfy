/** The loader object itself: its maps updated in place.  Every method makes a step
    of ModuleLoading and keeps its invariant, so what holds over every run of
    steps holds for every object. */
module ExternalModules {
  import opened JsText
  import opened ModuleLoading

  /** Promise chains are known by their index in `loads`. */
  class Loader {
    var loads: seq<Load>
    var pending: map<string, nat>
    var cache: map<string, Entry>
    var compiler: Compiler
    ghost var ran: seq<nat>
    /** How often the compiler's script was put into the document. */
    ghost var asked: nat

    ghost function View(): Modules
      reads this
    {
      Modules(loads, pending, cache, compiler, ran)
    }

    ghost predicate AskedOnce()
      reads this
    {
      asked == if compiler == Unasked then 0 else 1
    }

    ghost predicate Valid()
      reads this
    {
      Inv(View()) && AskedOnce()
    }

    constructor ()
      ensures Valid() && View() == EMPTY
    {
      loads, pending, cache, compiler, ran, asked := [], map[], map[], Unasked, [], 0;
    }

    /** `ensureBabel`: nothing to wait for when the compiler is there; else one
        shared promise. */
    method EnsureCompiler(present: bool) returns (needs: bool)
      requires AskedOnce()
      modifies this`compiler, this`asked
      ensures AskedOnce() && needs == !present
      ensures needs ==> asked == 1
      ensures compiler == if present || old(compiler) != Unasked then old(compiler) else Asked
    {
      needs := !present;
      if needs && compiler == Unasked {
        compiler := Asked;
        asked := asked + 1;
      }
    }

    /** `load`.  What was requested before keeps its chain; what is new waits. */
    method Request(kind: Kind, url: string, after: Option<nat>, compilerPresent: bool) returns (p: nat)
      requires Valid() && (after.Some? ==> after.value < |loads|)
      modifies this
      ensures Valid() && View() == AfterRequest(old(View()), kind, url, after, compilerPresent)
      ensures url in pending && p == pending[url] && p < |loads| && loads[p].url == url
      ensures url in old(pending) ==> View() == old(View())
      ensures url !in old(pending) ==>
        var needs := kind == Jsx && !compilerPresent;
        && p == |old(loads)| && loads == old(loads) + [Load(url, after, needs, Waiting)]
        && pending == old(pending)[url := p] && cache == old(cache)[url := InFlight] && ran == old(ran)
        && compiler == if needs && old(compiler) == Unasked then Asked else old(compiler)
    {
      ghost var m := View();
      InvRequest(m, kind, url, after, compilerPresent);
      if url in pending { return pending[url]; }
      cache := cache[url := InFlight];
      var needs := false;
      if kind == Jsx { needs := EnsureCompiler(compilerPresent); }
      p := |loads|;
      loads := loads + [Load(url, after, needs, Waiting)];
      pending := pending[url := p];
    }

    /** A list of URLs to load in order, each after the one before it. */
    method RequestChain(kindOf: string -> Kind, urls: seq<string>, compilerPresent: bool)
      requires Valid()
      modifies this
      ensures Valid() && View() == ChainUpto(old(View()), kindOf, urls, compilerPresent, |urls|)
    {
      var prev: Option<nat> := None;
      for n := 0 to |urls|
        invariant Valid() && View() == ChainUpto(old(View()), kindOf, urls, compilerPresent, n)
        invariant prev == if n == 0 then None else Some(pending[urls[n - 1]])
      {
        var p := Request(kindOf(urls[n]), urls[n], prev, compilerPresent);
        prev := Some(p);
      }
    }

    method CompilerLoaded(ok: bool)
      requires Valid() && compiler == Asked
      modifies this`compiler
      ensures Valid() && View() == Next(old(View()), CompilerDone(ok))
      ensures compiler == if ok then Usable else Broken
    {
      InvStep(View(), CompilerDone(ok));
      compiler := if ok then Usable else Broken;
    }

    /** The chain's first stage: everything it waits for has resolved. */
    method Begin(i: nat)
      requires Valid() && Enabled(View(), Start(i))
      modifies this`loads
      ensures Valid() && View() == Next(old(View()), Start(i))
      ensures loads == old(loads)[i := old(loads[i]).(phase := Fetching)]
    {
      InvStep(View(), Start(i));
      loads := loads[i := loads[i].(phase := Fetching)];
    }

    /** An exception before there is a text, on its way to the catch. */
    method Fails(i: nat, e: Exception)
      requires Valid() && (Enabled(View(), Abort(i, e)) || Enabled(View(), FetchFailed(i, e)))
      modifies this`loads
      ensures Valid() && View() == SetPhase(old(View()), i, Failing(e))
      ensures loads == old(loads)[i := old(loads[i]).(phase := Failing(e))]
    {
      assert LoadOk(View(), i);
      InvPhase(View(), i, Failing(e));
      loads := loads[i := loads[i].(phase := Failing(e))];
    }

    /** The text has arrived: compile it, evaluate it, publish it, list its exports,
        up to the callback.  Its body was never evaluated before, and the module is
        in the cache exactly when the body ran to its end. */
    method TextArrived(i: nat, ended: Ended)
      requires Valid() && Enabled(View(), Fetched(i, ended))
      modifies this`loads, this`cache, this`ran
      ensures Valid() && View() == Next(old(View()), Fetched(i, ended))
      ensures i !in old(ran) && ran == old(ran) + if ended.Uncompiled? then [] else [i]
      ensures loads == old(loads)[i := old(loads[i]).(phase :=
        match ended
        case Uncompiled(e) => Failing(e)
        case BodyThrew(e) => Failing(e)
        case NoExports => Failing(Textual)
        case Completed => TellLoaded)]
      ensures cache ==
        if ended.NoExports? || ended.Completed? then old(cache)[old(loads[i].url) := Module] else old(cache)
      ensures EntryOf(View(), loads[i].url) == Some(Module) <==> ended.NoExports? || ended.Completed?
      ensures forall u :: Forward(old(EntryOf(View(), u)), EntryOf(View(), u))
    {
      ghost var m := View();
      FetchedFacts(m, i, ended);
      if !ended.Uncompiled? { ran := ran + [i]; }
      if ended.NoExports? || ended.Completed? { cache := cache[loads[i].url := Module]; }
      var phase :=
        match ended
        case Uncompiled(e) => Failing(e)
        case BodyThrew(e) => Failing(e)
        case NoExports => Failing(Textual)
        case Completed => TellLoaded;
      loads := loads[i := loads[i].(phase := phase)];
      assert View() == AfterFetch(m, i, ended);
    }

    /** The chain's `catch`, up to the callback.  It takes an entry back exactly
        when the module was in the cache already. */
    method CatchRuns(i: nat)
      requires Valid() && Enabled(View(), Caught(i))
      modifies this`loads, this`cache
      ensures Valid() && View() == Next(old(View()), Caught(i))
      ensures var textless := old(loads[i].phase.e) == Textless;
        && loads == old(loads)[i := old(loads[i]).(phase := if textless then Rejected(Textual) else TellFailed)]
        && cache == if textless then old(cache) else old(cache)[old(loads[i].url) := Error]
      ensures forall u :: u != loads[i].url ==> EntryOf(View(), u) == old(EntryOf(View(), u))
      ensures (forall u :: Forward(old(EntryOf(View(), u)), EntryOf(View(), u))) <==> !old(DoomedAt(View(), i))
      ensures loads[i].phase.Rejected? <==> old(loads[i].phase.e) == Textless
    {
      ghost var m, ev := View(), Caught(i);
      InvStep(m, ev);
      StepForwardIff(m, ev);
      if loads[i].phase.e == Textless {
        loads := loads[i := loads[i].(phase := Rejected(Textual))];
        return;
      }
      cache := cache[loads[i].url := Error];
      loads := loads[i := loads[i].(phase := TellFailed)];
      assert View() == Next(m, ev);
    }

    /** The callback has returned or thrown.  The cache is as it was; the promise
        resolves exactly when the callback returned, and is settled unless it
        threw on a module that was loaded. */
    method CallbackDone(i: nat, threw: Option<Exception>)
      requires Valid() && Enabled(View(), Told(i, threw))
      modifies this`loads
      ensures Valid() && View() == Next(old(View()), Told(i, threw))
      ensures loads == old(loads)[i := old(loads[i]).(phase :=
        if threw.None? then Resolved
        else if old(loads[i].phase) == TellLoaded then Failing(threw.value)
        else Rejected(threw.value))]
      ensures loads[i].phase == Resolved <==> threw.None?
      ensures Settled(loads[i]) <==> threw.None? || old(EntryOf(View(), loads[i].url)) == Some(Error)
    {
      ghost var m, ev := View(), Told(i, threw);
      assert LoadOk(m, i);
      InvStep(m, ev);
      var phase :=
        if threw.None? then Resolved
        else if loads[i].phase == TellLoaded then Failing(threw.value)
        else Rejected(threw.value);
      loads := loads[i := loads[i].(phase := phase)];
    }
  }
}
