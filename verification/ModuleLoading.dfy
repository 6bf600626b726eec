/** External modules (external.ts): every URL is loaded by one promise chain,
    which may wait for the compiler and for the load requested before it.  The
    chains advance in any order; requests arrive at any time. */
module ModuleLoading {
  import opened JsText

  datatype Kind = Js | Jsx

  /** How far one promise chain has come.  `TellLoaded` and `TellFailed` are the
      moments after the cache is written and before the callback returns;
      `Failing` is an exception on its way to the chain's `catch`. */
  datatype Phase =
    | Waiting | Fetching | TellLoaded | Failing(e: Exception) | TellFailed
    | Resolved | Rejected(reason: Exception)

  datatype Load = Load(url: string, after: Option<nat>, needsCompiler: bool, phase: Phase)

  /** The cache of the original: `null` while loading. */
  datatype Entry = InFlight | Module | Error

  datatype Compiler = Unasked | Asked | Usable | Broken

  /** `ran` lists the loads whose body was evaluated, in order. */
  datatype Modules = Modules(
    loads: seq<Load>, pending: map<string, nat>, cache: map<string, Entry>, compiler: Compiler, ran: seq<nat>)

  const EMPTY := Modules([], map[], map[], Unasked, [])

  /** How the third stage of a chain ends: the compiler rejects the source, the
      body throws, it leaves `null` or `undefined` for its exports, which cannot be
      listed once the module is in the cache, or it runs through. */
  datatype Ended = Uncompiled(e: Exception) | BodyThrew(e: Exception) | NoExports | Completed

  /** `Caught` is the `catch` of a chain; `Told` says what the callback threw. */
  datatype Event =
    | Request(kind: Kind, url: string, after: Option<nat>, compilerPresent: bool)
    | CompilerDone(ok: bool)
    | Start(i: nat)
    | Abort(i: nat, e: Exception)
    | FetchFailed(i: nat, e: Exception)
    | Fetched(i: nat, ended: Ended)
    | Caught(i: nat)
    | Told(i: nat, threw: Option<Exception>)

  predicate IsRequest(ev: Event) { ev.Request? }

  predicate Settled(l: Load) { l.phase.Resolved? || l.phase.Rejected? }

  /** `load`: one chain a URL; the promise returned is the chain's index. */
  function AfterRequest(m: Modules, kind: Kind, url: string, after: Option<nat>, compilerPresent: bool): Modules {
    if url in m.pending then m
    else
      var needs := kind == Jsx && !compilerPresent;
      m.(loads := m.loads + [Load(url, after, needs, Waiting)],
         pending := m.pending[url := |m.loads|],
         cache := m.cache[url := InFlight],
         compiler := if needs && m.compiler == Unasked then Asked else m.compiler)
  }

  function SetPhase(m: Modules, i: nat, p: Phase): Modules
    requires i < |m.loads|
  {
    m.(loads := m.loads[i := m.loads[i].(phase := p)])
  }

  function SetEntry(m: Modules, i: nat, e: Entry): Modules
    requires i < |m.loads|
  {
    m.(cache := m.cache[m.loads[i].url := e])
  }

  /** The `catch` of a chain.  It writes the exception's text into the cache; where
      there is none it throws itself, an error that has one. */
  function Catch(m: Modules, i: nat): Modules
    requires i < |m.loads| && m.loads[i].phase.Failing?
  {
    if m.loads[i].phase.e == Textless then SetPhase(m, i, Rejected(Textual))
    else SetPhase(SetEntry(m, i, Error), i, TellFailed)
  }

  predicate CompilerOk(m: Modules, l: Load) { l.needsCompiler ==> m.compiler == Usable }

  predicate CanStart(m: Modules, i: nat) {
    && i < |m.loads| && m.loads[i].phase == Waiting
    && CompilerOk(m, m.loads[i])
    && (m.loads[i].after.Some? ==>
          m.loads[i].after.value < |m.loads| && m.loads[m.loads[i].after.value].phase == Resolved)
  }

  /** What a chain waits for has failed: the compiler, with an event, or the load
      before it, with that one's reason. */
  predicate CanAbort(m: Modules, i: nat, e: Exception) {
    && i < |m.loads| && m.loads[i].phase == Waiting
    && ((m.loads[i].needsCompiler && m.compiler == Broken && e == Textual) ||
        (m.loads[i].after.Some? && m.loads[i].after.value < |m.loads| &&
         m.loads[m.loads[i].after.value].phase == Rejected(e)))
  }

  predicate Enabled(m: Modules, ev: Event) {
    match ev
    case Request(_, _, after, _) => after.Some? ==> after.value < |m.loads|
    case CompilerDone(_) => m.compiler == Asked
    case Start(i) => CanStart(m, i)
    case Abort(i, e) => CanAbort(m, i, e)
    case FetchFailed(i, _) => i < |m.loads| && m.loads[i].phase == Fetching
    case Fetched(i, _) => i < |m.loads| && m.loads[i].phase == Fetching
    case Caught(i) => i < |m.loads| && m.loads[i].phase.Failing?
    case Told(i, _) => i < |m.loads| && (m.loads[i].phase == TellLoaded || m.loads[i].phase == TellFailed)
  }

  /** The text has arrived: compiled, evaluated, published, listed. */
  function AfterFetch(m: Modules, i: nat, ended: Ended): Modules
    requires i < |m.loads|
  {
    match ended
    case Uncompiled(e) => SetPhase(m, i, Failing(e))
    case BodyThrew(e) => SetPhase(m.(ran := m.ran + [i]), i, Failing(e))
    case NoExports => SetPhase(SetEntry(m.(ran := m.ran + [i]), i, Module), i, Failing(Textual))
    case Completed => SetPhase(SetEntry(m.(ran := m.ran + [i]), i, Module), i, TellLoaded)
  }

  /** After the callback: one that throws sends a loaded module to the catch, and
      rejects the promise of a failed one. */
  function AfterCallback(m: Modules, i: nat, threw: Option<Exception>): Modules
    requires i < |m.loads|
  {
    if threw.None? then SetPhase(m, i, Resolved)
    else if m.loads[i].phase == TellLoaded then SetPhase(m, i, Failing(threw.value))
    else SetPhase(m, i, Rejected(threw.value))
  }

  function Next(m: Modules, ev: Event): Modules
    requires Enabled(m, ev)
  {
    match ev
    case Request(kind, url, after, present) => AfterRequest(m, kind, url, after, present)
    case CompilerDone(ok) => m.(compiler := if ok then Usable else Broken)
    case Start(i) => SetPhase(m, i, Fetching)
    case Abort(i, e) => SetPhase(m, i, Failing(e))
    case FetchFailed(i, e) => SetPhase(m, i, Failing(e))
    case Fetched(i, ended) => AfterFetch(m, i, ended)
    case Caught(i) => Catch(m, i)
    case Told(i, threw) => AfterCallback(m, i, threw)
  }

  predicate RunEnabled(m: Modules, evs: seq<Event>)
    decreases |evs|
  {
    evs == [] || (Enabled(m, evs[0]) && RunEnabled(Next(m, evs[0]), evs[1..]))
  }

  function Run(m: Modules, evs: seq<Event>): Modules
    requires RunEnabled(m, evs)
    decreases |evs|
  {
    if evs == [] then m else Run(Next(m, evs[0]), evs[1..])
  }

  // ---------- the invariant ----------

  /** What the cache holds for a URL whose chain is in a given phase. */
  predicate EntryFits(p: Phase, e: Entry) {
    match p
    case Waiting => e == InFlight
    case Fetching => e == InFlight
    case TellLoaded => e == Module
    case Failing(_) => e == InFlight || e == Module
    case TellFailed => e == Error
    case Resolved => e == Module || e == Error
    case Rejected(_) => true
  }

  predicate LoadOk(m: Modules, i: nat)
    requires i < |m.loads|
  {
    var l := m.loads[i];
    && l.url in m.pending && m.pending[l.url] == i
    && l.url in m.cache && EntryFits(l.phase, m.cache[l.url])
    && (l.after.Some? ==> l.after.value < i)
    && (l.after.Some? && i in m.ran ==> m.loads[l.after.value].phase == Resolved)
    && (l.after.Some? && l.phase == Fetching ==> m.loads[l.after.value].phase == Resolved)
    && (l.phase == Fetching || l.phase == TellLoaded ==> CompilerOk(m, l))
    && (l.needsCompiler ==> m.compiler != Unasked)
    && ((l.phase == Waiting || l.phase == Fetching) ==> i !in m.ran)
    && (m.cache[l.url] == Module ==> i in m.ran)
  }

  predicate Distinct(s: seq<nat>) { forall i, j :: 0 <= i < j < |s| ==> s[i] != s[j] }

  predicate Inv(m: Modules) {
    && (forall i :: 0 <= i < |m.loads| ==> LoadOk(m, i))
    && (forall u :: u in m.pending ==> m.pending[u] < |m.loads| && m.loads[m.pending[u]].url == u)
    && m.cache.Keys == m.pending.Keys
    && (forall k :: 0 <= k < |m.ran| ==> m.ran[k] < |m.loads|)
    && Distinct(m.ran)
  }

  /** A step on one chain leaves the others' facts alone. */
  lemma InvLocal(m: Modules, i: nat, p: Phase, e: Entry, run: bool)
    requires Inv(m) && i < |m.loads| && !Settled(m.loads[i])
    requires EntryFits(p, e) && (run ==> m.loads[i].phase == Fetching)
    requires p == Fetching ==> CanStart(m, i)
    requires p == TellLoaded ==> m.loads[i].phase == Fetching
    requires p == Waiting ==> m.loads[i].phase == Waiting
    requires (p == Waiting || p == Fetching) ==> !run
    requires e == Module ==> run || EntryOf(m, m.loads[i].url) == Some(Module)
    ensures Inv(SetPhase(SetEntry(if run then m.(ran := m.ran + [i]) else m, i, e), i, p))
  {
    var m1 := if run then m.(ran := m.ran + [i]) else m;
    var m' := SetPhase(SetEntry(m1, i, e), i, p);
    assert LoadOk(m, i);
    assert m'.cache.Keys == m.pending.Keys;
    assert Distinct(m'.ran) by { assert run ==> i !in m.ran; }
    forall u | u in m'.pending ensures m'.loads[m'.pending[u]].url == u { assert m.loads[m.pending[u]].url == u; }
    forall k | 0 <= k < |m'.loads| ensures LoadOk(m', k) {
      assert LoadOk(m, k) && LoadOk(m, i);
      assert k != i ==> m.loads[k].url != m.loads[i].url;
      assert k in m1.ran <==> (run && k == i) || k in m.ran;
    }
  }

  /** A step that leaves cache and evaluations alone. */
  lemma InvPhase(m: Modules, i: nat, p: Phase)
    requires Inv(m) && i < |m.loads| && !Settled(m.loads[i])
    requires m.loads[i].url in m.cache ==> EntryFits(p, m.cache[m.loads[i].url])
    requires p == Fetching ==> CanStart(m, i)
    requires p != TellLoaded && p != Waiting
    ensures Inv(SetPhase(m, i, p))
  {
    assert LoadOk(m, i);
    InvLocal(m, i, p, m.cache[m.loads[i].url], false);
    SameEntry(m, i);
  }

  lemma InvRequest(m: Modules, kind: Kind, url: string, after: Option<nat>, present: bool)
    requires Inv(m) && (after.Some? ==> after.value < |m.loads|)
    ensures Inv(AfterRequest(m, kind, url, after, present))
  {
    var m' := AfterRequest(m, kind, url, after, present);
    if url !in m.pending {
      forall k | 0 <= k < |m'.loads| ensures LoadOk(m', k) {
        if k < |m.loads| {
          assert LoadOk(m, k);
        }
      }
    }
  }

  lemma InvStep(m: Modules, ev: Event)
    requires Inv(m) && Enabled(m, ev)
    ensures Inv(Next(m, ev))
  {
    match ev
    case Request(kind, url, after, present) => InvRequest(m, kind, url, after, present);
    case CompilerDone(ok) =>
      forall k | 0 <= k < |m.loads| ensures LoadOk(Next(m, ev), k) { assert LoadOk(m, k); }
    case Start(i) =>
      assert LoadOk(m, i);
      InvPhase(m, i, Fetching);
    case Abort(i, e) =>
      assert LoadOk(m, i);
      InvPhase(m, i, Failing(e));
    case FetchFailed(i, e) =>
      assert LoadOk(m, i);
      InvPhase(m, i, Failing(e));
    case Fetched(i, ended) => InvFetched(m, i, ended);
    case Caught(i) =>
      assert LoadOk(m, i);
      if m.loads[i].phase.e == Textless {
        InvPhase(m, i, Rejected(Textual));
      } else {
        InvLocal(m, i, TellFailed, Error, false);
      }
    case Told(i, threw) =>
      assert LoadOk(m, i);
      InvPhase(m, i, AfterCallback(m, i, threw).loads[i].phase);
  }

  lemma InvFetched(m: Modules, i: nat, ended: Ended)
    requires Inv(m) && i < |m.loads| && m.loads[i].phase == Fetching
    ensures Inv(AfterFetch(m, i, ended))
  {
    assert LoadOk(m, i);
    match ended
    case Uncompiled(e) => InvPhase(m, i, Failing(e));
    case BodyThrew(e) =>
      InvLocal(m, i, Failing(e), InFlight, true);
      SameEntry(m.(ran := m.ran + [i]), i);
    case NoExports => InvLocal(m, i, Failing(Textual), Module, true);
    case Completed => InvLocal(m, i, TellLoaded, Module, true);
  }

  lemma SameEntry(m: Modules, i: nat)
    requires i < |m.loads| && m.loads[i].url in m.cache
    ensures SetEntry(m, i, m.cache[m.loads[i].url]) == m
  {
    assert m.cache[m.loads[i].url := m.cache[m.loads[i].url]] == m.cache;
  }

  lemma {:induction false} InvRun(m: Modules, evs: seq<Event>)
    requires Inv(m) && RunEnabled(m, evs)
    ensures Inv(Run(m, evs))
    decreases |evs|
  {
    if evs == [] {
    } else {
      InvStep(m, evs[0]);
      InvRun(Next(m, evs[0]), evs[1..]);
    }
  }

  // ---------- once ----------

  /** Over every interleaving, callbacks that throw included: no URL's body is
      evaluated twice, and no two chains load the same URL. */
  lemma EvaluatedOnce(evs: seq<Event>)
    requires RunEnabled(EMPTY, evs)
    ensures var m := Run(EMPTY, evs);
      && (forall j :: 0 <= j < |m.ran| ==> m.ran[j] < |m.loads|)
      && (forall j, k :: 0 <= j < k < |m.ran| ==> m.loads[m.ran[j]].url != m.loads[m.ran[k]].url)
      && (forall i, j :: 0 <= i < j < |m.loads| ==> m.loads[i].url != m.loads[j].url)
  {
    InvRun(EMPTY, evs);
    var m := Run(EMPTY, evs);
    forall i, j | 0 <= i < j < |m.loads| ensures m.loads[i].url != m.loads[j].url {
      assert LoadOk(m, i) && LoadOk(m, j);
    }
  }

  // ---------- the cache never goes back ----------

  /** A URL's cache entry before and after: absent, then in flight, then final. */
  predicate Forward(before: Option<Entry>, after: Option<Entry>) {
    before == after || before.None? || (before == Some(InFlight) && after.Some?)
  }

  function EntryOf(m: Modules, u: string): Option<Entry> {
    if u in m.cache then Some(m.cache[u]) else None
  }

  ghost predicate StepForward(m: Modules, ev: Event)
    requires Enabled(m, ev)
  {
    forall u :: Forward(EntryOf(m, u), EntryOf(Next(m, ev), u))
  }

  ghost predicate AllForward(m: Modules, evs: seq<Event>)
    requires RunEnabled(m, evs)
    decreases |evs|
  {
    evs == [] || (StepForward(m, evs[0]) && AllForward(Next(m, evs[0]), evs[1..]))
  }

  /** What makes a loaded module fail after all: it leaves `null` or `undefined`
      for its exports, or the callback throws on it. */
  predicate Spoils(m: Modules, ev: Event)
    requires Enabled(m, ev)
  {
    || (ev.Fetched? && ev.ended.NoExports?)
    || (ev.Told? && ev.threw == Some(Textual) && m.loads[ev.i].phase == TellLoaded)
  }

  predicate Spoiled(m: Modules, evs: seq<Event>)
    requires RunEnabled(m, evs)
    decreases |evs|
  {
    evs != [] && (Spoils(m, evs[0]) || Spoiled(Next(m, evs[0]), evs[1..]))
  }

  /** A module is in the cache, but an exception is on its way to overwrite it. */
  predicate DoomedAt(m: Modules, i: nat) {
    i < |m.loads| && m.loads[i].phase == Failing(Textual) && EntryOf(m, m.loads[i].url) == Some(Module)
  }

  ghost predicate Doomed(m: Modules) { exists i: nat :: DoomedAt(m, i) }

  /** No exception is on its way. */
  predicate AllCaught(m: Modules) { forall i :: 0 <= i < |m.loads| ==> !m.loads[i].phase.Failing? }

  /** An entry goes back in one step only: the catch of a doomed load. */
  lemma StepForwardIff(m: Modules, ev: Event)
    requires Inv(m) && Enabled(m, ev)
    ensures StepForward(m, ev) <==> !(ev.Caught? && DoomedAt(m, ev.i))
  {
    if !ev.Request? && !ev.CompilerDone? {
      assert LoadOk(m, ev.i);
      var u := m.loads[ev.i].url;
      if ev.Caught? && DoomedAt(m, ev.i) { assert !Forward(EntryOf(m, u), EntryOf(Next(m, ev), u)); }
    }
  }

  /** A step leaves alone the chains it does not belong to, and their entries. */
  lemma OthersKeep(m: Modules, ev: Event, i: nat)
    requires Inv(m) && Enabled(m, ev) && i < |m.loads| && (ev.Request? || ev.CompilerDone? || ev.i != i)
    ensures var m' := Next(m, ev); var u := m.loads[i].url;
      i < |m'.loads| && m'.loads[i] == m.loads[i] && EntryOf(m', u) == EntryOf(m, u)
  {
    assert LoadOk(m, i);
    if !ev.Request? && !ev.CompilerDone? { assert LoadOk(m, ev.i); }
  }

  /** What the arrival of a text does to cache and evaluations. */
  lemma FetchedFacts(m: Modules, i: nat, ended: Ended)
    requires Inv(m) && Enabled(m, Fetched(i, ended))
    ensures var m' := Next(m, Fetched(i, ended)); var u := m.loads[i].url;
      && Inv(m') && i !in m.ran && (m'.ran == m.ran || m'.ran == m.ran + [i])
      && (EntryOf(m', u) == Some(Module) <==> ended.NoExports? || ended.Completed?)
      && (forall w :: Forward(EntryOf(m, w), EntryOf(m', w)))
  {
    assert LoadOk(m, i);
    InvStep(m, Fetched(i, ended));
    StepForwardIff(m, Fetched(i, ended));
  }

  /** A load is doomed until it is caught, and by nothing but a step that spoils it. */
  lemma DoomedStep(m: Modules, ev: Event, i: nat)
    requires Inv(m) && Enabled(m, ev)
    ensures DoomedAt(Next(m, ev), i) <==>
      (DoomedAt(m, i) && ev != Caught(i)) || (Spoils(m, ev) && ev.i == i)
  {
    if i < |m.loads| {
      assert LoadOk(m, i);
      if ev.Request? || ev.CompilerDone? || ev.i != i { OthersKeep(m, ev, i); }
    }
  }

  lemma ForwardStep(m: Modules, ev: Event)
    requires Inv(m) && Enabled(m, ev)
    ensures StepForward(m, ev) && !Doomed(Next(m, ev)) <==> !Doomed(m) && !Spoils(m, ev)
  {
    StepForwardIff(m, ev);
    forall i: nat { DoomedStep(m, ev, i); }
    if Spoils(m, ev) { assert DoomedAt(Next(m, ev), ev.i); }
    forall i: nat | DoomedAt(m, i) ensures !StepForward(m, ev) || DoomedAt(Next(m, ev), i) {}
  }

  lemma {:induction false} ForwardRun(m: Modules, evs: seq<Event>)
    requires Inv(m) && RunEnabled(m, evs)
    ensures !Doomed(m) && !Spoiled(m, evs) ==> AllForward(m, evs)
    ensures AllForward(m, evs) && AllCaught(Run(m, evs)) ==> !Doomed(m) && !Spoiled(m, evs)
    decreases |evs|
  {
    if evs != [] {
      InvStep(m, evs[0]);
      ForwardStep(m, evs[0]);
      ForwardRun(Next(m, evs[0]), evs[1..]);
    } else if AllCaught(m) {
      assert forall i: nat :: !DoomedAt(m, i);
    }
  }

  /** Over every interleaving the cache goes only from absent to in flight to
      final, unless a loaded module has no exports to list or makes the callback
      throw; and then, once every exception has been caught, it has gone back. */
  lemma CacheForwardIff(evs: seq<Event>)
    requires RunEnabled(EMPTY, evs)
    ensures !Spoiled(EMPTY, evs) ==> AllForward(EMPTY, evs)
    ensures AllCaught(Run(EMPTY, evs)) ==> (AllForward(EMPTY, evs) <==> !Spoiled(EMPTY, evs))
  {
    assert forall i: nat :: !DoomedAt(EMPTY, i);
    ForwardRun(EMPTY, evs);
  }

  /** A module in the cache, or an error, stays there to the end of a run that
      spoils nothing. */
  lemma {:induction false} CacheFinal(m: Modules, evs: seq<Event>, u: string)
    requires Inv(m) && RunEnabled(m, evs) && !Doomed(m) && !Spoiled(m, evs)
    requires EntryOf(m, u) == Some(Module) || EntryOf(m, u) == Some(Error)
    ensures EntryOf(Run(m, evs), u) == EntryOf(m, u)
    decreases |evs|
  {
    if evs == [] {
    } else {
      InvStep(m, evs[0]);
      ForwardStep(m, evs[0]);
      assert Forward(EntryOf(m, u), EntryOf(Next(m, evs[0]), u));
      CacheFinal(Next(m, evs[0]), evs[1..], u);
    }
  }

  lemma RunFirst(m: Modules, ev: Event, rest: seq<Event>)
    requires Enabled(m, ev) && RunEnabled(Next(m, ev), rest)
    ensures RunEnabled(m, [ev] + rest) && Run(m, [ev] + rest) == Run(Next(m, ev), rest)
  {
    assert ([ev] + rest)[1..] == rest;
  }

  lemma RunTwo(m: Modules, e0: Event, e1: Event)
    requires Enabled(m, e0) && Enabled(Next(m, e0), e1)
    ensures RunEnabled(m, [e0, e1]) && Run(m, [e0, e1]) == Next(Next(m, e0), e1)
  {
    RunFirst(Next(m, e0), e1, []);
    RunFirst(m, e0, [e1] + []);
    assert [e0] + ([e1] + []) == [e0, e1];
  }

  /** The first load there is, when its text has arrived. */
  lemma FirstFetched(url: string, ended: Ended) returns (m: Modules)
    ensures var evs := [Request(Js, url, None, true), Start(0)];
      && RunEnabled(EMPTY, evs) && m == Run(EMPTY, evs)
      && m.loads == [Load(url, None, false, Fetching)] && m.cache == map[url := InFlight]
      && Enabled(m, Fetched(0, ended))
  {
    RunTwo(EMPTY, Request(Js, url, None, true), Start(0));
    m := Run(EMPTY, [Request(Js, url, None, true), Start(0)]);
  }

  /** Exports that are `null`: the module is in the cache, then it has failed, and
      no callback was called in between. */
  lemma NoExportsGoesBack(url: string)
    ensures var evs := [Request(Js, url, None, true), Start(0)]; var ev := Fetched(0, NoExports);
      && RunEnabled(EMPTY, evs) && Enabled(Run(EMPTY, evs), ev)
      && var m := Next(Run(EMPTY, evs), ev);
        EntryOf(m, url) == Some(Module) && Enabled(m, Caught(0)) && EntryOf(Next(m, Caught(0)), url) == Some(Error)
  {
    var m := FirstFetched(url, NoExports);
  }

  // ---------- rejection ----------

  /** A promise is rejected, or an exception without a text will reject it. */
  predicate LostAt(m: Modules, i: nat) {
    i < |m.loads| && (m.loads[i].phase.Rejected? || m.loads[i].phase == Failing(Textless))
  }

  ghost predicate Lost(m: Modules) { exists i: nat :: LostAt(m, i) }

  /** The compiler, the network, a body or a callback throws what has no text, or
      a callback throws when it is told of a failure. */
  predicate Rejects(m: Modules, ev: Event)
    requires Enabled(m, ev)
  {
    match ev
    case FetchFailed(_, e) => e == Textless
    case Fetched(_, ended) => ended == Uncompiled(Textless) || ended == BodyThrew(Textless)
    case Told(i, threw) => threw.Some? && (threw.value == Textless || m.loads[i].phase == TellFailed)
    case _ => false
  }

  predicate EverRejects(m: Modules, evs: seq<Event>)
    requires RunEnabled(m, evs)
    decreases |evs|
  {
    evs != [] && (Rejects(m, evs[0]) || EverRejects(Next(m, evs[0]), evs[1..]))
  }

  lemma LostStep(m: Modules, ev: Event)
    requires Enabled(m, ev)
    ensures Lost(Next(m, ev)) <==> Lost(m) || Rejects(m, ev)
  {
    var m' := Next(m, ev);
    forall i: nat | LostAt(m, i) ensures LostAt(m', i) {}
    if Rejects(m, ev) { assert LostAt(m', ev.i); }
    forall i: nat | LostAt(m', i) ensures Lost(m) || Rejects(m, ev) {
      if ev == Abort(i, Textless) {
        assert LostAt(m, m.loads[i].after.value);
      } else {
        assert LostAt(m, i) || Rejects(m, ev);
      }
    }
  }

  lemma {:induction false} LostRun(m: Modules, evs: seq<Event>)
    requires RunEnabled(m, evs)
    ensures Lost(Run(m, evs)) <==> Lost(m) || EverRejects(m, evs)
    decreases |evs|
  {
    if evs == [] {
    } else {
      LostStep(m, evs[0]);
      LostRun(Next(m, evs[0]), evs[1..]);
    }
  }

  /** Over every interleaving, once every exception has been caught: some promise
      that callers wait on is rejected exactly when something without a text was
      thrown, or a callback threw that was told of a failure. */
  lemma RejectedIff(evs: seq<Event>)
    requires RunEnabled(EMPTY, evs) && AllCaught(Run(EMPTY, evs))
    ensures (exists i :: 0 <= i < |Run(EMPTY, evs).loads| && Run(EMPTY, evs).loads[i].phase.Rejected?)
            <==> EverRejects(EMPTY, evs)
  {
    LostRun(EMPTY, evs);
    var m := Run(EMPTY, evs);
    assert forall i: nat :: !LostAt(EMPTY, i);
    if Lost(m) {
      var i: nat :| LostAt(m, i);
      assert m.loads[i].phase.Rejected?;
    }
    forall i | 0 <= i < |m.loads| && m.loads[i].phase.Rejected? ensures Lost(m) { assert LostAt(m, i); }
  }

  /** A body that throws an object without a prototype: the catch throws too, the
      promise is rejected, and the cache says for ever that the module is loading. */
  lemma TextlessNeverEnds(url: string)
    ensures var evs := [Request(Js, url, None, true), Start(0)]; var ev := Fetched(0, BodyThrew(Textless));
      && RunEnabled(EMPTY, evs) && Enabled(Run(EMPTY, evs), ev)
      && var m := Next(Run(EMPTY, evs), ev);
        Enabled(m, Caught(0)) && Next(m, Caught(0)).loads[0].phase == Rejected(Textual)
        && EntryOf(Next(m, Caught(0)), url) == Some(InFlight)
  {
    var m := FirstFetched(url, BodyThrew(Textless));
  }

  // ---------- order ----------

  /** Which load runs before which. */
  predicate RanBefore(m: Modules, j: nat, i: nat) {
    exists a, b :: 0 <= a < b < |m.ran| && m.ran[a] == j && m.ran[b] == i
  }

  predicate Ordered(m: Modules) {
    forall i :: 0 <= i < |m.loads| && i in m.ran && m.loads[i].after.Some? ==>
      m.loads[i].after.value in m.ran ==> RanBefore(m, m.loads[i].after.value, i)
  }

  /** Appending to the list of evaluated loads keeps the order there is. */
  lemma RanBeforeGrows(m: Modules, m': Modules, j: nat, i: nat)
    requires RanBefore(m, j, i) && |m.ran| <= |m'.ran| && m'.ran[..|m.ran|] == m.ran
    ensures RanBefore(m', j, i)
  {
    var a, b :| 0 <= a < b < |m.ran| && m.ran[a] == j && m.ran[b] == i;
    assert m'.ran[a] == m'.ran[..|m.ran|][a] && m'.ran[b] == m'.ran[..|m.ran|][b];
  }

  lemma RanBeforeLast(m: Modules, j: nat)
    requires m.ran != [] && j in m.ran[..|m.ran| - 1]
    ensures RanBefore(m, j, m.ran[|m.ran| - 1])
  {
    var a :| 0 <= a < |m.ran| - 1 && m.ran[..|m.ran| - 1][a] == j;
    assert m.ran[a] == j;
  }

  /** What a step can do to the list of evaluated loads. */
  lemma RanStep(m: Modules, ev: Event)
    requires Enabled(m, ev)
    ensures var m' := Next(m, ev);
      && |m.loads| <= |m'.loads| && (forall k :: 0 <= k < |m.loads| ==> m'.loads[k].after == m.loads[k].after)
      && (m'.ran == m.ran || (ev.Fetched? && m.loads[ev.i].phase == Fetching && m'.ran == m.ran + [ev.i]))
  {
  }

  lemma OrderedOne(m: Modules, ev: Event, i: nat)
    requires Inv(m) && Enabled(m, ev) && Ordered(m) && i < |m.loads|
    requires var m' := Next(m, ev); i in m'.ran && m.loads[i].after.Some? && m.loads[i].after.value in m'.ran
    ensures RanBefore(Next(m, ev), m.loads[i].after.value, i)
  {
    var m', j := Next(m, ev), m.loads[i].after.value;
    RanStep(m, ev);
    assert LoadOk(m, i);
    assert m.loads[j].phase == Resolved;
    assert j in m.ran;
    if i in m.ran {
      assert m'.ran[..|m.ran|] == m.ran;
      RanBeforeGrows(m, m', j, i);
    } else {
      assert m'.ran[..|m'.ran| - 1] == m.ran;
      RanBeforeLast(m', j);
    }
  }

  lemma OrderedStep(m: Modules, ev: Event)
    requires Inv(m) && Enabled(m, ev) && Ordered(m)
    ensures Ordered(Next(m, ev))
  {
    var m' := Next(m, ev);
    RanStep(m, ev);
    forall i | 0 <= i < |m'.loads| && i in m'.ran && m'.loads[i].after.Some? && m'.loads[i].after.value in m'.ran
      ensures RanBefore(m', m'.loads[i].after.value, i)
    {
      assert i < |m.loads|;
      OrderedOne(m, ev, i);
    }
  }

  lemma {:induction false} OrderedRun(m: Modules, evs: seq<Event>)
    requires Inv(m) && RunEnabled(m, evs) && Ordered(m)
    ensures Ordered(Run(m, evs))
    decreases |evs|
  {
    if evs == [] {
    } else {
      InvStep(m, evs[0]);
      OrderedStep(m, evs[0]);
      OrderedRun(Next(m, evs[0]), evs[1..]);
    }
  }

  /** A load requested after another runs only once that one has resolved, and
      after it; a load whose predecessor was rejected never runs. */
  lemma ChainOrder(evs: seq<Event>, i: nat)
    requires RunEnabled(EMPTY, evs)
    requires var m := Run(EMPTY, evs); i < |m.loads| && m.loads[i].after.Some? && i in m.ran
    ensures var m := Run(EMPTY, evs); var j := m.loads[i].after.value;
      j < i && m.loads[j].phase == Resolved && (j in m.ran ==> RanBefore(m, j, i))
  {
    InvRun(EMPTY, evs);
    OrderedRun(EMPTY, evs);
    assert LoadOk(Run(EMPTY, evs), i);
  }

  /** What was compiled was compiled by a compiler that is there. */
  predicate Compiled(m: Modules) {
    forall i :: 0 <= i < |m.loads| && i in m.ran ==> CompilerOk(m, m.loads[i])
  }

  lemma CompiledStep(m: Modules, ev: Event)
    requires Inv(m) && Enabled(m, ev) && Compiled(m)
    ensures Compiled(Next(m, ev))
  {
    var m' := Next(m, ev);
    RanStep(m, ev);
    forall i | 0 <= i < |m'.loads| && i in m'.ran ensures CompilerOk(m', m'.loads[i]) {
      if i < |m.loads| { assert LoadOk(m, i); }
    }
  }

  lemma {:induction false} CompiledRun(m: Modules, evs: seq<Event>)
    requires Inv(m) && RunEnabled(m, evs) && Compiled(m)
    ensures Compiled(Run(m, evs))
    decreases |evs|
  {
    if evs == [] {
    } else {
      InvStep(m, evs[0]);
      CompiledStep(m, evs[0]);
      CompiledRun(Next(m, evs[0]), evs[1..]);
    }
  }

  /** Over every interleaving the body of a load that needs the compiler is evaluated
      only once the compiler is usable, and it stays so. */
  lemma CompilerFirst(evs: seq<Event>, i: nat)
    requires RunEnabled(EMPTY, evs)
    requires var m := Run(EMPTY, evs); i < |m.loads| && m.loads[i].needsCompiler && i in m.ran
    ensures Run(EMPTY, evs).compiler == Usable
  {
    CompiledRun(EMPTY, evs);
    assert CompilerOk(Run(EMPTY, evs), Run(EMPTY, evs).loads[i]);
  }

  // ---------- lists of URLs ----------

  /** The first `n` URLs of a list, each requested after the one before it. */
  function ChainUpto(m: Modules, kindOf: string -> Kind, urls: seq<string>, present: bool, n: nat): (r: Modules)
    requires n <= |urls|
    ensures n > 0 ==> urls[n - 1] in r.pending
  {
    if n == 0 then m
    else
      var r := ChainUpto(m, kindOf, urls, present, n - 1);
      var prev := if n == 1 then None else Some(r.pending[urls[n - 2]]);
      AfterRequest(r, kindOf(urls[n - 1]), urls[n - 1], prev, present)
  }

  /** Requests only add. */
  predicate Extends(a: Modules, b: Modules) {
    && |a.loads| <= |b.loads| && (forall i :: 0 <= i < |a.loads| ==> b.loads[i] == a.loads[i])
    && (forall u :: u in a.pending ==> u in b.pending && b.pending[u] == a.pending[u])
    && b.ran == a.ran
  }

  lemma ExtendsTransitive(a: Modules, b: Modules, c: Modules)
    requires Extends(a, b) && Extends(b, c)
    ensures Extends(a, c)
  {
  }

  lemma {:induction false} ChainInv(m: Modules, kindOf: string -> Kind, urls: seq<string>, present: bool, n: nat)
    requires n <= |urls| && Inv(m)
    ensures Inv(ChainUpto(m, kindOf, urls, present, n))
  {
    if n == 0 {
    } else {
      ChainInv(m, kindOf, urls, present, n - 1);
      var r := ChainUpto(m, kindOf, urls, present, n - 1);
      InvRequest(r, kindOf(urls[n - 1]), urls[n - 1], if n == 1 then None else Some(r.pending[urls[n - 2]]), present);
    }
  }

  lemma {:induction false} ChainExtends(m: Modules, kindOf: string -> Kind, urls: seq<string>, present: bool,
                                        k: nat, n: nat)
    requires k <= n <= |urls|
    ensures Extends(ChainUpto(m, kindOf, urls, present, k), ChainUpto(m, kindOf, urls, present, n))
    decreases n - k
  {
    if k == n {
    } else {
      ChainExtends(m, kindOf, urls, present, k + 1, n);
      var a, b := ChainUpto(m, kindOf, urls, present, k), ChainUpto(m, kindOf, urls, present, k + 1);
      assert Extends(a, b);
      ExtendsTransitive(a, b, ChainUpto(m, kindOf, urls, present, n));
    }
  }

  lemma {:induction false} ChainKeys(m: Modules, kindOf: string -> Kind, urls: seq<string>, present: bool,
                                     n: nat, u: string)
    requires n <= |urls|
    ensures u in ChainUpto(m, kindOf, urls, present, n).pending <==> u in m.pending || u in urls[..n]
  {
    if n == 0 {
    } else {
      ChainKeys(m, kindOf, urls, present, n - 1, u);
      assert urls[..n] == urls[..n - 1] + [urls[n - 1]];
    }
  }

  /** A URL that is new in a list waits for its predecessor in the list. */
  lemma ChainWaits(m: Modules, kindOf: string -> Kind, urls: seq<string>, present: bool, k: nat)
    requires k < |urls| && urls[k] !in m.pending && urls[k] !in urls[..k] && Inv(m)
    ensures var r := ChainUpto(m, kindOf, urls, present, |urls|);
      && urls[k] in r.pending && r.pending[urls[k]] < |r.loads|
      && (k > 0 ==> urls[k - 1] in r.pending)
      && r.loads[r.pending[urls[k]]].phase == Waiting
      && r.loads[r.pending[urls[k]]].after == if k == 0 then None else Some(r.pending[urls[k - 1]])
  {
    var a, b := ChainUpto(m, kindOf, urls, present, k), ChainUpto(m, kindOf, urls, present, k + 1);
    ChainKeys(m, kindOf, urls, present, k, urls[k]);
    assert b.pending[urls[k]] == |a.loads| && |b.loads| == |a.loads| + 1;
    assert b.loads[|a.loads|].after == if k == 0 then None else Some(a.pending[urls[k - 1]]);
    ChainExtends(m, kindOf, urls, present, k, k + 1);
    ChainExtends(m, kindOf, urls, present, k + 1, |urls|);
  }

  /** One that was requested before keeps the chain it has, and waits for nothing more. */
  lemma ChainKeeps(m: Modules, kindOf: string -> Kind, urls: seq<string>, present: bool, k: nat)
    requires k < |urls| && urls[k] in m.pending && Inv(m)
    ensures var r := ChainUpto(m, kindOf, urls, present, |urls|); var u := urls[k];
      && Inv(r) && u in r.pending && r.pending[u] == m.pending[u]
      && r.loads[r.pending[u]] == m.loads[m.pending[u]] && r.ran == m.ran
  {
    ChainInv(m, kindOf, urls, present, |urls|);
    ChainExtends(m, kindOf, urls, present, 0, |urls|);
  }

  // ---------- no deadlock ----------

  function Rank(p: Phase): nat {
    match p
    case Waiting => 5
    case Fetching => 4
    case TellLoaded => 3
    case Failing(_) => 2
    case TellFailed => 1
    case _ => 0
  }

  function Ranks(loads: seq<Load>): nat {
    if loads == [] then 0 else Rank(loads[|loads| - 1].phase) + Ranks(loads[..|loads| - 1])
  }

  /** An upper bound on the steps left without new requests. */
  function Work(m: Modules): nat {
    Ranks(m.loads) + if m.compiler == Asked then 1 else 0
  }

  lemma {:induction false} RanksUpdate(loads: seq<Load>, i: nat, l: Load)
    requires i < |loads|
    ensures Ranks(loads[i := l]) + Rank(loads[i].phase) == Ranks(loads) + Rank(l.phase)
  {
    var n := |loads| - 1;
    if i == n {
      assert loads[i := l][..n] == loads[..n];
    } else {
      assert loads[i := l][..n] == loads[..n][i := l];
      RanksUpdate(loads[..n], i, l);
    }
  }

  lemma {:induction false} RanksZero(loads: seq<Load>)
    ensures Ranks(loads) == 0 <==> forall i :: 0 <= i < |loads| ==> Settled(loads[i])
  {
    if loads == [] {
    } else {
      var n := |loads| - 1;
      RanksZero(loads[..n]);
      assert Settled(loads[n]) <==> Rank(loads[n].phase) == 0;
      assert forall i :: 0 <= i < n ==> loads[..n][i] == loads[i];
    }
  }

  lemma RankFalls(m: Modules, ev: Event)
    requires Enabled(m, ev) && !ev.Request? && !ev.CompilerDone?
    ensures var m' := Next(m, ev);
      && m'.compiler == m.compiler && m'.loads == m.loads[ev.i := m'.loads[ev.i]]
      && Rank(m'.loads[ev.i].phase) < Rank(m.loads[ev.i].phase)
  {
  }

  /** Every step but a request brings the end nearer. */
  lemma WorkDecreases(m: Modules, ev: Event)
    requires Enabled(m, ev) && !IsRequest(ev)
    ensures Work(Next(m, ev)) < Work(m)
  {
    if !ev.CompilerDone? {
      RankFalls(m, ev);
      RanksUpdate(m.loads, ev.i, Next(m, ev).loads[ev.i]);
    }
  }

  /** The first load that is not settled can move, or the compiler it waits for can. */
  lemma Progress(m: Modules) returns (ev: Event)
    requires Inv(m) && exists i :: 0 <= i < |m.loads| && !Settled(m.loads[i])
    ensures Enabled(m, ev) && !IsRequest(ev)
  {
    var i := 0;
    while Settled(m.loads[i])
      invariant 0 <= i < |m.loads| && (forall k :: 0 <= k < i ==> Settled(m.loads[k]))
      invariant exists k :: i <= k < |m.loads| && !Settled(m.loads[k])
      decreases |m.loads| - i
    {
      i := i + 1;
    }
    assert LoadOk(m, i);
    var l := m.loads[i];
    assert l.after.Some? ==> Settled(m.loads[l.after.value]);
    ev :=
      if l.phase == Fetching then FetchFailed(i, Textual)
      else if l.phase == TellLoaded || l.phase == TellFailed then Told(i, None)
      else if l.phase.Failing? then Caught(i)
      else if l.needsCompiler && m.compiler == Broken then Abort(i, Textual)
      else if l.after.Some? && m.loads[l.after.value].phase.Rejected? then
        Abort(i, m.loads[l.after.value].phase.reason)
      else if CanStart(m, i) then Start(i)
      else CompilerDone(true);
  }

  /** From every reachable state, runs without new requests are at most `Work`
      long, and one that cannot go on has settled every load: no deadlock. */
  lemma {:induction false} AllSettle(m: Modules, evs: seq<Event>)
    requires Inv(m) && RunEnabled(m, evs) && forall k :: 0 <= k < |evs| ==> !IsRequest(evs[k])
    ensures |evs| <= Work(m)
    ensures (forall ev :: Enabled(Run(m, evs), ev) ==> IsRequest(ev)) ==>
      forall i :: 0 <= i < |Run(m, evs).loads| ==> Settled(Run(m, evs).loads[i])
    decreases |evs|
  {
    if evs != [] {
      InvStep(m, evs[0]);
      WorkDecreases(m, evs[0]);
      AllSettle(Next(m, evs[0]), evs[1..]);
    } else if exists i :: 0 <= i < |m.loads| && !Settled(m.loads[i]) {
      var ev := Progress(m);
    }
  }
}
