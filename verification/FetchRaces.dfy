/** The component registry under racing writers (registry.ts, runtime.ts): sibling
    fetches, pushes from the editor and evaluations of logic source that can
    start further evaluations, in any interleaving. */
module FetchRaces {
  import opened JsText

  /** How an evaluation of logic source ends. */
  datatype Outcome = Class(id: nat) | NoClass | Threw(e: Exception)

  datatype Entry = Entry(
    html: string, logic: Option<nat>, logicError: bool,
    htmlStreaming: bool, jsStreaming: bool,
    fetched: bool, jsSeq: nat, ver: nat)

  /** What `get` creates for a name it has not seen. */
  const FRESH := Entry("", None, false, false, false, false, 0, 0)

  /** One evaluation: for whom, its sequence number, and whether a sibling fetch
      started it.  `outcome` is set when it ends. */
  datatype Eval = Eval(name: string, seqNo: nat, sibling: bool, outcome: Option<Outcome>)

  /** `fetches` lists the names fetched, in order; `arrived` those that are done. */
  datatype Registry = Registry(
    entries: map<string, Entry>, fetches: seq<string>, arrived: set<nat>, evals: seq<Eval>)

  const EMPTY_REGISTRY := Registry(map[], [], {}, [])

  /** The parts of a fetched component; the empty text stands for an absent part. */
  datatype Parsed = Parsed(template: string, js: string)

  datatype Event =
    | EnsureFetched(name: string)
    | MarkFetched(name: string)
    | Arrived(k: nat, parsed: Option<Parsed>)
    | PushHtml(name: string, content: string, streaming: bool)
    | PushJs(name: string, streaming: bool)
    | Adopt(name: string, parts: Parsed)
    | EvalEnds(i: nat, outcome: Outcome)

  function Get(r: Registry, name: string): Entry {
    if name in r.entries then r.entries[name] else FRESH
  }

  function Put(r: Registry, name: string, e: Entry): Registry {
    r.(entries := r.entries[name := e])
  }

  function UpdateHtml(r: Registry, name: string, html: string): Registry {
    var e := Get(r, name);
    Put(r, name, e.(html := html, ver := e.ver + 1))
  }

  /** `updateJs` up to the evaluation. */
  function StartJs(r: Registry, name: string, sibling: bool): Registry {
    var e := Get(r, name);
    Put(r, name, e.(jsSeq := e.jsSeq + 1)).(evals := r.evals + [Eval(name, e.jsSeq + 1, sibling, None)])
  }

  /** `updateJs` from there on: only the evaluation started last writes, and not if
      it threw what has no text. */
  function EndJs(r: Registry, i: nat, o: Outcome): Registry
    requires i < |r.evals|
  {
    var v := r.evals[i];
    var e := Get(r, v.name);
    var r1 := r.(evals := r.evals[i := v.(outcome := Some(o))]);
    if e.jsSeq != v.seqNo || o == Threw(Textless) then r1
    else Put(r1, v.name,
             if o.Class? then e.(logic := Some(o.id), logicError := false, ver := e.ver + 1)
             else e.(logicError := true, ver := e.ver + 1))
  }

  /** The end of a sibling fetch: what is missing is filled in. */
  function Fill(r: Registry, name: string, p: Parsed): Registry {
    var r1 := if p.template != "" && Get(r, name).html == "" then UpdateHtml(r, name, p.template) else r;
    if p.js != "" && Get(r1, name).logic.None? then StartJs(r1, name, true) else r1
  }

  function SetStreaming(r: Registry, name: string, html: bool, on: bool): Registry {
    var e := Get(r, name);
    var e1 := if html then e.(htmlStreaming := on) else e.(jsStreaming := on);
    Put(r, name, e1.(fetched := e.fetched || on, ver := e.ver + 1))
  }

  predicate Enabled(r: Registry, ev: Event) {
    match ev
    case Arrived(k, _) => k < |r.fetches| && k !in r.arrived
    case EvalEnds(i, _) => i < |r.evals| && r.evals[i].outcome.None?
    case _ => true
  }

  function Next(r: Registry, ev: Event): Registry
    requires Enabled(r, ev)
  {
    match ev
    case EnsureFetched(name) =>
      var e := Get(r, name);
      if e.fetched then r.(entries := r.entries[name := e])
      else Put(r, name, e.(fetched := true)).(fetches := r.fetches + [name])
    case MarkFetched(name) => Put(r, name, Get(r, name).(fetched := true))
    case Arrived(k, parsed) =>
      var r1 := r.(arrived := r.arrived + {k});
      if parsed.None? then r1 else Fill(r1, r.fetches[k], parsed.value)
    case PushHtml(name, content, streaming) => UpdateHtml(SetStreaming(r, name, true, streaming), name, content)
    case PushJs(name, streaming) =>
      var r1 := SetStreaming(r, name, false, streaming);
      if streaming then r1 else StartJs(r1, name, false)
    case Adopt(name, p) =>
      var r1 := if p.template != "" then UpdateHtml(r, name, p.template) else r;
      if p.js != "" then StartJs(r1, name, false) else r1
    case EvalEnds(i, o) => EndJs(r, i, o)
  }

  predicate RunEnabled(r: Registry, evs: seq<Event>)
    decreases |evs|
  {
    evs == [] || (Enabled(r, evs[0]) && RunEnabled(Next(r, evs[0]), evs[1..]))
  }

  function Run(r: Registry, evs: seq<Event>): Registry
    requires RunEnabled(r, evs)
    decreases |evs|
  {
    if evs == [] then r else Run(Next(r, evs[0]), evs[1..])
  }

  // ---------- invariants ----------

  /** An evaluation is known by name and number; the newest number is the entry's. */
  ghost predicate EvalOk(r: Registry, i: nat)
    requires i < |r.evals|
  {
    var v := r.evals[i];
    && 1 <= v.seqNo <= Get(r, v.name).jsSeq
    && (v.seqNo == Get(r, v.name).jsSeq && v.sibling && v.outcome.None? ==> Get(r, v.name).logic.None?)
    && (v.seqNo == Get(r, v.name).jsSeq && v.outcome.Some? && v.outcome.value != Threw(Textless) ==>
          Shows(Get(r, v.name), v.outcome.value))
  }

  /** An entry shows how an evaluation ended. */
  predicate Shows(e: Entry, o: Outcome) {
    if o.Class? then e.logic == Some(o.id) && !e.logicError else e.logicError
  }

  ghost predicate Inv(r: Registry) {
    && (forall i :: 0 <= i < |r.evals| ==> EvalOk(r, i))
    && (forall i, j :: 0 <= i < j < |r.evals| && r.evals[i].name == r.evals[j].name ==>
          r.evals[i].seqNo < r.evals[j].seqNo)
    && (forall k :: 0 <= k < |r.fetches| ==> Get(r, r.fetches[k]).fetched)
    && NoRepeat(r.fetches)
  }

  predicate NoRepeat(s: seq<string>) { forall j, k :: 0 <= j < k < |s| ==> s[j] != s[k] }

  lemma InvStartJs(r: Registry, name: string, sibling: bool)
    requires Inv(r) && (sibling ==> Get(r, name).logic.None?)
    ensures Inv(StartJs(r, name, sibling))
  {
    var r' := StartJs(r, name, sibling);
    forall i | 0 <= i < |r'.evals| ensures EvalOk(r', i) {
      if i < |r.evals| { assert EvalOk(r, i); }
    }
    forall i, j | 0 <= i < j < |r'.evals| && r'.evals[i].name == r'.evals[j].name
      ensures r'.evals[i].seqNo < r'.evals[j].seqNo
    {
      assert EvalOk(r, i);
    }
  }

  lemma InvEndJs(r: Registry, i: nat, o: Outcome)
    requires Inv(r) && i < |r.evals| && r.evals[i].outcome.None?
    ensures Inv(EndJs(r, i, o))
  {
    var r' := EndJs(r, i, o);
    forall j | 0 <= j < |r'.evals| ensures EvalOk(r', j) {
      assert EvalOk(r, i) && EvalOk(r, j);
      assert r'.evals[j].name == r.evals[j].name && r'.evals[j].seqNo == r.evals[j].seqNo;
      assert i != j && r.evals[i].name == r.evals[j].name ==> r.evals[i].seqNo != r.evals[j].seqNo;
    }
  }

  /** Writing anything but logic, error and number leaves the evaluations' facts. */
  lemma InvPut(r: Registry, name: string, e: Entry)
    requires Inv(r)
    requires var d := Get(r, name);
      e.logic == d.logic && e.logicError == d.logicError && e.jsSeq == d.jsSeq && (d.fetched ==> e.fetched)
    ensures Inv(Put(r, name, e))
  {
    var r' := Put(r, name, e);
    forall i | 0 <= i < |r'.evals| ensures EvalOk(r', i) { assert EvalOk(r, i); }
  }

  lemma InvFill(r: Registry, name: string, p: Parsed)
    requires Inv(r)
    ensures Inv(Fill(r, name, p))
  {
    var e := Get(r, name);
    if p.template != "" && e.html == "" { InvPut(r, name, e.(html := p.template, ver := e.ver + 1)); }
    var r1 := if p.template != "" && e.html == "" then UpdateHtml(r, name, p.template) else r;
    if p.js != "" && Get(r1, name).logic.None? { InvStartJs(r1, name, true); }
  }

  lemma InvStreaming(r: Registry, name: string, html: bool, on: bool)
    requires Inv(r)
    ensures Inv(SetStreaming(r, name, html, on))
  {
    var e := Get(r, name);
    var e1 := if html then e.(htmlStreaming := on) else e.(jsStreaming := on);
    InvPut(r, name, e1.(fetched := e.fetched || on, ver := e.ver + 1));
  }

  lemma InvHtml(r: Registry, name: string, html: string)
    requires Inv(r)
    ensures Inv(UpdateHtml(r, name, html))
  {
    var e := Get(r, name);
    InvPut(r, name, e.(html := html, ver := e.ver + 1));
  }

  lemma InvFetch(r: Registry, name: string)
    requires Inv(r)
    ensures Inv(Next(r, EnsureFetched(name)))
  {
    var e := Get(r, name);
    InvPut(r, name, e.(fetched := true));
    InvPut(r, name, e);
    if !e.fetched {
      var r' := Next(r, EnsureFetched(name));
      forall i | 0 <= i < |r'.evals| ensures EvalOk(r', i) { assert EvalOk(r, i); }
      forall k | 0 <= k < |r.fetches| ensures r.fetches[k] != name { assert Get(r, r.fetches[k]).fetched; }
    }
  }

  lemma InvArrived(r: Registry, k: nat)
    requires Inv(r)
    ensures Inv(r.(arrived := r.arrived + {k}))
  {
    forall i | 0 <= i < |r.evals| ensures EvalOk(r.(arrived := r.arrived + {k}), i) { assert EvalOk(r, i); }
  }

  lemma InvStep(r: Registry, ev: Event)
    requires Inv(r) && Enabled(r, ev)
    ensures Inv(Next(r, ev))
  {
    match ev
    case EnsureFetched(name) => InvFetch(r, name);
    case MarkFetched(name) => InvPut(r, name, Get(r, name).(fetched := true));
    case Arrived(k, parsed) =>
      InvArrived(r, k);
      if parsed.Some? { InvFill(r.(arrived := r.arrived + {k}), r.fetches[k], parsed.value); }
    case PushHtml(name, content, streaming) =>
      InvStreaming(r, name, true, streaming);
      InvHtml(SetStreaming(r, name, true, streaming), name, content);
    case PushJs(name, streaming) =>
      InvStreaming(r, name, false, streaming);
      if !streaming { InvStartJs(SetStreaming(r, name, false, streaming), name, false); }
    case Adopt(name, p) =>
      InvHtml(r, name, p.template);
      if p.js != "" { InvStartJs(if p.template != "" then UpdateHtml(r, name, p.template) else r, name, false); }
    case EvalEnds(i, o) => InvEndJs(r, i, o);
  }

  lemma {:induction false} InvRun(r: Registry, evs: seq<Event>)
    requires Inv(r) && RunEnabled(r, evs)
    ensures Inv(Run(r, evs))
    decreases |evs|
  {
    if evs == [] {
    } else {
      InvStep(r, evs[0]);
      InvRun(Next(r, evs[0]), evs[1..]);
    }
  }

  // ---------- the guarantees ----------

  /** Over every interleaving no name is sibling-fetched twice. */
  lemma FetchedOnce(evs: seq<Event>)
    requires RunEnabled(EMPTY_REGISTRY, evs)
    ensures NoRepeat(Run(EMPTY_REGISTRY, evs).fetches)
  {
    InvRun(EMPTY_REGISTRY, evs);
  }

  /** The step belongs to a sibling fetch: its arrival, or the end of the
      evaluation that it started. */
  predicate SiblingStep(r: Registry, ev: Event)
    requires Enabled(r, ev)
  {
    ev.Arrived? || (ev.EvalEnds? && r.evals[ev.i].sibling)
  }

  /** In every reachable state a sibling fetch replaces neither html that is there
      nor logic that is installed, for any name, even if the logic arrived while
      the fetched source was being evaluated. */
  lemma SiblingFillsOnly(evs: seq<Event>, ev: Event, n: string)
    requires RunEnabled(EMPTY_REGISTRY, evs) && Enabled(Run(EMPTY_REGISTRY, evs), ev)
    requires SiblingStep(Run(EMPTY_REGISTRY, evs), ev)
    ensures var r := Run(EMPTY_REGISTRY, evs); var before, after := Get(r, n), Get(Next(r, ev), n);
      && (before.html != "" ==> after.html == before.html)
      && (before.logic.Some? ==> after.logic == before.logic)
  {
    InvRun(EMPTY_REGISTRY, evs);
    var r := Run(EMPTY_REGISTRY, evs);
    if ev.EvalEnds? { assert EvalOk(r, ev.i); }
  }

  /** Another evaluation of the same name was started after this one. */
  predicate Overtaken(r: Registry, i: nat)
    requires i < |r.evals|
  {
    exists j :: i < j < |r.evals| && r.evals[j].name == r.evals[i].name
  }

  lemma OvertakenIff(r: Registry, i: nat)
    requires Inv(r) && Numbered(r) && i < |r.evals|
    ensures Overtaken(r, i) <==> r.evals[i].seqNo != Get(r, r.evals[i].name).jsSeq
  {
    var n := r.evals[i].name;
    assert EvalOk(r, i);
    assert NumberHeld(r, n);
    var j :| 0 <= j < |r.evals| && r.evals[j].name == n && r.evals[j].seqNo == Get(r, n).jsSeq;
    assert EvalOk(r, j);
    if Overtaken(r, i) {
      var k :| i < k < |r.evals| && r.evals[k].name == n;
      assert EvalOk(r, k);
    }
  }

  /** Of the evaluations of one name, however nested, once the one started last has
      ended, the entry shows its outcome, unless it threw what has no text. */
  lemma LatestStartedWins(evs: seq<Event>, i: nat)
    requires RunEnabled(EMPTY_REGISTRY, evs)
    requires var r := Run(EMPTY_REGISTRY, evs);
      i < |r.evals| && r.evals[i].outcome.Some? && r.evals[i].outcome.value != Threw(Textless) && !Overtaken(r, i)
    ensures var r := Run(EMPTY_REGISTRY, evs); Shows(Get(r, r.evals[i].name), r.evals[i].outcome.value)
  {
    var r := Run(EMPTY_REGISTRY, evs);
    InvRun(EMPTY_REGISTRY, evs);
    NumberedRun(EMPTY_REGISTRY, evs);
    OvertakenIff(r, i);
    assert EvalOk(r, i);
  }

  /** The end of an evaluation changes an entry exactly when it is the one started
      last for its name and did not throw what has no text. */
  lemma EndWritesIff(evs: seq<Event>, i: nat, o: Outcome)
    requires RunEnabled(EMPTY_REGISTRY, evs) && Enabled(Run(EMPTY_REGISTRY, evs), EvalEnds(i, o))
    ensures var r := Run(EMPTY_REGISTRY, evs);
      Next(r, EvalEnds(i, o)).entries != r.entries <==> !Overtaken(r, i) && o != Threw(Textless)
  {
    var r := Run(EMPTY_REGISTRY, evs);
    var r' := Next(r, EvalEnds(i, o));
    var n := r.evals[i].name;
    InvRun(EMPTY_REGISTRY, evs);
    NumberedRun(EMPTY_REGISTRY, evs);
    OvertakenIff(r, i);
    assert EvalOk(r, i);
    if !Overtaken(r, i) && o != Threw(Textless) { assert r'.entries[n].ver != r.entries[n].ver; }
  }

  /** Evaluations may have been started in between, but nothing was written. */
  predicate KeepsLogic(before: Entry, after: Entry) {
    before.logic == after.logic && before.logicError == after.logicError && before.jsSeq <= after.jsSeq
  }

  lemma FillLogic(r: Registry, name: string, p: Parsed, n: string)
    ensures KeepsLogic(Get(r, n), Get(Fill(r, name, p), n))
  {
    var r1 := if p.template != "" && Get(r, name).html == "" then UpdateHtml(r, name, p.template) else r;
    assert KeepsLogic(Get(r, n), Get(r1, n));
    assert KeepsLogic(Get(r1, n), Get(StartJs(r1, name, true), n));
  }

  lemma PushLogic(r: Registry, name: string, html: bool, on: bool, content: string, n: string)
    ensures var r1 := SetStreaming(r, name, html, on);
      && KeepsLogic(Get(r, n), Get(r1, n))
      && KeepsLogic(Get(r, n), Get(StartJs(r1, name, false), n))
      && KeepsLogic(Get(r, n), Get(UpdateHtml(r1, name, content), n))
  {
    assert KeepsLogic(Get(r, n), Get(SetStreaming(r, name, html, on), n));
  }

  /** Only the end of an evaluation writes logic or error. */
  lemma LogicStep(r: Registry, ev: Event, n: string)
    requires Enabled(r, ev) && !ev.EvalEnds?
    ensures KeepsLogic(Get(r, n), Get(Next(r, ev), n))
  {
    match ev
    case Arrived(k, parsed) =>
      if parsed.Some? { FillLogic(r.(arrived := r.arrived + {k}), r.fetches[k], parsed.value, n); }
    case PushHtml(name, content, streaming) => PushLogic(r, name, true, streaming, content, n);
    case PushJs(name, streaming) => PushLogic(r, name, false, streaming, "", n);
    case Adopt(name, p) =>
      var r1 := if p.template != "" then UpdateHtml(r, name, p.template) else r;
      assert KeepsLogic(Get(r, n), Get(r1, n));
      assert KeepsLogic(Get(r1, n), Get(StartJs(r1, name, false), n));
    case _ =>
  }

  /** And as long as an evaluation is the one started last, only its own end. */
  lemma KeepStep(r: Registry, ev: Event, i: nat)
    requires Inv(r) && Enabled(r, ev) && i < |r.evals| && r.evals[i].seqNo == Get(r, r.evals[i].name).jsSeq
    requires ev.EvalEnds? && ev.i == i ==> ev.outcome == Threw(Textless)
    ensures KeepsLogic(Get(r, r.evals[i].name), Get(Next(r, ev), r.evals[i].name))
  {
    if !ev.EvalEnds? {
      LogicStep(r, ev, r.evals[i].name);
    } else if ev.i != i && r.evals[ev.i].name == r.evals[i].name {
      assert r.evals[ev.i].seqNo != r.evals[i].seqNo;
    }
  }

  /** What steps do to evaluations: more are started, and an outcome stays. */
  lemma EvalStep(r: Registry, ev: Event, i: nat)
    requires Enabled(r, ev) && i < |r.evals|
    ensures var r' := Next(r, ev); var v := r.evals[i];
      && i < |r'.evals| && r'.evals[i].name == v.name && r'.evals[i].seqNo == v.seqNo
      && (r'.evals[i].outcome == if ev.EvalEnds? && ev.i == i then Some(ev.outcome) else v.outcome)
  {
  }

  lemma SeqStep(r: Registry, ev: Event, n: string)
    requires Enabled(r, ev)
    ensures Get(r, n).jsSeq <= Get(Next(r, ev), n).jsSeq
  {
    if !ev.EvalEnds? { LogicStep(r, ev, n); }
  }

  lemma {:induction false} EvalRun(r: Registry, evs: seq<Event>, i: nat)
    requires RunEnabled(r, evs) && i < |r.evals|
    ensures var r' := Run(r, evs); var v := r.evals[i];
      && i < |r'.evals| && r'.evals[i].name == v.name && r'.evals[i].seqNo == v.seqNo
      && (v.outcome.Some? ==> r'.evals[i].outcome == v.outcome)
      && Get(r, v.name).jsSeq <= Get(r', v.name).jsSeq
    decreases |evs|
  {
    if evs == [] {
    } else {
      EvalStep(r, evs[0], i);
      SeqStep(r, evs[0], r.evals[i].name);
      EvalRun(Next(r, evs[0]), evs[1..], i);
    }
  }

  /** Where the evaluation started last throws what has no text, the entry still
      shows, when it has ended, what it showed when the evaluation was started. */
  lemma {:induction false} TextlessKeeps(r: Registry, evs: seq<Event>, i: nat)
    requires Inv(r) && RunEnabled(r, evs) && i < |r.evals|
    requires var v := r.evals[i]; var r' := Run(r, evs);
      && i < |r'.evals| && r'.evals[i].outcome == Some(Threw(Textless))
      && v.seqNo == Get(r, v.name).jsSeq == Get(r', v.name).jsSeq
    ensures KeepsLogic(Get(r, r.evals[i].name), Get(Run(r, evs), r.evals[i].name))
    decreases |evs|
  {
    if evs == [] {
    } else {
      var r1 := Next(r, evs[0]);
      EvalStep(r, evs[0], i);
      SeqStep(r, evs[0], r.evals[i].name);
      EvalRun(r1, evs[1..], i);
      InvStep(r, evs[0]);
      KeepStep(r, evs[0], i);
      TextlessKeeps(r1, evs[1..], i);
    }
  }

  ghost predicate NumberHeld(r: Registry, n: string) {
    exists j :: 0 <= j < |r.evals| && r.evals[j].name == n && r.evals[j].seqNo == Get(r, n).jsSeq
  }

  /** The entry's number is that of an evaluation. */
  ghost predicate Numbered(r: Registry) {
    forall n :: Get(r, n).jsSeq > 0 ==> NumberHeld(r, n)
  }

  /** Evaluations and numbers as they were, outcomes aside. */
  lemma NumberedSame(r: Registry, r': Registry)
    requires Numbered(r) && |r'.evals| == |r.evals| && forall n :: Get(r', n).jsSeq == Get(r, n).jsSeq
    requires forall j :: 0 <= j < |r.evals| ==>
      r'.evals[j].name == r.evals[j].name && r'.evals[j].seqNo == r.evals[j].seqNo
    ensures Numbered(r')
  {
    forall n | Get(r', n).jsSeq > 0 ensures NumberHeld(r', n) {
      assert NumberHeld(r, n);
      var j :| 0 <= j < |r.evals| && r.evals[j].name == n && r.evals[j].seqNo == Get(r, n).jsSeq;
      assert r'.evals[j].name == n;
    }
  }

  lemma NumberedStart(r: Registry, name: string, sibling: bool)
    requires Numbered(r)
    ensures Numbered(StartJs(r, name, sibling))
  {
    var r' := StartJs(r, name, sibling);
    forall n | Get(r', n).jsSeq > 0 ensures NumberHeld(r', n) {
      if n == name {
        assert r'.evals[|r.evals|].name == n;
      } else {
        assert NumberHeld(r, n);
        var j :| 0 <= j < |r.evals| && r.evals[j].name == n && r.evals[j].seqNo == Get(r, n).jsSeq;
        assert r'.evals[j] == r.evals[j];
      }
    }
  }

  lemma NumberedFill(r: Registry, name: string, p: Parsed)
    requires Numbered(r)
    ensures Numbered(Fill(r, name, p))
  {
    var r1 := if p.template != "" && Get(r, name).html == "" then UpdateHtml(r, name, p.template) else r;
    NumberedSame(r, r1);
    if p.js != "" && Get(r1, name).logic.None? { NumberedStart(r1, name, true); }
  }

  lemma NumberedAdopt(r: Registry, name: string, p: Parsed)
    requires Numbered(r)
    ensures Numbered(Next(r, Adopt(name, p)))
  {
    var r1 := if p.template != "" then UpdateHtml(r, name, p.template) else r;
    NumberedSame(r, r1);
    if p.js != "" { NumberedStart(r1, name, false); }
  }

  lemma NumberedStep(r: Registry, ev: Event)
    requires Numbered(r) && Enabled(r, ev)
    ensures Numbered(Next(r, ev))
  {
    match ev
    case Arrived(k, parsed) =>
      var r0 := r.(arrived := r.arrived + {k});
      NumberedSame(r, r0);
      if parsed.Some? { NumberedFill(r0, r.fetches[k], parsed.value); }
    case PushJs(name, streaming) =>
      NumberedSame(r, SetStreaming(r, name, false, streaming));
      if !streaming { NumberedStart(SetStreaming(r, name, false, streaming), name, false); }
    case Adopt(name, p) => NumberedAdopt(r, name, p);
    case _ => NumberedSame(r, Next(r, ev));
  }

  lemma {:induction false} NumberedRun(r: Registry, evs: seq<Event>)
    requires Numbered(r) && RunEnabled(r, evs)
    ensures Numbered(Run(r, evs))
    decreases |evs|
  {
    if evs == [] {
    } else {
      NumberedStep(r, evs[0]);
      NumberedRun(Next(r, evs[0]), evs[1..]);
    }
  }

  /** A change of html, logic or error shows in the version. */
  predicate Tells(before: Entry, after: Entry) {
    && before.ver <= after.ver
    && (before.html != after.html || before.logic != after.logic || before.logicError != after.logicError ==>
          before.ver < after.ver)
  }

  lemma FillTells(r: Registry, name: string, p: Parsed, n: string)
    ensures Tells(Get(r, n), Get(Fill(r, name, p), n))
  {
    var r1 := if p.template != "" && Get(r, name).html == "" then UpdateHtml(r, name, p.template) else r;
    assert Tells(Get(r, n), Get(r1, n));
    assert Tells(Get(r1, n), Get(StartJs(r1, name, true), n));
  }

  lemma PushTells(r: Registry, name: string, html: bool, on: bool, content: string, n: string)
    ensures Tells(Get(r, n), Get(SetStreaming(r, name, html, on), n))
    ensures Tells(Get(r, n), Get(UpdateHtml(SetStreaming(r, name, html, on), name, content), n))
    ensures Tells(Get(r, n), Get(StartJs(SetStreaming(r, name, html, on), name, false), n))
  {
    var e, r1 := Get(r, n), SetStreaming(r, name, html, on);
    assert Get(r1, n).ver >= e.ver && Get(r1, n).html == e.html && Get(r1, n).logic == e.logic;
  }

  lemma AdoptTells(r: Registry, name: string, p: Parsed, n: string)
    ensures Tells(Get(r, n), Get(Next(r, Adopt(name, p)), n))
  {
    var r1 := if p.template != "" then UpdateHtml(r, name, p.template) else r;
    assert Tells(Get(r, n), Get(r1, n));
    assert Tells(Get(r1, n), Get(StartJs(r1, name, false), n));
  }

  /** Whatever step changes html, logic or error of a name raises its version. */
  lemma VersionTells(r: Registry, ev: Event, n: string)
    requires Enabled(r, ev)
    ensures Tells(Get(r, n), Get(Next(r, ev), n))
  {
    match ev
    case Arrived(k, parsed) =>
      if parsed.Some? { FillTells(r.(arrived := r.arrived + {k}), r.fetches[k], parsed.value, n); }
    case PushHtml(name, content, streaming) => PushTells(r, name, true, streaming, content, n);
    case PushJs(name, streaming) => PushTells(r, name, false, streaming, "", n);
    case Adopt(name, p) => AdoptTells(r, name, p, n);
    case _ =>
  }

  // ---------- what a name shows over a run ----------

  ghost predicate Good(r: Registry) { Inv(r) && Numbered(r) }

  lemma GoodStep(r: Registry, ev: Event)
    requires Good(r) && Enabled(r, ev)
    ensures Good(Next(r, ev))
  {
    InvStep(r, ev);
    NumberedStep(r, ev);
  }

  /** What is shown for a name. */
  predicate SameShown(a: Entry, b: Entry) {
    a.html == b.html && a.logic == b.logic && a.logicError == b.logicError
  }

  /** What can be seen of a name: no numbers, no versions. */
  datatype Shown = Shown(
    html: string, logic: Option<nat>, failed: bool, htmlStreaming: bool, jsStreaming: bool, fetched: bool)

  function ShownOf(e: Entry): Shown {
    Shown(e.html, e.logic, e.logicError, e.htmlStreaming, e.jsStreaming, e.fetched)
  }

  /** What a step changes of what is seen of one name.  Of the evaluations only the
      order of their starts counts. */
  ghost function After(r: Registry, ev: Event, n: string, s: Shown): Shown
    requires Enabled(r, ev)
  {
    match ev
    case EnsureFetched(name) => if name == n then s.(fetched := true) else s
    case MarkFetched(name) => if name == n then s.(fetched := true) else s
    case Arrived(k, parsed) =>
      if r.fetches[k] == n && parsed.Some? && parsed.value.template != "" && s.html == ""
      then s.(html := parsed.value.template) else s
    case PushHtml(name, content, streaming) =>
      if name == n then s.(html := content, htmlStreaming := streaming, fetched := s.fetched || streaming) else s
    case PushJs(name, streaming) =>
      if name == n then s.(jsStreaming := streaming, fetched := s.fetched || streaming) else s
    case Adopt(name, p) => if name == n && p.template != "" then s.(html := p.template) else s
    case EvalEnds(i, o) =>
      if r.evals[i].name != n || Overtaken(r, i) then s
      else
        match o
        case Class(id) => s.(logic := Some(id), failed := false)
        case NoClass => s.(failed := true)
        case Threw(Textual) => s.(failed := true)
        case Threw(Textless) => s
  }

  ghost function ShownAfter(r: Registry, evs: seq<Event>, n: string, s: Shown): Shown
    requires RunEnabled(r, evs)
    decreases |evs|
  {
    if evs == [] then s else ShownAfter(Next(r, evs[0]), evs[1..], n, After(r, evs[0], n, s))
  }

  lemma FillShown(r: Registry, name: string, p: Parsed, n: string)
    ensures ShownOf(Get(Fill(r, name, p), n)) ==
      if name == n && p.template != "" && Get(r, n).html == ""
      then ShownOf(Get(r, n)).(html := p.template) else ShownOf(Get(r, n))
  {
    var r1 := if p.template != "" && Get(r, name).html == "" then UpdateHtml(r, name, p.template) else r;
    assert ShownOf(Get(StartJs(r1, name, true), n)) == ShownOf(Get(r1, n));
  }

  lemma PushShown(r: Registry, ev: Event, n: string)
    requires ev.PushHtml? || ev.PushJs? || ev.Adopt?
    ensures ShownOf(Get(Next(r, ev), n)) == After(r, ev, n, ShownOf(Get(r, n)))
  {
    match ev
    case PushHtml(name, content, streaming) =>
    case PushJs(name, streaming) =>
      var r1 := SetStreaming(r, name, false, streaming);
      assert ShownOf(Get(StartJs(r1, name, false), n)) == ShownOf(Get(r1, n));
    case Adopt(name, p) =>
      var r1 := if p.template != "" then UpdateHtml(r, name, p.template) else r;
      assert ShownOf(Get(StartJs(r1, name, false), n)) == ShownOf(Get(r1, n));
  }

  lemma EndShown(r: Registry, i: nat, o: Outcome, n: string)
    requires Good(r) && Enabled(r, EvalEnds(i, o))
    ensures ShownOf(Get(EndJs(r, i, o), n)) == After(r, EvalEnds(i, o), n, ShownOf(Get(r, n)))
  {
    OvertakenIff(r, i);
  }

  lemma HistoryStep(r: Registry, ev: Event, n: string)
    requires Good(r) && Enabled(r, ev)
    ensures ShownOf(Get(Next(r, ev), n)) == After(r, ev, n, ShownOf(Get(r, n)))
  {
    match ev
    case Arrived(k, parsed) =>
      if parsed.Some? { FillShown(r.(arrived := r.arrived + {k}), r.fetches[k], parsed.value, n); }
    case PushHtml(_, _, _) => PushShown(r, ev, n);
    case PushJs(_, _) => PushShown(r, ev, n);
    case Adopt(_, _) => PushShown(r, ev, n);
    case EvalEnds(i, o) => EndShown(r, i, o, n);
    case _ =>
  }

  lemma {:induction false} HistoryRun(r: Registry, evs: seq<Event>, n: string)
    requires Good(r) && RunEnabled(r, evs)
    ensures ShownOf(Get(Run(r, evs), n)) == ShownAfter(r, evs, n, ShownOf(Get(r, n)))
    decreases |evs|
  {
    if evs == [] {
    } else {
      HistoryStep(r, evs[0], n);
      GoodStep(r, evs[0]);
      HistoryRun(Next(r, evs[0]), evs[1..], n);
    }
  }

  /** Over every interleaving, what is seen of a name is this: the logic is the class
      of the last evaluation that ended with one while no later one had been started;
      an error stands exactly if one ended otherwise after it; html is what was
      pushed or adopted last, or else the first that a sibling fetch brought; the
      flags are those pushed last. */
  lemma History(evs: seq<Event>, n: string)
    requires RunEnabled(EMPTY_REGISTRY, evs)
    ensures ShownOf(Get(Run(EMPTY_REGISTRY, evs), n)) ==
      ShownAfter(EMPTY_REGISTRY, evs, n, Shown("", None, false, false, false, false))
  {
    HistoryRun(EMPTY_REGISTRY, evs, n);
  }

  /** For which name a step starts an evaluation: a finished push of logic does, the
      root's own logic, and a sibling's where none is installed. */
  ghost function StartedBy(r: Registry, ev: Event): Option<string>
    requires Enabled(r, ev)
  {
    match ev
    case PushJs(name, streaming) => if streaming then None else Some(name)
    case Adopt(name, p) => if p.js == "" then None else Some(name)
    case Arrived(k, parsed) =>
      if parsed.Some? && parsed.value.js != "" && ShownOf(Get(r, r.fetches[k])).logic == None
      then Some(r.fetches[k]) else None
    case _ => None
  }

  /** Evaluations are started by these steps alone, one at a time, and stay on record. */
  lemma StartsIff(r: Registry, ev: Event)
    requires Enabled(r, ev)
    ensures var r', n := Next(r, ev), StartedBy(r, ev);
      && |r'.evals| == |r.evals| + (if n.Some? then 1 else 0)
      && (n.Some? ==> r'.evals[|r.evals|].name == n.value && r'.evals[|r.evals|].outcome == None)
      && (n.Some? ==> r'.evals[|r.evals|].sibling == ev.Arrived?)
      && (forall j :: 0 <= j < |r.evals| ==> r'.evals[j].name == r.evals[j].name)
      && (forall j :: 0 <= j < |r.evals| ==>
            r'.evals[j].outcome == if ev.EvalEnds? && ev.i == j then Some(ev.outcome) else r.evals[j].outcome)
  {
    forall j | 0 <= j < |r.evals|
      ensures Next(r, ev).evals[j].name == r.evals[j].name
      ensures Next(r, ev).evals[j].outcome == if ev.EvalEnds? && ev.i == j then Some(ev.outcome) else r.evals[j].outcome
    {
      EvalStep(r, ev, j);
    }
  }

  // ---------- what the object's methods rely on ----------

  lemma FetchFacts(r: Registry, name: string)
    requires Good(r)
    ensures var r' := Next(r, EnsureFetched(name));
      && Good(r') && Get(r', name).fetched && (name in r.fetches ==> r'.fetches == r.fetches)
      && forall n :: SameShown(Get(r', n), Get(r, n))
  {
    GoodStep(r, EnsureFetched(name));
    forall k | 0 <= k < |r.fetches| && r.fetches[k] == name ensures Get(r, name).fetched {}
  }

  lemma HtmlFacts(r: Registry, name: string, html: string)
    requires Good(r)
    ensures var r' := UpdateHtml(r, name, html);
      && Good(r') && Get(r', name).html == html && Get(r', name).ver > Get(r, name).ver
      && (forall n :: SameShown(Get(r', n), Get(r, n).(html := Get(r', n).html)))
      && forall n :: n != name ==> Get(r', n) == Get(r, n)
  {
    InvHtml(r, name, html);
    NumberedSame(r, UpdateHtml(r, name, html));
  }

  lemma StreamingFacts(r: Registry, name: string, html: bool, on: bool)
    requires Good(r)
    ensures var r' := SetStreaming(r, name, html, on);
      && Good(r') && (on ==> Get(r', name).fetched) && Get(r', name).ver > Get(r, name).ver
      && (forall n :: SameShown(Get(r', n), Get(r, n)))
      && forall n :: Get(r, n).fetched ==> Get(r', n).fetched
  {
    InvStreaming(r, name, html, on);
    NumberedSame(r, SetStreaming(r, name, html, on));
  }

  /** A new evaluation overtakes those of its name; nothing that is shown changes. */
  lemma StartFacts(r: Registry, name: string, sibling: bool)
    requires Good(r) && (sibling ==> Get(r, name).logic.None?)
    ensures var r' := StartJs(r, name, sibling); var n := |r.evals|;
      && Good(r') && |r'.evals| == n + 1 && r'.evals[..n] == r.evals && !Overtaken(r', n)
      && (forall j :: 0 <= j < n && r'.evals[j].name == name ==> Overtaken(r', j))
      && (forall m :: SameShown(Get(r', m), Get(r, m)))
  {
    var r' := StartJs(r, name, sibling);
    InvStartJs(r, name, sibling);
    NumberedStart(r, name, sibling);
    assert r'.evals[|r.evals|].name == name;
  }

  /** An entry after the end of the evaluation that was started last. */
  function Ended(e: Entry, o: Outcome): Entry {
    match o
    case Class(id) => e.(logic := Some(id), logicError := false, ver := e.ver + 1)
    case _ => e.(logicError := true, ver := e.ver + 1)
  }

  lemma EndFacts(r: Registry, i: nat, o: Outcome)
    requires Good(r) && Enabled(r, EvalEnds(i, o))
    ensures var r' := Next(r, EvalEnds(i, o)); var n := r.evals[i].name;
      && Good(r')
      && (Overtaken(r, i) || o == Threw(Textless) ==> r'.entries == r.entries)
      && (!Overtaken(r, i) && o != Threw(Textless) ==> Get(r', n) == Ended(Get(r, n), o))
      && (forall m :: m != n ==> Get(r', m) == Get(r, m))
  {
    GoodStep(r, EvalEnds(i, o));
    OvertakenIff(r, i);
  }

  /** What a sibling fetch does to html and logic. */
  lemma FillFacts(r: Registry, k: nat, parsed: Option<Parsed>)
    requires Good(r) && Enabled(r, Arrived(k, parsed))
    ensures var r' := Next(r, Arrived(k, parsed));
      && Good(r') && (forall n :: n != r.fetches[k] ==> Get(r', n) == Get(r, n))
      && Filled(Get(r, r.fetches[k]), Get(r', r.fetches[k]), parsed)
      && |r'.evals| == |r.evals| + if StartedBy(r, Arrived(k, parsed)).Some? then 1 else 0
  {
    GoodStep(r, Arrived(k, parsed));
    StartsIff(r, Arrived(k, parsed));
    if parsed.Some? { FillShown(r.(arrived := r.arrived + {k}), r.fetches[k], parsed.value, r.fetches[k]); }
  }

  /** Html that is missing is filled in, and nothing else that is seen changes. */
  predicate Filled(before: Entry, after: Entry, parsed: Option<Parsed>) {
    && after.html == (if before.html == "" && parsed.Some? then parsed.value.template else before.html)
    && ShownOf(after) == ShownOf(before).(html := after.html)
  }

  /** What a push of logic does: nothing is shown, and nothing starts while it streams. */
  lemma PushFacts(r: Registry, name: string, streaming: bool)
    requires Good(r)
    ensures var r' := Next(r, PushJs(name, streaming)); var n := |r.evals|;
      && Good(r') && (forall m :: SameShown(Get(r', m), Get(r, m)))
      && (streaming ==> r'.evals == r.evals && Get(r', name).fetched)
      && (!streaming ==> |r'.evals| == n + 1 && !Overtaken(r', n))
      && (!streaming ==> forall j :: 0 <= j < n && r'.evals[j].name == name ==> Overtaken(r', j))
  {
    StreamingFacts(r, name, false, streaming);
    if !streaming { StartFacts(SetStreaming(r, name, false, streaming), name, false); }
  }
}
