/** The registry and the runtime's writers, updated in place.  Every method makes a
    step of FetchRaces and keeps its invariants, so what holds over every
    interleaving of steps holds for every object. */
module ComponentRuntime {
  import opened JsText
  import opened FetchRaces

  /** An entry object is what its name is mapped to: code that holds one across an
      evaluation looks its name up again. */
  class Runtime {
    var entries: map<string, Entry>
    var evals: seq<Eval>
    ghost var fetches: seq<string>
    ghost var arrived: set<nat>

    ghost function View(): Registry
      reads this
    {
      Registry(entries, fetches, arrived, evals)
    }

    ghost predicate Valid()
      reads this
    {
      Good(View())
    }

    constructor ()
      ensures Valid() && View() == EMPTY_REGISTRY
      ensures evals == [] && fetches == [] && arrived == {}
      ensures forall n :: Get(View(), n) == FetchRaces.Entry("", None, false, false, false, false, 0, 0)
    {
      entries, evals, fetches, arrived := map[], [], [], {};
    }

    /** `registry.get`: an entry is created for a new name. */
    method Entry(name: string) returns (e: FetchRaces.Entry)
      modifies this`entries
      ensures e == Get(old(View()), name) && entries == old(entries)[name := e]
    {
      if name !in entries { entries := entries[name := FRESH]; }
      e := entries[name];
      SameAgain(entries, name);
    }

    static lemma SameAgain(m: map<string, FetchRaces.Entry>, name: string)
      requires name in m
      ensures m[name := m[name]] == m
    {
    }

    static lemma Overwritten(m: map<string, FetchRaces.Entry>, name: string, a: FetchRaces.Entry, b: FetchRaces.Entry)
      ensures m[name := a][name := b] == m[name := b]
    {
    }

    method SetEntry(name: string, e: FetchRaces.Entry)
      modifies this`entries
      ensures entries == old(entries)[name := e]
    {
      entries := entries[name := e];
    }

    /** The fetch itself runs elsewhere; here it is on record that it was started.
        A name that was fetched is not fetched again. */
    method EnsureFetched(name: string)
      requires Valid()
      modifies this
      ensures Valid() && View() == Next(old(View()), FetchRaces.EnsureFetched(name))
      ensures NoRepeat(fetches) && (old(name in fetches) ==> fetches == old(fetches))
      ensures fetches == old(fetches) + if old(Get(View(), name).fetched) then [] else [name]
      ensures Get(View(), name) == old(Get(View(), name)).(fetched := true)
      ensures forall n :: n != name ==> Get(View(), n) == old(Get(View(), n))
      ensures evals == old(evals) && arrived == old(arrived)
    {
      FetchFacts(View(), name);
      var e := Entry(name);
      if e.fetched { return; }
      SetEntry(name, e.(fetched := true));
      Overwritten(old(entries), name, e, entries[name]);
      fetches := fetches + [name];
    }

    /** Html is written whatever is there; logic, error and running evaluations are
        left alone, and the version tells. */
    method UpdateHtml(name: string, html: string)
      requires Valid()
      modifies this`entries
      ensures Valid() && View() == FetchRaces.UpdateHtml(old(View()), name, html)
      ensures Get(View(), name) == old(Get(View(), name)).(html := html, ver := old(Get(View(), name).ver) + 1)
      ensures forall n :: n != name ==> Get(View(), n) == old(Get(View(), n))
    {
      HtmlFacts(View(), name, html);
      var e := Entry(name);
      SetEntry(name, e.(html := html, ver := e.ver + 1));
      Overwritten(old(entries), name, e, entries[name]);
    }

    /** `updateJs` up to the evaluation of the source, which may come back here.
        From now on every older evaluation of the name is overtaken, and nothing
        that is shown has changed. */
    method StartJs(name: string, sibling: bool) returns (i: nat)
      requires Valid() && (sibling ==> Get(View(), name).logic.None?)
      modifies this`entries, this`evals
      ensures Valid() && View() == FetchRaces.StartJs(old(View()), name, sibling)
      ensures i == |old(evals)| && |evals| == i + 1 && evals[..i] == old(evals) && !Overtaken(View(), i)
      ensures forall j :: 0 <= j < i && evals[j].name == name ==> Overtaken(View(), j)
      ensures evals[i].name == name && evals[i].sibling == sibling && evals[i].outcome == None
      ensures Get(View(), name) == old(Get(View(), name)).(jsSeq := old(Get(View(), name).jsSeq) + 1)
      ensures forall n :: n != name ==> Get(View(), n) == old(Get(View(), n))
    {
      ghost var r := View();
      StartFacts(r, name, sibling);
      var e := Entry(name);
      var seqNo := e.jsSeq + 1;
      SetEntry(name, e.(jsSeq := seqNo));
      Overwritten(old(entries), name, e, entries[name]);
      i := |evals|;
      evals := evals + [Eval(name, seqNo, sibling, None)];
      assert View() == FetchRaces.StartJs(r, name, sibling);
    }

    /** `updateJs` after the evaluation.  One that was overtaken, however long ago,
        changes no entry; nor does what has no text.  The one started last installs
        its class and clears the error; where it has none the error is recorded, and
        the class that was installed stays.  Nothing else changes, for any name. */
    method EndJs(i: nat, o: Outcome)
      requires Valid() && Enabled(View(), EvalEnds(i, o))
      modifies this`entries, this`evals
      ensures Valid() && View() == Next(old(View()), EvalEnds(i, o))
      ensures old(Overtaken(View(), i)) || o == Threw(Textless) ==> entries == old(entries)
      ensures var n := old(evals[i].name); var e := old(Get(View(), evals[i].name));
        && (!old(Overtaken(View(), i)) && o.Class? ==>
              Get(View(), n) == e.(logic := Some(o.id), logicError := false, ver := e.ver + 1))
        && (!old(Overtaken(View(), i)) && !o.Class? && o != Threw(Textless) ==>
              Get(View(), n) == e.(logicError := true, ver := e.ver + 1))
      ensures forall n :: n != old(evals[i].name) ==> Get(View(), n) == old(Get(View(), n))
      ensures evals == old(evals)[i := old(evals[i]).(outcome := Some(o))]
      ensures forall n :: Tells(old(Get(View(), n)), Get(View(), n))
    {
      EndFacts(View(), i, o);
      VersionsTell(View(), EvalEnds(i, o));
      var v := evals[i];
      evals := evals[i := v.(outcome := Some(o))];
      var e := if v.name in entries then entries[v.name] else FRESH;
      if e.jsSeq != v.seqNo || o == Threw(Textless) { return; }
      if o.Class? {
        SetEntry(v.name, e.(logic := Some(o.id), logicError := false, ver := e.ver + 1));
      } else {
        SetEntry(v.name, e.(logicError := true, ver := e.ver + 1));
      }
    }

    /** The continuation of a sibling fetch.  Html and logic that are there stay; what
        is missing is filled in, or its evaluation is started. */
    method SiblingArrived(ghost k: nat, name: string, parsed: Option<Parsed>)
      requires Valid() && Enabled(View(), Arrived(k, parsed)) && name == fetches[k]
      modifies this
      ensures Valid() && View() == Next(old(View()), Arrived(k, parsed))
      ensures forall n :: n != name ==> Get(View(), n) == old(Get(View(), n))
      ensures var before, after := old(Get(View(), name)), Get(View(), name);
        after == before.(html := if before.html == "" && parsed.Some? then parsed.value.template else before.html,
                         jsSeq := after.jsSeq, ver := after.ver)
      ensures var starts := parsed.Some? && parsed.value.js != "" && old(Get(View(), name).logic).None?;
        var i := |old(evals)|;
        && |evals| == i + (if starts then 1 else 0)
        && (starts ==> evals[i].name == name && evals[i].sibling && !Overtaken(View(), i))
    {
      ghost var r := View();
      FillFacts(r, k, parsed);
      InvArrived(r, k);
      NumberedSame(r, r.(arrived := r.arrived + {k}));
      arrived := arrived + {k};
      if parsed.None? { return; }
      var p := parsed.value;
      if p.template != "" && (name !in entries || entries[name].html == "") { UpdateHtml(name, p.template); }
      if p.js != "" && (name !in entries || entries[name].logic.None?) {
        var i := StartJs(name, true);
        assert evals[i].sibling;
      }
    }

    /** The streaming flags; a name that streams is never fetched as a sibling. */
    method SetStreaming(name: string, html: bool, on: bool)
      requires Valid()
      modifies this`entries
      ensures Valid() && View() == FetchRaces.SetStreaming(old(View()), name, html, on)
      ensures var e := old(Get(View(), name));
        Get(View(), name) == e.(htmlStreaming := if html then on else e.htmlStreaming,
                                jsStreaming := if html then e.jsStreaming else on,
                                fetched := e.fetched || on, ver := e.ver + 1)
      ensures forall n :: n != name ==> Get(View(), n) == old(Get(View(), n))
    {
      StreamingFacts(View(), name, html, on);
      var e := Entry(name);
      var e1 := if html then e.(htmlStreaming := on) else e.(jsStreaming := on);
      var e2 := e1.(fetched := e.fetched || on, ver := e.ver + 1);
      SetEntry(name, e2);
      Overwritten(old(entries), name, e, e2);
    }

    /** A push of html shows at once, streaming or not, and touches no logic. */
    method DcUpdateHtml(name: string, content: string, streaming: bool)
      requires Valid()
      modifies this
      ensures Valid() && View() == Next(old(View()), PushHtml(name, content, streaming))
      ensures var e := old(Get(View(), name));
        Get(View(), name) ==
          e.(html := content, htmlStreaming := streaming, fetched := e.fetched || streaming, ver := e.ver + 2)
      ensures forall n :: n != name ==> Get(View(), n) == old(Get(View(), n))
      ensures forall n :: Tells(old(Get(View(), n)), Get(View(), n))
      ensures evals == old(evals)
    {
      VersionsTell(View(), PushHtml(name, content, streaming));
      SetStreaming(name, true, streaming);
      UpdateHtml(name, content);
    }

    /** A push of logic shows nothing at once: while it streams nothing is evaluated,
        and when it is complete its evaluation overtakes all others of the name. */
    method DcUpdateJs(name: string, streaming: bool)
      requires Valid()
      modifies this
      ensures Valid() && View() == Next(old(View()), PushJs(name, streaming))
      ensures var e := old(Get(View(), name));
        ShownOf(Get(View(), name)) == ShownOf(e).(jsStreaming := streaming, fetched := e.fetched || streaming)
        && Get(View(), name).ver == e.ver + 1
      ensures forall n :: n != name ==> Get(View(), n) == old(Get(View(), n))
      ensures streaming ==> evals == old(evals)
      ensures !streaming ==> |evals| == |old(evals)| + 1 && !Overtaken(View(), |old(evals)|)
      ensures !streaming ==> forall j :: 0 <= j < |old(evals)| && evals[j].name == name ==> Overtaken(View(), j)
    {
      PushFacts(View(), name, streaming);
      SetStreaming(name, false, streaming);
      if !streaming { var _ := StartJs(name, false); }
    }

    /** The root's own parts replace html that is there, and overtake every
        evaluation that is running for it, a sibling fetch's included. */
    method AdoptParsed(name: string, p: Parsed)
      requires Valid()
      modifies this
      ensures Valid() && View() == Next(old(View()), Adopt(name, p))
      ensures Get(View(), name).html == if p.template != "" then p.template else old(Get(View(), name).html)
      ensures ShownOf(Get(View(), name)) == ShownOf(old(Get(View(), name))).(html := Get(View(), name).html)
      ensures forall n :: n != name ==> Get(View(), n) == old(Get(View(), n))
      ensures p.js == "" ==> evals == old(evals)
      ensures p.js != "" ==>
        |evals| == |old(evals)| + 1 && !Overtaken(View(), |old(evals)|)
        && forall j :: 0 <= j < |old(evals)| && evals[j].name == name ==> Overtaken(View(), j)
    {
      if p.template != "" { UpdateHtml(name, p.template); }
      if p.js != "" { var _ := StartJs(name, false); }
    }

    static lemma VersionsTell(r: Registry, ev: Event)
      requires Enabled(r, ev)
      ensures forall n :: Tells(Get(r, n), Get(Next(r, ev), n))
    {
      forall n { VersionTells(r, ev, n); }
    }
  }
}
