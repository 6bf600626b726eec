/** Which components are being streamed (stream-state.ts): a map from name to the
    time of the last streaming push, rid of stale entries only when it is asked. */
module StreamTracker {
  import opened JsText

  /** The key of pushes that do not count. */
  const MODEL := "dc-model"

  /** Everything that was ever pushed, with the time it was. */
  datatype Push = Push(name: string, streaming: bool, viewportKey: string, at: int)

  /** The last push that counts for a name. */
  function LastPush(log: seq<Push>, name: string): Option<Push> {
    if log == [] then None
    else
      var p := log[|log| - 1];
      if p.name == name && p.viewportKey != MODEL then Some(p) else LastPush(log[..|log| - 1], name)
  }

  /** The last push that counts was a streaming one, and is not stale. */
  predicate LiveAt(log: seq<Push>, staleMs: int, name: string, now: int) {
    var p := LastPush(log, name);
    p.Some? && p.value.streaming && now - p.value.at <= staleMs
  }

  lemma LastPushAppend(log: seq<Push>, p: Push, name: string)
    ensures LastPush(log + [p], name) ==
      if p.name == name && p.viewportKey != MODEL then Some(p) else LastPush(log, name)
  {
    assert (log + [p])[..|log|] == log;
  }

  /** A name is live exactly when some push of it that streams is recent enough, and
      no push of it came after that, those of the model's viewport apart. */
  lemma {:induction false} LiveIff(log: seq<Push>, staleMs: int, name: string, now: int)
    ensures LiveAt(log, staleMs, name, now) <==>
      exists i :: 0 <= i < |log| && log[i].name == name && log[i].viewportKey != "dc-model" && log[i].streaming
        && now - log[i].at <= staleMs
        && forall j :: i < j < |log| && log[j].name == name ==> log[j].viewportKey == "dc-model"
  {
    var k := LastIndex(log, name);
  }

  /** Where the last push that counts is. */
  lemma {:induction false} LastIndex(log: seq<Push>, name: string) returns (k: int)
    ensures -1 <= k < |log| && LastPush(log, name) == if k == -1 then None else Some(log[k])
    ensures k >= 0 ==> log[k].name == name && log[k].viewportKey != "dc-model"
    ensures forall j :: k < j < |log| && log[j].name == name ==> log[j].viewportKey == "dc-model"
  {
    if log == [] {
      k := -1;
    } else {
      var n := |log| - 1;
      if log[n].name == name && log[n].viewportKey != "dc-model" {
        k := n;
      } else {
        k := LastIndex(log[..n], name);
        assert forall j :: 0 <= j < n ==> log[..n][j] == log[j];
      }
    }
  }

  /** A clock that never goes back; every reading may be later than the one before. */
  class Clock {
    var last: int

    constructor (start: int)
      ensures last == start
    {
      last := start;
    }

    method Now() returns (t: int)
      modifies this
      ensures t == last && last >= old(last)
    {
      var passed: int :| passed >= 0;
      last := last + passed;
      t := last;
    }
  }

  class Tracker {
    const staleMs: int
    const clock: Clock
    var since: map<string, int>
    ghost var log: seq<Push>

    /** What is in the map agrees with the log; what is missing is stopped or stale. */
    ghost predicate Valid()
      reads this, clock
    {
      forall n :: if n in since
        then var p := LastPush(log, n); p.Some? && p.value.streaming && p.value.at == since[n]
        else !LiveAt(log, staleMs, n, clock.last)
    }

    constructor (staleMs: int, clock: Clock)
      ensures Valid() && log == [] && this.staleMs == staleMs && this.clock == clock
    {
      this.staleMs, this.clock := staleMs, clock;
      since, log := map[], [];
    }

    method PushState(name: string, streaming: bool, viewportKey: string)
      requires Valid()
      modifies this`since, this`log, clock
      ensures Valid() && clock.last >= old(clock.last)
      ensures log == old(log) + [Push(name, streaming, viewportKey, clock.last)]
    {
      ghost var before := log;
      if viewportKey != MODEL {
        if streaming {
          var t := clock.Now();
          since := since[name := t];
        } else {
          since := since - {name};
        }
      }
      log := log + [Push(name, streaming, viewportKey, clock.last)];
      forall n { LastPushAppend(before, log[|before|], n); }
    }

    /** Is one name live?  A stale entry is dropped on the way. */
    method LiveOne(name: string) returns (r: bool)
      requires Valid()
      modifies this`since, clock
      ensures Valid() && clock.last >= old(clock.last)
      ensures r == LiveAt(log, staleMs, name, clock.last)
      ensures since.Keys <= old(since.Keys)
    {
      if name !in since { return false; }
      var t := since[name];
      var now := clock.Now();
      if now - t > staleMs {
        since := since - {name};
        return false;
      }
      return true;
    }

    /** Is any name live?  The clock is read anew for every name that is asked. */
    method LiveAny() returns (r: bool)
      requires Valid()
      modifies this`since, clock
      ensures Valid() && clock.last >= old(clock.last)
      ensures r <==> exists n :: LiveAt(log, staleMs, n, clock.last)
    {
      var names := since.Keys;
      ghost var all := names;
      while names != {}
        invariant Valid() && clock.last >= old(clock.last) && names <= all && since.Keys <= all
        invariant forall n :: n !in names ==> !LiveAt(log, staleMs, n, clock.last)
      {
        var n :| n in names;
        var live := LiveOne(n);
        if live { return true; }
        names := names - {n};
      }
      return false;
    }
  }
}
