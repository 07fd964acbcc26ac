/**
 The version clock: any number of calls race to advance one atomic word by weak
 compare-and-swap. Loads may be stale, the swap may fail for no reason, and time may
 stand still or run backwards.
 */
module Version {
  import opened Words
  import opened Catalog

  // A call that runs: its candidate, the value it last saw, and how many calls had
  // finished when it started. A call that is done: what it returned, as which.
  datatype Call =
    | Running(candidate: u64, seen: u64, startedAt: nat)
    | Returned(version: u64, index: nat, startedAt: nat)

  // history: all values the atomic word has had, the newest last
  datatype Clock = Clock(history: seq<u64>, calls: map<nat, Call>)

  function Last(s: Clock): u64
    requires s.history != []
  {
    s.history[|s.history| - 1]
  }

  // if candidate <= last { candidate = last + 1 }
  function Raised(candidate: u64, seen: u64): u64 {
    if candidate <= seen then After(seen) else candidate
  }

  // time and counter give any candidate; a relaxed load gives any value the word had
  datatype Event = Start(c: nat, candidate: u64, load: u64) | Swap(c: nat) | Fail(c: nat, load: u64)

  ghost predicate Step(s: Clock, e: Event, s': Clock) {
    s.history != [] &&
    match e
    case Start(c, candidate, load) =>
      c !in s.calls && load in s.history
      && s' == s.(calls := s.calls[c := Running(candidate, load, |s.history|)])
    case Swap(c) =>
      c in s.calls && s.calls[c].Running? && s.calls[c].seen == Last(s)
      && var v := Raised(s.calls[c].candidate, s.calls[c].seen);
         s' == Clock(s.history + [v], s.calls[c := Returned(v, |s.history|, s.calls[c].startedAt)])
    case Fail(c, load) =>
      c in s.calls && s.calls[c].Running? && load in s.history
      && var v := Raised(s.calls[c].candidate, s.calls[c].seen);
         s' == s.(calls := s.calls[c := Running(v, load, s.calls[c].startedAt)])
  }

  // the word starts at 0
  ghost predicate Init(s: Clock) {
    s.history == [0] && s.calls == map[]
  }

  ghost predicate IsRun(states: seq<Clock>, events: seq<Event>) {
    |states| == |events| + 1 && forall i :: 0 <= i < |events| ==> Step(states[i], events[i], states[i + 1])
  }

  // ---------- one step ----------

  // A successful swap makes the word strictly larger exactly when it was not at its
  // greatest value.
  lemma SwapIncreasesIff(s: Clock, c: nat, s': Clock)
    requires Step(s, Swap(c), s')
    ensures s'.history != [] && (Last(s) < Last(s') <==> Last(s) != U64_MAX)
  {
  }

  ghost predicate CallOk(s: Clock, call: Call) {
    match call
    case Running(_, _, startedAt) => startedAt <= |s.history|
    case Returned(version, index, startedAt) =>
      startedAt <= index < |s.history| && s.history[index] == version
  }

  // Until the greatest value is overwritten the history increases; every finished call
  // returned its own entry, made after the call started.
  ghost predicate Inv(s: Clock) {
    && s.history != []
    && (forall c :: c in s.calls ==> CallOk(s, s.calls[c]))
    && (forall c, d :: c in s.calls && d in s.calls && c != d && s.calls[c].Returned? && s.calls[d].Returned? ==>
          s.calls[c].index != s.calls[d].index)
    && (BelowMax(s.history) ==> Increasing(s.history))
  }

  // no value before the last is the greatest one
  predicate BelowMax(history: seq<u64>) {
    forall i :: 0 <= i < |history| - 1 ==> history[i] != U64_MAX
  }

  lemma StepKeepsInv(s: Clock, e: Event, s': Clock)
    requires Inv(s) && Step(s, e, s')
    ensures Inv(s') && s.history <= s'.history
  {
    forall c | c in s'.calls ensures CallOk(s', s'.calls[c]) {
      if c in s.calls {
        assert CallOk(s, s.calls[c]);
      }
    }
    if e.Swap? {
      SwapIncreasesIff(s, e.c, s');
      HistoryGrows(s.history, Last(s'));
      assert forall c :: c in s.calls && s.calls[c].Returned? ==> CallOk(s, s.calls[c]);
    }
  }

  lemma HistoryGrows(history: seq<u64>, v: u64)
    requires history != [] && (BelowMax(history) ==> Increasing(history))
    requires history[|history| - 1] != U64_MAX ==> history[|history| - 1] < v
    ensures BelowMax(history + [v]) ==> Increasing(history + [v])
  {
    var more := history + [v];
    if BelowMax(more) {
      assert forall i :: 0 <= i < |history| ==> more[i] == history[i];
      assert BelowMax(history);
      IncreasingAppend(history, v);
    }
  }

  // ---------- whole runs ----------

  lemma {:induction false} RunKeepsInv(states: seq<Clock>, events: seq<Event>, m: nat, n: nat)
    requires IsRun(states, events) && Init(states[0]) && m <= n <= |events|
    ensures Inv(states[m]) && Inv(states[n]) && states[m].history <= states[n].history
  {
    if n > 0 {
      if m < n {
        RunKeepsInv(states, events, m, n - 1);
      } else {
        RunKeepsInv(states, events, m - 1, n - 1);
      }
      StepKeepsInv(states[n - 1], events[n - 1], states[n]);
    }
  }

  // A call that had not started in state m starts behind everything finished there.
  lemma {:induction false} StartsLater(states: seq<Clock>, events: seq<Event>, m: nat, n: nat, c: nat)
    requires IsRun(states, events) && Init(states[0]) && m <= n <= |events|
    requires c !in states[m].calls && c in states[n].calls
    ensures states[n].calls[c].startedAt >= |states[m].history|
    decreases n
  {
    if c in states[n - 1].calls {
      StartsLater(states, events, m, n - 1, c);
      assert Step(states[n - 1], events[n - 1], states[n]);
    } else {
      RunKeepsInv(states, events, m, n - 1);
      assert Step(states[n - 1], events[n - 1], states[n]);
    }
  }

  lemma {:induction false} StaysReturned(states: seq<Clock>, events: seq<Event>, m: nat, n: nat, c: nat)
    requires IsRun(states, events) && m <= n <= |events|
    requires c in states[m].calls && states[m].calls[c].Returned?
    ensures c in states[n].calls && states[n].calls[c] == states[m].calls[c]
    decreases n
  {
    if m < n {
      StaysReturned(states, events, m, n - 1, c);
      assert Step(states[n - 1], events[n - 1], states[n]);
    }
  }

  // The word strictly increases over every run that does not overwrite its greatest
  // value, and all versions returned are distinct.
  lemma VersionsDistinct(states: seq<Clock>, events: seq<Event>, n: nat, c: nat, d: nat)
    requires IsRun(states, events) && Init(states[0]) && n <= |events| && BelowMax(states[n].history)
    requires c in states[n].calls && d in states[n].calls && c != d
    requires states[n].calls[c].Returned? && states[n].calls[d].Returned?
    ensures Increasing(states[n].history)
    ensures states[n].calls[c].version != states[n].calls[d].version
  {
    RunKeepsInv(states, events, 0, n);
    assert CallOk(states[n], states[n].calls[c]) && CallOk(states[n], states[n].calls[d]);
  }

  // A call that finished before another started returned the smaller version.
  lemma RealTimeOrder(states: seq<Clock>, events: seq<Event>, m: nat, n: nat, c: nat, d: nat)
    requires IsRun(states, events) && Init(states[0]) && m <= n <= |events| && BelowMax(states[n].history)
    requires c in states[m].calls && states[m].calls[c].Returned? && d !in states[m].calls
    requires d in states[n].calls && states[n].calls[d].Returned?
    ensures states[m].calls[c].version < states[n].calls[d].version
  {
    RunKeepsInv(states, events, m, n);
    StaysReturned(states, events, m, n, c);
    StartsLater(states, events, m, n, d);
    assert CallOk(states[m], states[m].calls[c]) && CallOk(states[n], states[n].calls[c]);
    assert CallOk(states[n], states[n].calls[d]);
  }

  // Over a whole run the word strictly increases if and only if its greatest value was
  // not overwritten.
  lemma RunIncreasesIff(states: seq<Clock>, events: seq<Event>, n: nat)
    requires IsRun(states, events) && Init(states[0]) && n <= |events|
    ensures Increasing(states[n].history) <==> BelowMax(states[n].history)
  {
    var h := states[n].history;
    RunKeepsInv(states, events, 0, n);
    if Increasing(h) {
      forall i | 0 <= i < |h| - 1 ensures h[i] != U64_MAX {
        assert h[i] < h[i + 1];
      }
    }
  }

  // ---------- how far the word can get ----------

  // no call was given a candidate above b
  ghost predicate CandidatesUpTo(events: seq<Event>, b: nat) {
    forall i :: 0 <= i < |events| && events[i].Start? ==> events[i].candidate <= b
  }

  // With k swaps so far no value exceeds b + k, and no running call wants more than
  // one beyond that.
  ghost predicate UpTo(s: Clock, b: nat) {
    && s.history != []
    && (forall i :: 0 <= i < |s.history| ==> s.history[i] <= b + |s.history| - 1)
    && (forall c :: c in s.calls && s.calls[c].Running? ==>
          s.calls[c].candidate <= b + |s.history| && s.calls[c].seen <= b + |s.history| - 1)
  }

  lemma StepUpTo(s: Clock, e: Event, s': Clock, b: nat)
    requires UpTo(s, b) && Step(s, e, s') && (e.Start? ==> e.candidate <= b)
    ensures UpTo(s', b)
  {
  }

  lemma {:induction false} RunUpTo(states: seq<Clock>, events: seq<Event>, n: nat, b: nat)
    requires IsRun(states, events) && Init(states[0]) && n <= |events| && CandidatesUpTo(events, b)
    ensures UpTo(states[n], b)
  {
    if n > 0 {
      RunUpTo(states, events, n - 1, b);
      StepUpTo(states[n - 1], events[n - 1], states[n], b);
    }
  }

  // Known before the calls are made: while the greatest candidate and the number of
  // versions stay below 2^64 together, the word strictly increases.
  lemma BoundedCandidatesIncrease(states: seq<Clock>, events: seq<Event>, n: nat, b: nat)
    requires IsRun(states, events) && Init(states[0]) && n <= |events| && CandidatesUpTo(events, b)
    requires b + |states[n].history| - 1 <= U64_MAX
    ensures Increasing(states[n].history)
  {
    RunUpTo(states, events, n, b);
    RunKeepsInv(states, events, 0, n);
    RunShorter(states, events, n, b);
  }

  // Every value but the newest was already there when the history was shorter.
  lemma {:induction false} RunShorter(states: seq<Clock>, events: seq<Event>, n: nat, b: nat)
    requires IsRun(states, events) && Init(states[0]) && n <= |events| && CandidatesUpTo(events, b)
    ensures var h := states[n].history;
      h != [] && forall i :: 0 <= i < |h| - 1 ==> h[i] <= b + |h| - 2
  {
    if n > 0 {
      RunShorter(states, events, n - 1, b);
      RunUpTo(states, events, n - 1, b);
      assert Step(states[n - 1], events[n - 1], states[n]);
    }
  }

  // Behind the greatest value the clock starts over at 0: a call whose candidate is that
  // value, and one more.
  lemma GreatestWraps(candidate: u64) returns (states: seq<Clock>, events: seq<Event>)
    ensures IsRun(states, events) && Init(states[0]) && |events| == 4
    ensures 0 in states[4].calls && states[4].calls[0] == Returned(U64_MAX, 1, 1)
    ensures 1 in states[4].calls && states[4].calls[1] == Returned(0, 2, 2)
    ensures states[4].history == [0, U64_MAX, 0] && !Increasing(states[4].history)
  {
    var s0 := Clock([0], map[]);
    var s1 := Clock([0], map[0 := Running(U64_MAX, 0, 1)]);
    var s2 := Clock([0] + [U64_MAX], s1.calls[0 := Returned(U64_MAX, 1, 1)]);
    var s3 := Clock(s2.history, s2.calls[1 := Running(candidate, U64_MAX, 2)]);
    var s4 := Clock(s3.history + [0], s3.calls[1 := Returned(0, 2, 2)]);
    states, events := [s0, s1, s2, s3, s4], [Start(0, U64_MAX, 0), Swap(0), Start(1, candidate, U64_MAX), Swap(1)];
    assert s2.history[1] == U64_MAX;
    assert Step(s0, events[0], s1) && Step(s1, events[1], s2) && Step(s2, events[2], s3) && Step(s3, events[3], s4);
    assert s4.history == [0, U64_MAX, 0] && s4.history[2] < s4.history[1];
  }
}
