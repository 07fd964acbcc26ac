/**
 Id allocation as interleaved steps: any number of calls read and write the counter
 under the lock, while removals, which do not take the lock, reset it at any moment.
 */
module Counters {
  import opened Wrappers
  import opened Words
  import opened Bytes
  import opened Varint
  import opened Catalog

  // counter: the bytes stored under the counter's key; holder: who has the lock;
  // read: ids that were read and not yet written behind; handed: ids handed out since
  // the counter was last reset
  datatype Ids = Ids(counter: Option<Key>, holder: Option<nat>, read: map<nat, u64>, handed: seq<u64>)

  function Stored(counter: Option<Key>): (r: nat)
    ensures r <= U64_MAX
  {
    if counter.Some? && Decode(counter.value).Some? then
      DecodeBounds(counter.value);
      Decode(counter.value).value.0
    else 1
  }

  datatype Event = Acquire(t: nat) | Read(t: nat) | Write(t: nat) | Release(t: nat) | Reset

  ghost predicate Step(s: Ids, e: Event, s': Ids) {
    match e
    case Acquire(t) => s.holder.None? && s' == s.(holder := Some(t))
    case Read(t) =>
      s.holder == Some(t) && t !in s.read
      && s' == s.(read := s.read[t := Stored(s.counter)])
    case Write(t) =>
      s.holder == Some(t) && t in s.read
      && s' == s.(counter := Some(Oppv(After(s.read[t]))), read := s.read - {t}, handed := s.handed + [s.read[t]])
    case Release(t) => s.holder == Some(t) && t !in s.read && s' == s.(holder := None)
    case Reset => s' == s.(counter := None, handed := [])
  }

  ghost predicate Init(s: Ids) {
    s.holder.None? && s.read == map[] && s.handed == []
  }

  // each id is the one after the id before it; the last wraps to 0
  predicate Consecutive(ids: seq<u64>) {
    forall i :: 0 <= i < |ids| - 1 ==> ids[i + 1] == After(ids[i])
  }

  // Only the holder is between reading and writing, and what it read, like what is
  // stored, is the id after all ids handed out.
  ghost predicate Inv(s: Ids) {
    && (forall t :: t in s.read ==> s.holder == Some(t))
    && Consecutive(s.handed)
    && (s.handed != [] ==> Stored(s.counter) == After(s.handed[|s.handed| - 1]))
    && (s.handed != [] ==> forall t :: t in s.read ==> s.read[t] == After(s.handed[|s.handed| - 1]))
  }

  lemma StepKeepsInv(s: Ids, e: Event, s': Ids)
    requires Inv(s) && Step(s, e, s')
    ensures Inv(s')
  {
    if e.Write? {
      var v := s.read[e.t];
      WrittenDecodes(v);
      ConsecutiveAppend(s.handed, v);
      assert s'.read == map[] by {
        assert forall t :: t in s.read ==> t == e.t;
      }
    }
  }

  lemma ConsecutiveAppend(ids: seq<u64>, v: u64)
    requires Consecutive(ids) && (ids != [] ==> v == After(ids[|ids| - 1]))
    ensures Consecutive(ids + [v])
  {
    var more := ids + [v];
    forall i | 0 <= i < |more| - 1 ensures more[i + 1] == After(more[i]) {
      if i < |ids| - 1 {
        assert ids[i + 1] == After(ids[i]);
      }
    }
  }

  lemma WrittenDecodes(v: u64)
    ensures Stored(Some(Oppv(After(v)))) == After(v)
  {
    DecodeEncode(After(v), []);
    assert Oppv(After(v)) + [] == Oppv(After(v));
  }

  // Consecutive ids count up from the first, modulo 2^64.
  lemma {:induction false} CountsUp(ids: seq<u64>, i: nat)
    requires Consecutive(ids) && i < |ids|
    ensures ids[i] == (ids[0] + i) % (U64_MAX + 1)
  {
    if i > 0 {
      CountsUp(ids, i - 1);
      assert ids[i] == After(ids[i - 1]);
      NextModulo(ids[0] + i - 1);
    }
  }

  lemma NextModulo(x: nat)
    ensures (x + 1) % (U64_MAX + 1)
         == (if x % (U64_MAX + 1) == U64_MAX then 0 else x % (U64_MAX + 1) + 1)
  {
    var q, r := x / (U64_MAX + 1), x % (U64_MAX + 1);
    assert x == q * (U64_MAX + 1) + r;
  }

  // They strictly increase if and only if counting up stays within 64 bits.
  lemma IncreasingIff(ids: seq<u64>)
    requires Consecutive(ids) && ids != []
    ensures Increasing(ids) <==> ids[0] + |ids| - 1 <= U64_MAX
  {
    if ids[0] + |ids| - 1 <= U64_MAX {
      forall i | 0 <= i < |ids| ensures ids[i] == ids[0] + i {
        CountsUp(ids, i);
      }
    } else {
      var i := U64_MAX - ids[0];
      CountsUp(ids, i);
      CountsUp(ids, i + 1);
      assert ids[i] == U64_MAX && ids[i + 1] == 0;
    }
  }

  // ---------- runs ----------

  ghost predicate IsRun(states: seq<Ids>, events: seq<Event>) {
    |states| == |events| + 1 && forall i :: 0 <= i < |events| ==> Step(states[i], events[i], states[i + 1])
  }

  lemma {:induction false} RunKeepsInv(states: seq<Ids>, events: seq<Event>, n: nat)
    requires IsRun(states, events) && Init(states[0]) && n <= |events|
    ensures Inv(states[n])
  {
    if n > 0 {
      RunKeepsInv(states, events, n - 1);
      StepKeepsInv(states[n - 1], events[n - 1], states[n]);
    }
  }

  // No call is between reading and writing.
  predicate Quiet(s: Ids) {
    s.handed == [] && s.read == map[]
  }

  ghost predicate NoReset(events: seq<Event>, m: nat, n: nat) {
    forall i :: m <= i < n && i < |events| ==> !events[i].Reset?
  }

  // Up to the first write nothing but reads of the stored id happens; behind it the
  // first id stays.
  lemma {:induction false} FirstIsStored(states: seq<Ids>, events: seq<Event>, m: nat, n: nat)
    requires IsRun(states, events) && m <= n <= |events| && NoReset(events, m, n)
    requires Inv(states[m]) && Quiet(states[m])
    ensures Inv(states[n])
    ensures states[n].handed == [] ==> states[n].counter == states[m].counter
    ensures states[n].handed == [] ==> forall t :: t in states[n].read ==> states[n].read[t] == Stored(states[m].counter)
    ensures states[n].handed != [] ==> states[n].handed[0] == Stored(states[m].counter)
    decreases n
  {
    if m < n {
      FirstIsStored(states, events, m, n - 1);
      StepKeepsInv(states[n - 1], events[n - 1], states[n]);
      assert Step(states[n - 1], events[n - 1], states[n]) && !events[n - 1].Reset?;
    }
  }

  // Up to the first write the holder keeps what it read before a reset.
  lemma {:induction false} FirstIsInFlight(states: seq<Ids>, events: seq<Event>, m: nat, n: nat, t: nat)
    requires IsRun(states, events) && m <= n <= |events| && NoReset(events, m, n)
    requires Inv(states[m]) && states[m].handed == [] && t in states[m].read
    ensures Inv(states[n])
    ensures states[n].handed == [] ==> t in states[n].read && states[n].read[t] == states[m].read[t]
    ensures states[n].handed != [] ==> states[n].handed[0] == states[m].read[t]
    decreases n
  {
    if m < n {
      FirstIsInFlight(states, events, m, n - 1, t);
      StepKeepsInv(states[n - 1], events[n - 1], states[n]);
      assert Step(states[n - 1], events[n - 1], states[n]) && !events[n - 1].Reset?;
    }
  }

  // In every interleaving, from a moment when no call is between reading and writing
  // and until the next reset: the ids handed out are the stored one (1 when there is
  // none) and those after it, they strictly increase if and only if as many ids are
  // left, and the stored counter decodes to the next one.
  lemma IdsIncrease(states: seq<Ids>, events: seq<Event>, m: nat, n: nat)
    requires IsRun(states, events) && Init(states[0]) && m <= n <= |events|
    requires Quiet(states[m]) && NoReset(events, m, n)
    ensures var ids, first := states[n].handed, Stored(states[m].counter);
      && (forall i :: 0 <= i < |ids| ==> ids[i] == (first + i) % (U64_MAX + 1))
      && (Increasing(ids) <==> first + |ids| - 1 <= U64_MAX)
      && Stored(states[n].counter) == (first + |ids|) % (U64_MAX + 1)
    ensures states[m].counter.None? ==> Stored(states[m].counter) == 1
  {
    RunKeepsInv(states, events, m);
    FirstIsStored(states, events, m, n);
    var ids := states[n].handed;
    if ids != [] {
      IncreasingIff(ids);
      CountsUp(ids, |ids| - 1);
      NextModulo(ids[0] + |ids| - 1);
      forall i | 0 <= i < |ids| ensures ids[i] == (ids[0] + i) % (U64_MAX + 1) {
        CountsUp(ids, i);
      }
    }
  }

  // Behind any reset: the first id is 1, unless a call had read the counter and not
  // yet written it, which then hands out what it read.
  lemma FirstAfterReset(states: seq<Ids>, events: seq<Event>, m: nat, n: nat)
    requires IsRun(states, events) && Init(states[0]) && m < n <= |events|
    requires events[m].Reset? && NoReset(events, m + 1, n) && states[n].handed != []
    ensures states[m].read == map[] ==> states[n].handed[0] == 1
    ensures forall t :: t in states[m].read ==> states[n].handed[0] == states[m].read[t]
  {
    RunKeepsInv(states, events, m + 1);
    assert Step(states[m], events[m], states[m + 1]);
    if states[m].read == map[] {
      FirstIsStored(states, events, m + 1, n);
    }
    forall t | t in states[m].read ensures states[n].handed[0] == states[m].read[t] {
      FirstIsInFlight(states, events, m + 1, n, t);
    }
  }

  // A removal that does not wait for the lock: the call in flight hands out 5 and
  // stores 6 after the counter was reset.
  lemma RacingReset() returns (states: seq<Ids>, events: seq<Event>)
    ensures IsRun(states, events) && Init(states[0]) && |events| == 4
    ensures events[2].Reset? && states[3].counter.None?
    ensures states[4].handed == [5] && Stored(states[4].counter) == 6
  {
    WrittenDecodes(4);
    WrittenDecodes(5);
    var s0 := Ids(Some(Oppv(5)), None, map[], []);
    var s1 := s0.(holder := Some(0));
    var s2 := s1.(read := map[0 := 5]);
    var s3 := s2.(counter := None, handed := []);
    var s4 := Ids(Some(Oppv(6)), Some(0), s3.read - {0}, [5]);
    states, events := [s0, s1, s2, s3, s4], [Acquire(0), Read(0), Reset, Write(0)];
    assert s3.handed + [5] == s4.handed;
    assert Step(s0, events[0], s1) && Step(s1, events[1], s2) && Step(s2, events[2], s3) && Step(s3, events[3], s4);
  }

  // A whole call that runs alone hands out the stored id, 1 when there is none, stores
  // the next one and lets the lock go.
  lemma AloneHandsOutStored(states: seq<Ids>, events: seq<Event>, t: nat)
    requires IsRun(states, events) && Inv(states[0])
    requires events == [Acquire(t), Read(t), Write(t), Release(t)]
    ensures states[4].handed == states[0].handed + [Stored(states[0].counter)]
    ensures states[0].counter.None? ==> states[4].handed == states[0].handed + [1]
    ensures Stored(states[4].counter) == After(Stored(states[0].counter))
    ensures states[4].holder.None? && states[4].read == map[]
  {
    WrittenDecodes(Stored(states[0].counter));
    assert Step(states[0], events[0], states[1]) && Step(states[1], events[1], states[2]);
    assert Step(states[2], events[2], states[3]) && Step(states[3], events[3], states[4]);
  }

  // Once the last id is handed out the counter wraps: the next ids start over.
  lemma ExhaustedWraps() returns (states: seq<Ids>, events: seq<Event>)
    ensures IsRun(states, events) && Init(states[0])
    ensures states[|events|].handed == [U64_MAX, 0] && !Increasing(states[|events|].handed)
  {
    WrittenDecodes(U64_MAX - 1);
    WrittenDecodes(U64_MAX);
    var s0 := Ids(Some(Oppv(U64_MAX)), None, map[], []);
    var s1 := s0.(holder := Some(0));
    var s2 := s1.(read := map[0 := U64_MAX]);
    var s3 := Ids(Some(Oppv(0)), Some(0), s2.read - {0}, [U64_MAX]);
    var s4 := s3.(read := s3.read[0 := 0]);
    var s5 := Ids(Some(Oppv(1)), Some(0), s4.read - {0}, [U64_MAX, 0]);
    assert s3.handed + [0] == s5.handed;
    states, events := [s0, s1, s2, s3, s4, s5], [Acquire(0), Read(0), Write(0), Read(0), Write(0)];
    assert Step(s0, events[0], s1) && Step(s1, events[1], s2) && Step(s2, events[2], s3);
    assert Step(s3, events[3], s4) && Step(s4, events[4], s5);
    assert s5.handed[1] < s5.handed[0];
  }
}
