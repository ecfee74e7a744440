/**
 Debounced list-changed notifications of src/runtime/core.rs, while the runtime lives: a pending
 set, one worker that reads registry events, and a delayed task per accepted burst.
 */
module Debounce {
  import opened Wrappers

  /** Readings of the monotonic clock, in nanoseconds. */
  type Time = int
  type TimerId = nat

  datatype Feature = Tools | Prompts | Resources

  const DEBOUNCE: Time := 1_000_000_000

  datatype Timer = Timer(feature: Feature, since: Time)

  /** The worker has put the feature into the pending set and is about to spawn its delayed task. */
  datatype Worker = Idle | Arming(feature: Feature)

  datatype State = State(pending: set<Feature>, worker: Worker, timers: map<TimerId, Timer>)

  datatype Event =
    /** A registry event; `enabled` is what the current configuration says about the feature. */
    | Registry(feature: Feature, enabled: bool, now: Time)
    | Spawn(id: TimerId, now: Time)
    /** The delayed task wakes up and takes the feature out of the pending set. */
    | Flush(id: TimerId, now: Time)

  const QUIET := State({}, Idle, map[])

  function Next(s: State, e: Event): Option<State> {
    match e
    case Registry(feature, enabled, _) =>
      if !s.worker.Idle? then None
      else if !enabled || feature in s.pending then Some(s)
      else Some(s.(pending := s.pending + {feature}, worker := Arming(feature)))
    case Spawn(id, now) =>
      if !s.worker.Arming? || id in s.timers then None
      else Some(s.(worker := Idle, timers := s.timers[id := Timer(s.worker.feature, now)]))
    case Flush(id, now) =>
      if id !in s.timers || now < s.timers[id].since + DEBOUNCE then None
      else Some(s.(pending := s.pending - {s.timers[id].feature}, timers := s.timers - {id}))
  }

  predicate Run(s: State, run: seq<Event>, clock: Time)
    decreases |run|
  {
    run == [] ||
    (clock <= run[0].now && Next(s, run[0]).Some? && Run(Next(s, run[0]).value, run[1..], run[0].now))
  }

  function After(s: State, run: seq<Event>, clock: Time): State
    requires Run(s, run, clock)
    decreases |run|
  {
    if run == [] then s else After(Next(s, run[0]).value, run[1..], run[0].now)
  }

  // ---------------------------------------------------------------- one timer per pending feature

  /** A delayed task for the feature exists, or is just being spawned. */
  ghost predicate Outstanding(s: State, feature: Feature) {
    s.worker == Arming(feature) || exists id :: HasTimer(s, id, feature)
  }

  predicate HasTimer(s: State, id: TimerId, feature: Feature) {
    id in s.timers && s.timers[id].feature == feature
  }

  /** Pending means one outstanding timer, and no feature ever has two. */
  ghost predicate Inv(s: State, clock: Time) {
    && (forall feature :: feature in s.pending <==> Outstanding(s, feature))
    && (forall a, b, feature :: HasTimer(s, a, feature) && HasTimer(s, b, feature) ==> a == b)
    && (forall a, feature :: HasTimer(s, a, feature) ==> s.worker != Arming(feature))
    && (forall id :: id in s.timers ==> s.timers[id].since <= clock)
  }

  lemma StepKeepsUnique(s: State, e: Event, clock: Time)
    requires Inv(s, clock) && clock <= e.now && Next(s, e).Some?
    ensures var s' := Next(s, e).value;
            && (forall a, b, feature :: HasTimer(s', a, feature) && HasTimer(s', b, feature) ==> a == b)
            && (forall a, feature :: HasTimer(s', a, feature) ==> s'.worker != Arming(feature))
  {
    var s' := Next(s, e).value;
    forall a, feature | HasTimer(s', a, feature)
      ensures s'.worker != Arming(feature)
      ensures HasTimer(s, a, feature) || (e.Spawn? && a == e.id && s.worker == Arming(feature))
    {
      if HasTimer(s, a, feature) {
        assert Outstanding(s, feature);
      }
    }
  }

  lemma StepKeepsPending(s: State, e: Event, clock: Time, feature: Feature)
    requires Inv(s, clock) && clock <= e.now && Next(s, e).Some?
    ensures var s' := Next(s, e).value; feature in s'.pending <==> Outstanding(s', feature)
  {
    var s' := Next(s, e).value;
    assert feature in s.pending <==> Outstanding(s, feature);
    assert e.Flush? ==> HasTimer(s, e.id, s.timers[e.id].feature);
    if id :| HasTimer(s, id, feature) {
      if e.Flush? && e.id == id {
        forall other
          ensures !HasTimer(s', other, feature)
        {
          assert HasTimer(s', other, feature) ==> HasTimer(s, other, feature);
        }
      } else {
        assert HasTimer(s', id, feature);
      }
    } else {
      if e.Spawn? && s.worker == Arming(feature) {
        assert HasTimer(s', e.id, feature);
      } else {
        forall other
          ensures !HasTimer(s', other, feature)
        {
          assert !HasTimer(s, other, feature);
        }
      }
    }
  }

  lemma StepKeepsInv(s: State, e: Event, clock: Time)
    requires Inv(s, clock) && clock <= e.now && Next(s, e).Some?
    ensures Inv(Next(s, e).value, e.now)
  {
    StepKeepsUnique(s, e, clock);
    forall feature
      ensures feature in Next(s, e).value.pending <==> Outstanding(Next(s, e).value, feature)
    {
      StepKeepsPending(s, e, clock, feature);
    }
  }

  /** In every reachable state a feature is pending exactly when one timer for it is outstanding. */
  lemma {:induction false} PendingIffOutstanding(s: State, run: seq<Event>, clock: Time)
    requires Inv(s, clock) && Run(s, run, clock)
    ensures Inv(After(s, run, clock), if run == [] then clock else run[|run| - 1].now)
    decreases |run|
  {
    if run != [] {
      StepKeepsInv(s, run[0], clock);
      PendingIffOutstanding(Next(s, run[0]).value, run[1..], run[0].now);
    }
  }

  /** A flush always finds its feature pending, so its early return is never taken. */
  lemma FlushFindsPending(s: State, id: TimerId, now: Time, clock: Time)
    requires Inv(s, clock) && Next(s, Flush(id, now)).Some?
    ensures s.timers[id].feature in s.pending
  {
    assert HasTimer(s, id, s.timers[id].feature);
    assert Outstanding(s, s.timers[id].feature);
  }

  // ---------------------------------------------------------------- no event is lost

  predicate Accepts(e: Event, feature: Feature) {
    e.Registry? && e.feature == feature && e.enabled
  }

  /** The `k`-th event of the run starts a flush of `feature`. */
  predicate FlushesAt(s: State, run: seq<Event>, clock: Time, k: nat, feature: Feature)
    requires Run(s, run, clock)
    decreases |run|
  {
    if k >= |run| then false
    else if k == 0 then run[0].Flush? && s.timers[run[0].id].feature == feature
    else FlushesAt(Next(s, run[0]).value, run[1..], run[0].now, k - 1, feature)
  }

  lemma {:induction false} PendingIsFlushed(s: State, run: seq<Event>, clock: Time, feature: Feature) returns (k: nat)
    requires Run(s, run, clock) && feature in s.pending && feature !in After(s, run, clock).pending
    ensures FlushesAt(s, run, clock, k, feature)
    decreases |run|
  {
    var s' := Next(s, run[0]).value;
    if feature !in s'.pending {
      k := 0;
    } else {
      var later := PendingIsFlushed(s', run[1..], run[0].now, feature);
      k := later + 1;
    }
  }

  /**
   Every accepted registry event is followed by a flush of its feature, in every run that does not
   stop with a timer still outstanding.
   */
  lemma {:induction false} EventsAreFlushed(s: State, run: seq<Event>, clock: Time, i: nat, feature: Feature)
    returns (k: nat)
    requires Inv(s, clock) && Run(s, run, clock)
    requires i < |run| && Accepts(run[i], feature)
    requires !Outstanding(After(s, run, clock), feature)
    ensures i < k && FlushesAt(s, run, clock, k, feature)
    decreases |run|
  {
    var s' := Next(s, run[0]).value;
    StepKeepsInv(s, run[0], clock);
    PendingIffOutstanding(s', run[1..], run[0].now);
    assert feature !in After(s, run, clock).pending;
    var later;
    if i == 0 {
      later := PendingIsFlushed(s', run[1..], run[0].now, feature);
    } else {
      later := EventsAreFlushed(s', run[1..], run[0].now, i - 1, feature);
    }
    k := later + 1;
  }

  /** A pending feature can always be flushed, one debounce interval from now at the latest. */
  lemma PendingCanFlush(s: State, clock: Time, feature: Feature) returns (run: seq<Event>)
    requires Inv(s, clock) && feature in s.pending
    ensures Run(s, run, clock) && |run| <= 2
    ensures feature !in After(s, run, clock).pending
    ensures forall e :: e in run ==> e.now <= clock + DEBOUNCE
  {
    assert Outstanding(s, feature);
    if s.worker == Arming(feature) {
      var id := Unused(s.timers.Keys);
      var s1 := Next(s, Spawn(id, clock)).value;
      run := [Spawn(id, clock), Flush(id, clock + DEBOUNCE)];
      assert run[1..] == [Flush(id, clock + DEBOUNCE)];
      FlushAlone(s1, id, clock, clock + DEBOUNCE);
    } else {
      var id :| HasTimer(s, id, feature);
      run := [Flush(id, clock + DEBOUNCE)];
      FlushAlone(s, id, clock, clock + DEBOUNCE);
    }
  }

  lemma FlushAlone(s: State, id: TimerId, clock: Time, now: Time)
    requires id in s.timers && s.timers[id].since + DEBOUNCE <= now && clock <= now
    ensures Run(s, [Flush(id, now)], clock)
    ensures After(s, [Flush(id, now)], clock) == Next(s, Flush(id, now)).value
  {
    assert [Flush(id, now)][1..] == [];
  }

  lemma {:induction false} Unused(ids: set<TimerId>) returns (id: TimerId)
    ensures id !in ids && forall other :: other in ids ==> other < id
    decreases |ids|
  {
    if ids == {} {
      id := 0;
    } else {
      var some :| some in ids;
      var above := Unused(ids - {some});
      id := if some < above then above else some + 1;
      assert ids == ids - {some} + {some};
    }
  }

  // ---------------------------------------------------------------- no flush without an event

  /** How many accepted events of `feature` a run has. */
  function Accepted(run: seq<Event>, feature: Feature): nat {
    if run == [] then 0 else (if Accepts(run[0], feature) then 1 else 0) + Accepted(run[1..], feature)
  }

  lemma {:induction false} FlushesPaidFor(s: State, run: seq<Event>, clock: Time, feature: Feature)
    requires Inv(s, clock) && Run(s, run, clock)
    ensures |FlushTimes(s, run, clock, feature)| <= Accepted(run, feature) + if feature in s.pending then 1 else 0
    decreases |run|
  {
    if run != [] {
      var e, next := run[0], Next(s, run[0]).value;
      StepKeepsInv(s, e, clock);
      FlushesPaidFor(next, run[1..], e.now, feature);
      if e.Flush? {
        FlushFindsPending(s, e.id, e.now, clock);
      }
    }
  }

  /**
   Of any run, events of a feature while it is disabled, like those of other features, bring no flush of it: it
   is flushed at most once for each event of its own that finds it enabled, and not at all without one.
   */
  lemma FlushesNeedEvents(run: seq<Event>, clock: Time, feature: Feature)
    requires Run(QUIET, run, clock)
    ensures |FlushTimes(QUIET, run, clock, feature)| <= Accepted(run, feature)
  {
    FlushesPaidFor(QUIET, run, clock, feature);
  }

  // ---------------------------------------------------------------- spacing

  /** When flushes of `feature` start during a run. */
  function FlushTimes(s: State, run: seq<Event>, clock: Time, feature: Feature): seq<Time>
    requires Run(s, run, clock)
    decreases |run|
  {
    if run == [] then []
    else
      var rest := FlushTimes(Next(s, run[0]).value, run[1..], run[0].now, feature);
      if run[0].Flush? && s.timers[run[0].id].feature == feature then [run[0].now] + rest else rest
  }

  predicate Spaced(times: seq<Time>) {
    forall i :: 0 <= i < |times| - 1 ==> times[i] + DEBOUNCE <= times[i + 1]
  }

  /** No timer of the feature is old enough to ring before `earliest`. */
  ghost predicate NoneBefore(s: State, feature: Feature, earliest: Time) {
    forall id :: HasTimer(s, id, feature) ==> earliest <= s.timers[id].since + DEBOUNCE
  }

  lemma {:induction false} FlushesSpacedFrom(
      s: State, run: seq<Event>, clock: Time, feature: Feature, earliest: Time)
    requires Inv(s, clock) && Run(s, run, clock)
    requires NoneBefore(s, feature, earliest) && earliest <= clock + DEBOUNCE
    ensures Spaced(FlushTimes(s, run, clock, feature))
    ensures FlushTimes(s, run, clock, feature) != [] ==> earliest <= FlushTimes(s, run, clock, feature)[0]
    decreases |run|
  {
    if run != [] {
      var e, s' := run[0], Next(s, run[0]).value;
      StepKeepsInv(s, e, clock);
      if e.Flush? && s.timers[e.id].feature == feature {
        assert HasTimer(s, e.id, feature);
        forall id
          ensures !HasTimer(s', id, feature)
        {
          assert HasTimer(s', id, feature) ==> HasTimer(s, id, feature);
        }
        FlushesSpacedFrom(s', run[1..], e.now, feature, e.now + DEBOUNCE);
      } else {
        forall id | HasTimer(s', id, feature)
          ensures earliest <= s'.timers[id].since + DEBOUNCE
        {
          assert HasTimer(s, id, feature) || (e.Spawn? && id == e.id);
        }
        FlushesSpacedFrom(s', run[1..], e.now, feature, earliest);
      }
    }
  }

  /** Two flushes of one feature start at least the debounce interval apart, in every run. */
  lemma FlushesAreSpaced(run: seq<Event>, clock: Time, feature: Feature)
    requires Run(QUIET, run, clock)
    ensures Spaced(FlushTimes(QUIET, run, clock, feature))
  {
    FlushesSpacedFrom(QUIET, run, clock, feature, clock);
  }
}
