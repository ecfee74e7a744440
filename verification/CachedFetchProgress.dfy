/** The nested refresh locks of the two caches cannot deadlock, and every call comes to an end. */
module CachedFetchProgress {
  import opened Wrappers
  import opened CachedFetch
  import opened CachedFetchSpacing

  predicate Unfinished(s: System, id: TaskId) {
    id in s.tasks && !s.tasks[id].Done?
  }

  /** The task can take its next step now, whatever the clock shows and a fetch brings back. */
  ghost predicate CanStep(s: System, id: TaskId) {
    Unfinished(s, id) && forall now, fetched :: AdvanceTask(s, id, now, fetched).Some?
  }

  /** A task has to wait only for a lock that another task holds. */
  predicate WaitsFor(s: System, id: TaskId, cache: CacheId) {
    && Unfinished(s, id) && PcOf(s.tasks[id], cache) == Some(AwaitLock)
    && CellOf(s, cache).holder.Some?
  }

  /** The holder of the discovery lock never waits: it takes no further lock. */
  lemma DiscoveryHolderSteps(s: System, clock: Time)
    requires Inv(s, clock) && s.discovery.holder.Some?
    ensures CanStep(s, s.discovery.holder.value)
  {
    var id := s.discovery.holder.value;
    assert CellOf(s, Discovery) == s.discovery;
    assert TaskOk(CellOf(s, Discovery), PcOf(s.tasks[id], Discovery), id, clock);
  }

  /**
   Deadlock freedom: whenever a call is unfinished, some call can take a step, because the key set
   lock is only ever taken before the discovery lock.
   */
  lemma NoDeadlock(s: System, clock: Time, id: TaskId) returns (mover: TaskId)
    requires Inv(s, clock) && Unfinished(s, id)
    ensures CanStep(s, mover)
  {
    if CanStep(s, id) {
      mover := id;
    } else if WaitsFor(s, id, Discovery) {
      mover := s.discovery.holder.value;
      DiscoveryHolderSteps(s, clock);
    } else {
      var holder := s.jwks.holder.value;
      assert CellOf(s, Jwks) == s.jwks;
      assert TaskOk(CellOf(s, Jwks), PcOf(s.tasks[holder], Jwks), holder, clock);
      if CanStep(s, holder) {
        mover := holder;
      } else {
        mover := s.discovery.holder.value;
        DiscoveryHolderSteps(s, clock);
      }
    }
  }

  lemma {:induction false} RunKeepsInv(s: System, run: seq<Event>, clock: Time)
    requires Inv(s, clock) && Run(s, run, clock)
    ensures var (s', clock') := After(s, run, clock); Inv(s', clock')
    decreases |run|
  {
    if run != [] {
      StepKeepsInv(s, run[0], clock);
      RunKeepsInv(Next(s, run[0]).value, run[1..], ClockAfter(run[0], clock));
    }
  }

  /** Deadlock freedom in every state that any run leads to. */
  lemma NeverDeadlocked(urlConfigured: bool, run: seq<Event>, clock: Time, id: TaskId)
    requires Run(Initial(urlConfigured), run, clock)
    requires Unfinished(After(Initial(urlConfigured), run, clock).0, id)
    ensures exists mover :: CanStep(After(Initial(urlConfigured), run, clock).0, mover)
  {
    RunKeepsInv(Initial(urlConfigured), run, clock);
    var (s, now) := After(Initial(urlConfigured), run, clock);
    var mover := NoDeadlock(s, now, id);
  }

  // ---------------------------------------------------------------- termination

  function PcRank(pc: Pc): nat {
    match pc
    case Start => 7
    case FirstLook(_) => 6
    case AwaitLock => 5
    case Locked => 4
    case SecondLook(_) => 3
    case Fetching => 2
    case Storing(_) => 1
  }

  /** A bound on the steps a task still has before it, a nested discovery included. */
  function Rank(task: Task): nat {
    match task
    case Done(_) => 0
    case InDiscovery(d) => PcRank(d)
    case InBoth(d) => 2 + PcRank(d)
    case InJwks(j) => if PcRank(j) <= 2 then PcRank(j) else PcRank(j) + 7
  }

  /** Every step takes its task closer to the end and leaves the others where they are. */
  lemma StepDescends(s: System, id: TaskId, now: Time, fetched: Option<Document>)
    requires Unfinished(s, id) && AdvanceTask(s, id, now, fetched).Some?
    ensures var s' := AdvanceTask(s, id, now, fetched).value;
            && s'.tasks == s.tasks[id := s'.tasks[id]]
            && Rank(s'.tasks[id]) < Rank(s.tasks[id])
  {
  }

  /** How many steps a run gives to one task. */
  function Steps(run: seq<Event>, id: TaskId): nat {
    if run == [] then 0
    else (if run[0].Advance? && run[0].id == id then 1 else 0) + Steps(run[1..], id)
  }

  /** A call takes at most fourteen steps in any run, blocked attempts not being steps. */
  lemma {:induction false} CallsAreShort(s: System, run: seq<Event>, clock: Time, id: TaskId)
    requires Run(s, run, clock) && id in s.tasks
    ensures Steps(run, id) <= Rank(s.tasks[id]) <= 14
    decreases |run|
  {
    if run != [] {
      var e, s' := run[0], Next(s, run[0]).value;
      if e.Advance? {
        StepDescends(s, e.id, e.now, e.fetched);
      }
      CallsAreShort(s', run[1..], ClockAfter(e, clock), id);
    }
  }

  function Total(tasks: map<TaskId, Task>): nat
    decreases |tasks|
  {
    if tasks == map[] then 0
    else
      var id := Least(tasks.Keys);
      Rank(tasks[id]) + Total(tasks - {id})
  }

  predicate IsLeast(id: TaskId, ids: set<TaskId>) {
    id in ids && forall other :: other in ids ==> id <= other
  }

  function Least(ids: set<TaskId>): (least: TaskId)
    requires ids != {}
    ensures least in ids
  {
    LeastExists(ids);
    var least :| IsLeast(least, ids);
    least
  }

  lemma {:induction false} LeastExists(ids: set<TaskId>)
    requires ids != {}
    ensures exists least :: IsLeast(least, ids)
    decreases |ids|
  {
    var some :| some in ids;
    var rest := ids - {some};
    assert ids == rest + {some};
    if rest == {} {
      assert IsLeast(some, ids);
    } else {
      LeastExists(rest);
      var least :| IsLeast(least, rest);
      assert IsLeast(if some <= least then some else least, ids);
    }
  }

  lemma {:induction false} TotalUpdate(tasks: map<TaskId, Task>, id: TaskId, task: Task)
    requires id in tasks
    ensures Total(tasks[id := task]) + Rank(tasks[id]) == Total(tasks) + Rank(task)
    decreases |tasks|
  {
    var updated := tasks[id := task];
    assert updated.Keys == tasks.Keys;
    var first := Least(tasks.Keys);
    if first == id {
      assert updated - {id} == tasks - {id};
    } else {
      TotalUpdate(tasks - {first}, id, task);
      assert updated - {first} == (tasks - {first})[id := task];
    }
  }

  /**
   From every state of the protocol the calls at hand can all be brought to an end, within the
   total of their remaining steps and with any clock and any fetch results.
   */
  lemma {:induction false} CallsCanFinish(s: System, clock: Time, fetched: Option<Document>) returns (run: seq<Event>)
    requires Inv(s, clock)
    ensures |run| <= Total(s.tasks) && Run(s, run, clock)
    ensures forall e :: e in run ==> e.Advance? && e.fetched == fetched
    ensures forall id :: !Unfinished(After(s, run, clock).0, id)
    decreases Total(s.tasks)
  {
    if id :| Unfinished(s, id) {
      var mover := NoDeadlock(s, clock, id);
      var e := Advance(mover, clock, fetched);
      var s' := Next(s, e).value;
      StepDescends(s, mover, clock, fetched);
      TotalUpdate(s.tasks, mover, s'.tasks[mover]);
      StepKeepsInv(s, e, clock);
      var rest := CallsCanFinish(s', clock, fetched);
      run := [e] + rest;
      assert run[1..] == rest;
    } else {
      run := [];
    }
  }
}
