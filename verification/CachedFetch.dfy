/**
 The double-checked caches of src/auth/inbound/provider.rs: any number of tasks call `discovery`
 and `jwks`, and every await point of `cached_fetch` is a place where another task may run. A key
 set fetch may call `discovery` while it holds the key set's refresh lock.
 */
module CachedFetch {
  import opened Wrappers

  type TaskId = nat
  /** Wall clock, in nanoseconds. */
  type Time = int

  /** A fetched document; `hasJwksUri` says whether a discovery document names the key set's URL. */
  datatype Document = Document(content: string, hasJwksUri: bool)

  datatype CacheEntry = CacheEntry(fetchedAt: Time, value: Document)

  datatype CacheId = Jwks | Discovery

  /** A cache and the holder of its refresh lock. */
  datatype Cell = Cell(entry: Option<CacheEntry>, holder: Option<TaskId>)

  /** Both caches expire after ten minutes. */
  const TTL: Time := 600_000_000_000

  /** Where a task stands in `cached_fetch`. */
  datatype Pc =
    | Start
    | FirstLook(now: Time)
    | AwaitLock
    | Locked
    | SecondLook(now: Time)
    | Fetching
    | Storing(value: Document)

  /** `InBoth` is a key set fetch, holding its lock, that waits for its own call of `discovery`. */
  datatype Task =
    | Done(result: Option<Document>)
    | InDiscovery(d: Pc)
    | InJwks(j: Pc)
    | InBoth(d: Pc)

  /** `urlConfigured`: the key set's URL is in the configuration, so no discovery is needed. */
  datatype System = System(jwks: Cell, discovery: Cell, tasks: map<TaskId, Task>, urlConfigured: bool)

  datatype Event =
    | CallDiscovery(id: TaskId)
    | CallJwks(id: TaskId)
    | Advance(id: TaskId, now: Time, fetched: Option<Document>)
    | Abandon(id: TaskId)

  predicate Fresh(entry: Option<CacheEntry>, now: Time) {
    entry.Some? && now - entry.value.fetchedAt < TTL
  }

  datatype FrameStep =
    | Blocked
    | Goto(cell: Cell, pc: Pc)
    | Return(cell: Cell, result: Option<Document>)

  /** One step of `cached_fetch`; `fetched` is what a finished fetch brings back. */
  function StepFrame(cell: Cell, pc: Pc, id: TaskId, now: Time, fetched: Option<Document>): FrameStep {
    match pc
    case Start => Goto(cell, FirstLook(now))
    case FirstLook(at) =>
      if Fresh(cell.entry, at) then Return(cell, Some(cell.entry.value.value)) else Goto(cell, AwaitLock)
    case AwaitLock =>
      if cell.holder.Some? then Blocked else Goto(cell.(holder := Some(id)), Locked)
    case Locked => Goto(cell, SecondLook(now))
    case SecondLook(at) =>
      if Fresh(cell.entry, at) then Return(cell.(holder := None), Some(cell.entry.value.value))
      else Goto(cell, Fetching)
    case Fetching => (
      match fetched
      case None => Return(cell.(holder := None), None)
      case Some(value) => Goto(cell, Storing(value)))
    case Storing(value) => Return(Cell(Some(CacheEntry(now, value)), None), Some(value))
  }

  /** What becomes of a key set fetch once its `discovery` call returns. */
  function Resume(s: System, id: TaskId, found: Option<Document>): System {
    if found.Some? && found.value.hasJwksUri then s.(tasks := s.tasks[id := InJwks(Fetching)])
    else s.(jwks := s.jwks.(holder := None), tasks := s.tasks[id := Done(None)])
  }

  /** A step of a running task; none if the task has to wait for a lock. */
  function AdvanceTask(s: System, id: TaskId, now: Time, fetched: Option<Document>): Option<System>
    requires id in s.tasks && !s.tasks[id].Done?
  {
    match s.tasks[id]
    case InDiscovery(d) => (
      match StepFrame(s.discovery, d, id, now, fetched)
      case Blocked => None
      case Goto(cell, pc) => Some(s.(discovery := cell, tasks := s.tasks[id := InDiscovery(pc)]))
      case Return(cell, result) => Some(s.(discovery := cell, tasks := s.tasks[id := Done(result)])))
    case InBoth(d) => (
      match StepFrame(s.discovery, d, id, now, fetched)
      case Blocked => None
      case Goto(cell, pc) => Some(s.(discovery := cell, tasks := s.tasks[id := InBoth(pc)]))
      case Return(cell, result) => Some(Resume(s.(discovery := cell), id, result)))
    case InJwks(j) =>
      match StepFrame(s.jwks, j, id, now, fetched)
      case Blocked => None
      case Goto(cell, pc) =>
        if pc == Fetching && !s.urlConfigured then Some(s.(jwks := cell, tasks := s.tasks[id := InBoth(Start)]))
        else Some(s.(jwks := cell, tasks := s.tasks[id := InJwks(pc)]))
      case Return(cell, result) => Some(s.(jwks := cell, tasks := s.tasks[id := Done(result)]))
  }

  function Release(cell: Cell, id: TaskId): Cell {
    if cell.holder == Some(id) then cell.(holder := None) else cell
  }

  /** A dropped future gives its locks back; a call is made under an unused task number. */
  function Next(s: System, e: Event): Option<System> {
    match e
    case CallDiscovery(id) => if id in s.tasks then None else Some(s.(tasks := s.tasks[id := InDiscovery(Start)]))
    case CallJwks(id) => if id in s.tasks then None else Some(s.(tasks := s.tasks[id := InJwks(Start)]))
    case Advance(id, now, fetched) =>
      if id in s.tasks && !s.tasks[id].Done? then AdvanceTask(s, id, now, fetched) else None
    case Abandon(id) =>
      if id in s.tasks && !s.tasks[id].Done? then
        Some(s.(jwks := Release(s.jwks, id), discovery := Release(s.discovery, id), tasks := s.tasks[id := Done(None)]))
      else None
  }

  function Initial(urlConfigured: bool): System {
    System(Cell(None, None), Cell(None, None), map[], urlConfigured)
  }

  // ---------------------------------------------------------------- invariant

  function CellOf(s: System, cache: CacheId): Cell {
    match cache case Jwks => s.jwks case Discovery => s.discovery
  }

  /** Where a task stands in the call that works on a cache. */
  function PcOf(task: Task, cache: CacheId): Option<Pc> {
    match task
    case Done(_) => None
    case InDiscovery(d) => if cache == Discovery then Some(d) else None
    case InJwks(j) => if cache == Jwks then Some(j) else None
    case InBoth(d) => if cache == Discovery then Some(d) else Some(Fetching)
  }

  predicate Holding(pc: Option<Pc>) {
    pc.Some? && (pc.value.Locked? || pc.value.SecondLook? || pc.value.Fetching? || pc.value.Storing?)
  }

  /** A fetch is under way, or what it brought is about to be stored. */
  predicate Refreshing(pc: Option<Pc>) {
    pc.Some? && (pc.value.Fetching? || pc.value.Storing?)
  }

  /** What is known of one task and one cache at clock time `now`. */
  predicate TaskOk(cell: Cell, pc: Option<Pc>, id: TaskId, now: Time) {
    && (Holding(pc) <==> cell.holder == Some(id))
    && (Refreshing(pc) ==> !Fresh(cell.entry, now))
    && (pc.Some? && pc.value.SecondLook? ==> pc.value.now <= now)
  }

  ghost predicate Inv(s: System, now: Time) {
    && (forall id, cache :: id in s.tasks ==> TaskOk(CellOf(s, cache), PcOf(s.tasks[id], cache), id, now))
    && (forall cache: CacheId :: CellOf(s, cache).holder.Some? ==> CellOf(s, cache).holder.value in s.tasks)
  }

  /** The clock after an event; events other than steps of a task do not read it. */
  function ClockAfter(e: Event, now: Time): Time {
    if e.Advance? then e.now else now
  }

  /** The frame of the task that moves. */
  lemma StepFrameOk(cell: Cell, pc: Pc, id: TaskId, clock: Time, now: Time, fetched: Option<Document>)
    requires TaskOk(cell, Some(pc), id, clock) && clock <= now
    ensures match StepFrame(cell, pc, id, now, fetched)
            case Blocked => true
            case Goto(cell', pc') => TaskOk(cell', Some(pc'), id, now)
            case Return(cell', _) => TaskOk(cell', None, id, now)
  {
  }

  /** A task that stands still does not notice the step of another. */
  lemma StepFrameFrame(
      cell: Cell, pc: Pc, id: TaskId, clock: Time, now: Time, fetched: Option<Document>,
      other: TaskId, otherPc: Option<Pc>)
    requires TaskOk(cell, Some(pc), id, clock) && TaskOk(cell, otherPc, other, clock)
    requires clock <= now && other != id
    ensures match StepFrame(cell, pc, id, now, fetched)
            case Blocked => true
            case Goto(cell', _) => TaskOk(cell', otherPc, other, now)
            case Return(cell', _) => TaskOk(cell', otherPc, other, now)
  {
  }

  lemma AdvanceKeepsTask(s: System, e: Event, clock: Time, other: TaskId, cache: CacheId)
    requires Inv(s, clock) && e.Advance? && Next(s, e).Some? && clock <= e.now
    requires other in s.tasks && other in Next(s, e).value.tasks
    ensures var s' := Next(s, e).value;
            TaskOk(CellOf(s', cache), PcOf(s'.tasks[other], cache), other, e.now)
  {
    var id := e.id;
    assert TaskOk(CellOf(s, cache), PcOf(s.tasks[other], cache), other, clock);
    assert TaskOk(s.jwks, PcOf(s.tasks[id], Jwks), id, clock) by { assert CellOf(s, Jwks) == s.jwks; }
    assert TaskOk(s.discovery, PcOf(s.tasks[id], Discovery), id, clock) by {
      assert CellOf(s, Discovery) == s.discovery;
    }
    var inner := if s.tasks[id].InJwks? then Jwks else Discovery;
    var pc := PcOf(s.tasks[id], inner).value;
    StepFrameOk(CellOf(s, inner), pc, id, clock, e.now, e.fetched);
    if other != id && cache == inner {
      StepFrameFrame(CellOf(s, inner), pc, id, clock, e.now, e.fetched, other, PcOf(s.tasks[other], cache));
    }
  }

  lemma StepKeepsTask(s: System, e: Event, clock: Time, other: TaskId, cache: CacheId)
    requires Inv(s, clock) && Next(s, e).Some? && clock <= ClockAfter(e, clock)
    requires other in Next(s, e).value.tasks
    ensures var s' := Next(s, e).value;
            TaskOk(CellOf(s', cache), PcOf(s'.tasks[other], cache), other, ClockAfter(e, clock))
  {
    var s' := Next(s, e).value;
    if other in s.tasks {
      assert TaskOk(CellOf(s, cache), PcOf(s.tasks[other], cache), other, clock);
    }
    if e.Advance? {
      AdvanceKeepsTask(s, e, clock, other, cache);
    } else if e.Abandon? {
      assert TaskOk(CellOf(s, cache), PcOf(s.tasks[e.id], cache), e.id, clock);
    } else if other == e.id {
      assert CellOf(s, cache).holder != Some(other);
    }
  }

  /** Every step of every task keeps the locks with their holders and refreshes with stale caches. */
  lemma StepKeepsInv(s: System, e: Event, clock: Time)
    requires Inv(s, clock) && Next(s, e).Some? && clock <= ClockAfter(e, clock)
    ensures Inv(Next(s, e).value, ClockAfter(e, clock))
  {
    var s' := Next(s, e).value;
    forall id, cache | id in s'.tasks
      ensures TaskOk(CellOf(s', cache), PcOf(s'.tasks[id], cache), id, ClockAfter(e, clock))
    {
      StepKeepsTask(s, e, clock, id, cache);
    }
    forall cache: CacheId
      ensures CellOf(s', cache).holder.Some? ==> CellOf(s', cache).holder.value in s'.tasks
    {
      assert CellOf(s, cache).holder.Some? ==> CellOf(s, cache).holder.value in s.tasks;
    }
  }

}
