/**
 Reloads and list refreshes of src/runtime/core.rs. The current engine and the cached list bytes
 live in two cells with a lock each, so another task may run between any two accesses. One feature's
 list is modelled; its refresh lock lets one refresh run at a time.
 */
module RuntimeLists {
  import opened Wrappers

  /** Engines are compared by identity, and a new one is never one that is still referenced. */
  type EngineId = nat
  type ReloadId = nat
  type Bytes = string

  datatype ReloadPc =
    | Built
    | Compared(changed: bool)
    /** The engine is swapped, the cached list is not written yet. */
    | Swapped(changed: bool)
    | Written(changed: bool)

  datatype Reload = Reload(engine: EngineId, payload: Bytes, pc: ReloadPc)

  datatype RefreshPc =
    | HasEngine
    | HasOld(previous: Bytes)
    | Differs(payload: Bytes)
    /** The snapshot was still current; the write-back comes next. */
    | Checked(payload: Bytes)
    | WroteBack(changed: bool)

  datatype Refresh = Refresh(engine: EngineId, pc: RefreshPc)

  datatype State = State(
    engine: EngineId, cache: Bytes, reloads: map<ReloadId, Reload>, refresh: Option<Refresh>,
    known: set<EngineId>, notified: nat)

  datatype Event =
    | ReloadBuild(id: ReloadId, engine: EngineId, payload: Bytes)
    | ReloadCompare(id: ReloadId)
    | ReloadSwap(id: ReloadId)
    | ReloadWrite(id: ReloadId)
    | ReloadNotify(id: ReloadId)
    | RefreshBegin
    | RefreshReadCache
    | RefreshCompute(payload: Bytes)
    | RefreshCheck
    | RefreshWrite
    | RefreshNotify

  /**
   The list an engine serialises and whether its configuration has notifications on. `makes` is a
   relation because a plugin may answer differently from one time to the next.
   */
  datatype Engines = Engines(makes: (EngineId, Bytes) -> bool, notifies: EngineId -> bool)

  function At(s: State, id: ReloadId, pc: ReloadPc): State
    requires id in s.reloads
  {
    s.(reloads := s.reloads[id := s.reloads[id].(pc := pc)])
  }

  /** A reload that fails while building changes nothing and has no step here. */
  function Next(engines: Engines, s: State, e: Event): Option<State> {
    match e
    case ReloadBuild(id, engine, payload) =>
      if id in s.reloads || engine in s.known || !engines.makes(engine, payload) then None
      else Some(s.(reloads := s.reloads[id := Reload(engine, payload, Built)], known := s.known + {engine}))
    case ReloadCompare(id) =>
      if id !in s.reloads || !s.reloads[id].pc.Built? then None
      else Some(At(s, id, Compared(s.cache != s.reloads[id].payload)))
    case ReloadSwap(id) =>
      if id !in s.reloads || !s.reloads[id].pc.Compared? then None
      else Some(At(s, id, Swapped(s.reloads[id].pc.changed)).(engine := s.reloads[id].engine))
    case ReloadWrite(id) =>
      if id !in s.reloads || !s.reloads[id].pc.Swapped? then None
      else Some(At(s, id, Written(s.reloads[id].pc.changed)).(cache := s.reloads[id].payload))
    case ReloadNotify(id) =>
      if id !in s.reloads || !s.reloads[id].pc.Written? then None
      else
        var tell := s.reloads[id].pc.changed && engines.notifies(s.reloads[id].engine);
        Some(s.(reloads := s.reloads - {id}, notified := s.notified + if tell then 1 else 0))
    case RefreshBegin =>
      if s.refresh.Some? then None else Some(s.(refresh := Some(Refresh(s.engine, HasEngine))))
    case RefreshReadCache =>
      if s.refresh.None? || !s.refresh.value.pc.HasEngine? then None
      else Some(s.(refresh := Some(s.refresh.value.(pc := HasOld(s.cache)))))
    case RefreshCompute(payload) =>
      if s.refresh.None? || !s.refresh.value.pc.HasOld? || !engines.makes(s.refresh.value.engine, payload) then None
      else if s.refresh.value.pc.previous == payload then Some(s.(refresh := None))
      else Some(s.(refresh := Some(s.refresh.value.(pc := Differs(payload)))))
    case RefreshCheck =>
      if s.refresh.None? || !s.refresh.value.pc.Differs? then None
      else if s.refresh.value.engine != s.engine then Some(s.(refresh := None))
      else Some(s.(refresh := Some(s.refresh.value.(pc := Checked(s.refresh.value.pc.payload)))))
    case RefreshWrite =>
      if s.refresh.None? || !s.refresh.value.pc.Checked? then None
      else
        var payload := s.refresh.value.pc.payload;
        Some(s.(cache := payload, refresh := Some(s.refresh.value.(pc := WroteBack(s.cache != payload)))))
    case RefreshNotify =>
      if s.refresh.None? || !s.refresh.value.pc.WroteBack? then None
      else
        var tell := s.refresh.value.pc.changed && engines.notifies(s.refresh.value.engine);
        Some(s.(refresh := None, notified := s.notified + if tell then 1 else 0))
  }

  predicate Run(engines: Engines, s: State, run: seq<Event>)
    decreases |run|
  {
    run == [] || (Next(engines, s, run[0]).Some? && Run(engines, Next(engines, s, run[0]).value, run[1..]))
  }

  function After(engines: Engines, s: State, run: seq<Event>): State
    requires Run(engines, s, run)
    decreases |run|
  {
    if run == [] then s else After(engines, Next(engines, s, run[0]).value, run[1..])
  }

  /** Puts one step in front of a run. */
  lemma ExtendRun(engines: Engines, s: State, e: Event, rest: seq<Event>)
    requires Next(engines, s, e).Some? && Run(engines, Next(engines, s, e).value, rest)
    ensures Run(engines, s, [e] + rest)
    ensures After(engines, s, [e] + rest) == After(engines, Next(engines, s, e).value, rest)
  {
    assert ([e] + rest)[1..] == rest;
  }

  /** A started runtime: the first engine, its list, and nobody at work. */
  function Started(engine: EngineId, cache: Bytes): State {
    State(engine, cache, map[], None, {engine}, 0)
  }

  // ---------------------------------------------------------------- agreement

  predicate BetweenWrites(s: State, id: ReloadId) {
    id in s.reloads && s.reloads[id].pc.Swapped?
  }

  /** No reload is between its two writes. */
  ghost predicate Settled(s: State) {
    forall id :: !BetweenWrites(s, id)
  }

  /** Outside a reload's two writes the cached list is one that the current engine makes. */
  ghost predicate Agrees(engines: Engines, s: State) {
    Settled(s) ==> engines.makes(s.engine, s.cache)
  }

  /**
   The event does not swap the engine between another reload's two writes, nor between the
   freshness check and the write-back of a refresh.
   */
  ghost predicate Orderly(s: State, e: Event) {
    e.ReloadSwap? ==> Settled(s) && !(s.refresh.Some? && s.refresh.value.pc.Checked?)
  }

  ghost predicate OrderlyRun(engines: Engines, s: State, run: seq<Event>)
    requires Run(engines, s, run)
    decreases |run|
  {
    run == [] || (Orderly(s, run[0]) && OrderlyRun(engines, Next(engines, s, run[0]).value, run[1..]))
  }

  /** The current engine makes every list that is still to be written, and the cached one once none is. */
  ghost predicate PendingFit(engines: Engines, s: State) {
    && Agrees(engines, s)
    && (forall id :: id in s.reloads ==> engines.makes(s.reloads[id].engine, s.reloads[id].payload))
    && (forall id :: BetweenWrites(s, id) ==> engines.makes(s.engine, s.reloads[id].payload))
    && (s.refresh.Some? && s.refresh.value.pc.Differs? ==>
          engines.makes(s.refresh.value.engine, s.refresh.value.pc.payload))
    && (s.refresh.Some? && s.refresh.value.pc.Checked? ==> engines.makes(s.engine, s.refresh.value.pc.payload))
  }

  /** `engine` makes every list that is past its point of no return: it will be written whatever happens. */
  ghost predicate MakesCommitted(engines: Engines, s: State, engine: EngineId) {
    && (forall other :: BetweenWrites(s, other) ==> engines.makes(engine, s.reloads[other].payload))
    && (s.refresh.Some? && s.refresh.value.pc.Checked? ==> engines.makes(engine, s.refresh.value.pc.payload))
  }

  /** Only to an engine that makes the committed lists is the current one swapped. */
  ghost predicate Harmless(engines: Engines, s: State, e: Event) {
    e.ReloadSwap? && e.id in s.reloads ==> MakesCommitted(engines, s, s.reloads[e.id].engine)
  }

  ghost predicate HarmlessRun(engines: Engines, s: State, run: seq<Event>)
    requires Run(engines, s, run)
    decreases |run|
  {
    run == [] || (Harmless(engines, s, run[0]) && HarmlessRun(engines, Next(engines, s, run[0]).value, run[1..]))
  }

  lemma {:induction false} OrderlyIsHarmless(engines: Engines, s: State, run: seq<Event>)
    requires Run(engines, s, run) && OrderlyRun(engines, s, run)
    ensures HarmlessRun(engines, s, run)
    decreases |run|
  {
    if run != [] {
      OrderlyIsHarmless(engines, Next(engines, s, run[0]).value, run[1..]);
    }
  }

  lemma {:induction false} StepKeepsFit(engines: Engines, s: State, e: Event)
    requires PendingFit(engines, s) && Harmless(engines, s, e) && Next(engines, s, e).Some?
    ensures PendingFit(engines, Next(engines, s, e).value)
  {
    var s' := Next(engines, s, e).value;
    forall id | BetweenWrites(s', id) ensures engines.makes(s'.engine, s'.reloads[id].payload) {
      assert BetweenWrites(s, id) || e == ReloadSwap(id);
    }
    FitAgrees(engines, s, e);
  }

  lemma FitAgrees(engines: Engines, s: State, e: Event)
    requires PendingFit(engines, s) && Harmless(engines, s, e) && Next(engines, s, e).Some?
    ensures Agrees(engines, Next(engines, s, e).value)
  {
    var s' := Next(engines, s, e).value;
    match e {
      case ReloadSwap(id) => assert BetweenWrites(s', id);
      case ReloadWrite(id) => assert BetweenWrites(s, id);
      case RefreshWrite =>
      case _ =>
        if Settled(s') {
          forall id ensures !BetweenWrites(s, id) {
            assert !BetweenWrites(s', id);
          }
        }
    }
  }

  lemma {:induction false} FitStays(engines: Engines, s: State, run: seq<Event>)
    requires PendingFit(engines, s) && Run(engines, s, run) && HarmlessRun(engines, s, run)
    ensures PendingFit(engines, After(engines, s, run))
    decreases |run|
  {
    if run != [] {
      StepKeepsFit(engines, s, run[0]);
      FitStays(engines, Next(engines, s, run[0]).value, run[1..]);
    }
  }

  /**
   In every run all of whose swaps are of that kind, overlapping reloads and swaps under a refresh
   included, the cached list agrees with the current engine.
   */
  lemma {:induction false} HarmlessRunsAgree(engines: Engines, engine: EngineId, cache: Bytes, run: seq<Event>)
    requires engines.makes(engine, cache)
    requires Run(engines, Started(engine, cache), run) && HarmlessRun(engines, Started(engine, cache), run)
    ensures Agrees(engines, After(engines, Started(engine, cache), run))
    ensures PendingFit(engines, After(engines, Started(engine, cache), run))
  {
    FitStays(engines, Started(engine, cache), run);
  }

  /** In every orderly run the cached list agrees with the current engine. */
  lemma ListCacheAgrees(engines: Engines, engine: EngineId, cache: Bytes, run: seq<Event>)
    requires engines.makes(engine, cache)
    requires Run(engines, Started(engine, cache), run) && OrderlyRun(engines, Started(engine, cache), run)
    ensures Agrees(engines, After(engines, Started(engine, cache), run))
  {
    OrderlyIsHarmless(engines, Started(engine, cache), run);
    HarmlessRunsAgree(engines, engine, cache, run);
  }

  function ToolsEngines(payload: EngineId -> Bytes, notifies: EngineId -> bool): Engines {
    Engines((e: EngineId, bytes: Bytes) => bytes == payload(e), notifies)
  }

  /** The tools list is a fixed part of its engine, so there the cached bytes are its very payload. */
  lemma ToolsCacheAgrees(
      payload: EngineId -> Bytes, notifies: EngineId -> bool, engine: EngineId, run: seq<Event>)
    requires var engines := ToolsEngines(payload, notifies);
             && Run(engines, Started(engine, payload(engine)), run)
             && OrderlyRun(engines, Started(engine, payload(engine)), run)
    ensures var engines := ToolsEngines(payload, notifies);
            var s := After(engines, Started(engine, payload(engine)), run);
            Settled(s) ==> s.cache == payload(s.engine)
  {
    var engines := ToolsEngines(payload, notifies);
    ListCacheAgrees(engines, engine, payload(engine), run);
  }
}
