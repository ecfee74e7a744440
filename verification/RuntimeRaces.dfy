/**
 What reloads and refreshes of src/runtime/core.rs can do to each other: runs that leave an outdated list,
 the swaps that can never lead there, and refreshes that come too late.
 */
module RuntimeRaces {
  import opened Wrappers
  import opened RuntimeLists

  // ---------------------------------------------------------------- why the order matters

  lemma Extend(engines: Engines, s: State, e: Event, rest: seq<Event>, end: State) returns (run: seq<Event>)
    requires Next(engines, s, e).Some?
    requires Run(engines, Next(engines, s, e).value, rest) && After(engines, Next(engines, s, e).value, rest) == end
    ensures Run(engines, s, run) && After(engines, s, run) == end
  {
    ExtendRun(engines, s, e, rest);
    run := [e] + rest;
  }

  /** Every reload starts after the one before it has ended. */
  predicate OneByOne(engines: Engines, s: State, run: seq<Event>)
    requires Run(engines, s, run)
    decreases |run|
  {
    run == [] ||
    ((run[0].ReloadBuild? ==> s.reloads == map[]) && OneByOne(engines, Next(engines, s, run[0]).value, run[1..]))
  }

  /** `run` leads from `s` to `end`, reloading one by one. */
  ghost predicate Leads(engines: Engines, s: State, run: seq<Event>, end: State) {
    Run(engines, s, run) && OneByOne(engines, s, run) && After(engines, s, run) == end
  }

  lemma LeadsFrom(engines: Engines, s: State, e: Event, rest: seq<Event>, end: State) returns (run: seq<Event>)
    requires Next(engines, s, e).Some? && (e.ReloadBuild? ==> s.reloads == map[])
    requires Leads(engines, Next(engines, s, e).value, rest, end)
    ensures Leads(engines, s, run, end)
    ensures Orderly(s, e) && OrderlyRun(engines, Next(engines, s, e).value, rest) ==> OrderlyRun(engines, s, run)
  {
    ExtendRun(engines, s, e, rest);
    run := [e] + rest;
    assert run[1..] == rest;
  }

  /** A whole reload, with nothing else in between. */
  lemma WholeReload(engines: Engines, s: State, engine: EngineId, payload: Bytes, rest: seq<Event>, end: State)
    returns (run: seq<Event>)
    requires s.reloads == map[] && engine !in s.known && engines.makes(engine, payload)
    requires Leads(engines, Reloaded(engines, s, engine, payload), rest, end)
    ensures Leads(engines, s, run, end)
  {
    var s1 := Next(engines, s, ReloadBuild(0, engine, payload)).value;
    var s2 := Next(engines, s1, ReloadCompare(0)).value;
    var s3 := Next(engines, s2, ReloadSwap(0)).value;
    var s4 := Next(engines, s3, ReloadWrite(0)).value;
    var s5 := Next(engines, s4, ReloadNotify(0)).value;
    assert s5.reloads == map[];
    assert s5 == Reloaded(engines, s, engine, payload);
    run := LeadsFrom(engines, s4, ReloadNotify(0), rest, end);
    run := LeadsFrom(engines, s3, ReloadWrite(0), run, end);
    run := LeadsFrom(engines, s2, ReloadSwap(0), run, end);
    run := LeadsFrom(engines, s1, ReloadCompare(0), run, end);
    run := LeadsFrom(engines, s, ReloadBuild(0, engine, payload), run, end);
  }

  function Reloaded(engines: Engines, s: State, engine: EngineId, payload: Bytes): State {
    var tell := s.cache != payload && engines.notifies(engine);
    s.(engine := engine, cache := payload, known := s.known + {engine},
       notified := s.notified + if tell then 1 else 0)
  }

  /** A checked refresh outlives a whole reload and writes its list over the new one. */
  lemma ReloadThenWriteBack(
      engines: Engines, s: State, stale: Bytes, engine: EngineId, payload: Bytes)
    returns (run: seq<Event>, end: State)
    requires s.reloads == map[] && s.refresh.Some? && s.refresh.value.pc == Checked(stale)
    requires engine !in s.known && engines.makes(engine, payload)
    ensures Leads(engines, s, run, end)
    ensures end.engine == engine && end.cache == stale && end.refresh.None? && end.reloads == map[]
  {
    var s1 := Reloaded(engines, s, engine, payload);
    var s2 := Next(engines, s1, RefreshWrite).value;
    end := Next(engines, s2, RefreshNotify).value;
    run := LeadsFrom(engines, s2, RefreshNotify, [], end);
    run := LeadsFrom(engines, s1, RefreshWrite, run, end);
    run := WholeReload(engines, s, engine, payload, run, end);
  }

  /** A refresh that finds another list than its engine's and passes its check. */
  lemma RefreshPassesCheck(engines: Engines, s: State, payload: Bytes, rest: seq<Event>, end: State)
    returns (run: seq<Event>)
    requires s.refresh.None? && engines.makes(s.engine, payload) && s.cache != payload
    requires Leads(engines, s.(refresh := Some(Refresh(s.engine, Checked(payload)))), rest, end)
    ensures Leads(engines, s, run, end)
  {
    var s1 := Next(engines, s, RefreshBegin).value;
    var s2 := Next(engines, s1, RefreshReadCache).value;
    var s3 := Next(engines, s2, RefreshCompute(payload)).value;
    assert Next(engines, s3, RefreshCheck) == Some(s.(refresh := Some(Refresh(s.engine, Checked(payload)))));
    run := LeadsFrom(engines, s3, RefreshCheck, rest, end);
    run := LeadsFrom(engines, s2, RefreshCompute(payload), run, end);
    run := LeadsFrom(engines, s1, RefreshReadCache, run, end);
    run := LeadsFrom(engines, s, RefreshBegin, run, end);
  }

  /**
   The freshness check and the write-back are two steps, and a whole reload fits between them: where an
   engine may list differently from one time to the next, its outdated list then overwrites the new one.
   */
  lemma StaleWriteBack(engines: Engines, one: EngineId, two: EngineId, before: Bytes, after: Bytes, other: Bytes)
    returns (run: seq<Event>, end: State)
    requires one != two && before != after
    requires engines.makes(one, before) && engines.makes(one, after) && engines.makes(two, other)
    requires !engines.makes(two, after)
    ensures Leads(engines, Started(one, before), run, end)
    ensures !Agrees(engines, end) && end.refresh.None? && end.reloads == map[]
  {
    var s := Started(one, before);
    run, end := ReloadThenWriteBack(engines, s.(refresh := Some(Refresh(one, Checked(after)))), after, two, other);
    run := RefreshPassesCheck(engines, s, after, run, end);
    forall id ensures !BetweenWrites(end, id) {
    }
  }

  /**
   Tools are a fixed part of their engine, and still an outdated list can stay, though reloads come one by
   one: a refresh begins between the two writes of a reload, finds the old list, and passes its check; that
   reload ends, the next runs whole, and the refresh writes back the tools of the engine before.
   */
  lemma StaleToolsWriteBack(
      payload: EngineId -> Bytes, notifies: EngineId -> bool, one: EngineId, two: EngineId, three: EngineId)
    returns (run: seq<Event>, end: State)
    requires one != three && payload(one) != payload(two) && payload(two) != payload(three)
    ensures Leads(ToolsEngines(payload, notifies), Started(one, payload(one)), run, end)
    ensures end.engine == three && end.cache == payload(two) && end.refresh.None? && end.reloads == map[]
    ensures !Agrees(ToolsEngines(payload, notifies), end)
  {
    var engines := ToolsEngines(payload, notifies);
    var s0 := Started(one, payload(one));
    var s1 := Next(engines, s0, ReloadBuild(0, two, payload(two))).value;
    var s2 := Next(engines, s1, ReloadCompare(0)).value;
    var s3 := Next(engines, s2, ReloadSwap(0)).value;
    var s4 := s3.(refresh := Some(Refresh(two, Checked(payload(two)))));
    var s5 := Next(engines, s4, ReloadWrite(0)).value;
    var s6 := Next(engines, s5, ReloadNotify(0)).value;
    assert s6.reloads == map[] && s6.known == {one, two};
    run, end := ReloadThenWriteBack(engines, s6, payload(two), three, payload(three));
    run := LeadsFrom(engines, s5, ReloadNotify(0), run, end);
    run := LeadsFrom(engines, s4, ReloadWrite(0), run, end);
    run := RefreshPassesCheck(engines, s3, payload(two), run, end);
    run := LeadsFrom(engines, s2, ReloadSwap(0), run, end);
    run := LeadsFrom(engines, s1, ReloadCompare(0), run, end);
    run := LeadsFrom(engines, s0, ReloadBuild(0, two, payload(two)), run, end);
    forall id ensures !BetweenWrites(end, id) {
    }
  }

  /** Two reloads that overlap can leave the engine of one with the list of the other. */
  lemma CrossedReloads(engines: Engines, one: EngineId, two: EngineId, three: EngineId, a: Bytes, b: Bytes, c: Bytes)
    returns (run: seq<Event>)
    requires one != two && two != three && one != three
    requires engines.makes(one, a) && engines.makes(two, b) && engines.makes(three, c)
    requires !engines.makes(three, b)
    ensures Run(engines, Started(one, a), run)
    ensures !Agrees(engines, After(engines, Started(one, a), run))
  {
    var s0 := Started(one, a);
    var s1 := Next(engines, s0, ReloadBuild(0, two, b)).value;
    var s2 := Next(engines, s1, ReloadBuild(1, three, c)).value;
    var s3 := Next(engines, s2, ReloadCompare(0)).value;
    var s4 := Next(engines, s3, ReloadCompare(1)).value;
    var s5 := Next(engines, s4, ReloadSwap(0)).value;
    var s6 := Next(engines, s5, ReloadSwap(1)).value;
    var s7 := Next(engines, s6, ReloadWrite(1)).value;
    var s8 := Next(engines, s7, ReloadWrite(0)).value;
    assert s8.reloads.Keys == {0, 1} && s8.reloads[0].pc.Written? && s8.reloads[1].pc.Written?;
    run := Extend(engines, s7, ReloadWrite(0), [], s8);
    run := Extend(engines, s6, ReloadWrite(1), run, s8);
    run := Extend(engines, s5, ReloadSwap(1), run, s8);
    run := Extend(engines, s4, ReloadSwap(0), run, s8);
    run := Extend(engines, s3, ReloadCompare(1), run, s8);
    run := Extend(engines, s2, ReloadCompare(0), run, s8);
    run := Extend(engines, s1, ReloadBuild(1, three, c), run, s8);
    run := Extend(engines, s0, ReloadBuild(0, two, b), run, s8);
  }

  /** No two engines ever make the same list. */
  ghost predicate ListsDiffer(engines: Engines) {
    forall a, b, bytes :: engines.makes(a, bytes) && engines.makes(b, bytes) ==> a == b
  }

  /** From here on, orderly steps keep the list in agreement. */
  ghost predicate StaysInAgreement(engines: Engines, s: State) {
    forall run :: Run(engines, s, run) && OrderlyRun(engines, s, run) ==> Agrees(engines, After(engines, s, run))
  }

  /** The reloads between their writes. */
  function Writing(s: State): set<ReloadId> {
    set id | id in s.reloads && s.reloads[id].pc.Swapped?
  }

  /** All reloads between their writes can write, and any of them last. */
  lemma {:induction false} WriteAll(engines: Engines, s: State, last: ReloadId) returns (run: seq<Event>, end: State)
    requires BetweenWrites(s, last)
    ensures Run(engines, s, run) && OrderlyRun(engines, s, run) && After(engines, s, run) == end
    ensures Settled(end) && end.engine == s.engine && end.cache == s.reloads[last].payload && end.refresh == s.refresh
    decreases |Writing(s)|
  {
    if other :| other in Writing(s) && other != last {
      var s1 := Next(engines, s, ReloadWrite(other)).value;
      assert Writing(s1) == Writing(s) - {other};
      run, end := WriteAll(engines, s1, last);
      run := [ReloadWrite(other)] + run;
    } else {
      end := Next(engines, s, ReloadWrite(last)).value;
      run := [ReloadWrite(last)] + [];
      forall any ensures !BetweenWrites(end, any) {
        assert any in Writing(s) ==> any == last;
      }
    }
  }

  lemma {:induction false} OrderlyInParts(engines: Engines, s: State, first: seq<Event>, later: seq<Event>)
    requires Run(engines, s, first) && OrderlyRun(engines, s, first)
    requires Run(engines, After(engines, s, first), later) && OrderlyRun(engines, After(engines, s, first), later)
    ensures Run(engines, s, first + later) && OrderlyRun(engines, s, first + later)
    ensures After(engines, s, first + later) == After(engines, After(engines, s, first), later)
    decreases |first|
  {
    if first == [] {
      assert first + later == later;
    } else {
      assert (first + later)[1..] == first[1..] + later;
      OrderlyInParts(engines, Next(engines, s, first[0]).value, first[1..], later);
    }
  }

  /** A swap under a reload between its writes, whose list the new engine does not make. */
  lemma SwapBetweenWrites(engines: Engines, s: State, id: ReloadId, other: ReloadId)
    requires Next(engines, s, ReloadSwap(id)).Some? && BetweenWrites(s, other)
    requires !engines.makes(s.reloads[id].engine, s.reloads[other].payload)
    ensures !StaysInAgreement(engines, Next(engines, s, ReloadSwap(id)).value)
  {
    var s' := Next(engines, s, ReloadSwap(id)).value;
    var run, end := WriteAll(engines, s', other);
    assert !Agrees(engines, After(engines, s', run));
  }

  /** A swap under a refresh between its check and its write-back, whose list the new engine does not make. */
  lemma SwapBeforeWriteBack(engines: Engines, s: State, id: ReloadId)
    requires Next(engines, s, ReloadSwap(id)).Some? && s.refresh.Some? && s.refresh.value.pc.Checked?
    requires !engines.makes(s.reloads[id].engine, s.refresh.value.pc.payload)
    ensures !StaysInAgreement(engines, Next(engines, s, ReloadSwap(id)).value)
  {
    var s' := Next(engines, s, ReloadSwap(id)).value;
    var run, mid := WriteAll(engines, s', id);
    var end := Next(engines, mid, RefreshWrite).value;
    var last := [RefreshWrite] + [];
    OrderlyInParts(engines, s', run, last);
    forall any ensures !BetweenWrites(end, any) {
      assert !BetweenWrites(mid, any);
    }
    assert !Agrees(engines, After(engines, s', run + last));
  }

  /**
   The swaps that can never lead to disagreement, exactly, in every state harmless runs lead to: those to an
   engine that makes the lists of all reloads between their writes and of a refresh past its check.
   */
  lemma HarmlessSwaps(engines: Engines, s: State, id: ReloadId)
    requires PendingFit(engines, s) && Next(engines, s, ReloadSwap(id)).Some?
    ensures MakesCommitted(engines, s, s.reloads[id].engine)
       <==> StaysInAgreement(engines, Next(engines, s, ReloadSwap(id)).value)
  {
    var s' := Next(engines, s, ReloadSwap(id)).value;
    var engine := s.reloads[id].engine;
    if MakesCommitted(engines, s, engine) {
      StepKeepsFit(engines, s, ReloadSwap(id));
      forall run | Run(engines, s', run) && OrderlyRun(engines, s', run)
        ensures Agrees(engines, After(engines, s', run))
      {
        OrderlyIsHarmless(engines, s', run);
        FitStays(engines, s', run);
      }
    } else if other :| BetweenWrites(s, other) && !engines.makes(engine, s.reloads[other].payload) {
      SwapBetweenWrites(engines, s, id, other);
    } else {
      SwapBeforeWriteBack(engines, s, id);
    }
  }

  /** Where no two engines ever make the same list, those are exactly the swaps outside both gaps. */
  lemma HarmlessSwapsExactly(engines: Engines, s: State, id: ReloadId)
    requires PendingFit(engines, s) && EnginesKnown(s) && ListsDiffer(engines)
    requires Next(engines, s, ReloadSwap(id)).Some?
    ensures Orderly(s, ReloadSwap(id)) <==> StaysInAgreement(engines, Next(engines, s, ReloadSwap(id)).value)
  {
    HarmlessSwaps(engines, s, id);
    forall other | BetweenWrites(s, other)
      ensures !engines.makes(s.reloads[id].engine, s.reloads[other].payload)
    {
      assert engines.makes(s.engine, s.reloads[other].payload);
    }
  }

  // ---------------------------------------------------------------- refreshes that come too late

  /** Engines that are or will be current are known, and those still to come are not current yet. */
  ghost predicate EnginesKnown(s: State) {
    && s.engine in s.known
    && (forall id :: id in s.reloads ==> s.reloads[id].engine in s.known)
    && (forall id :: id in s.reloads && !(s.reloads[id].pc.Swapped? || s.reloads[id].pc.Written?) ==>
          s.reloads[id].engine != s.engine)
    && (forall a, b :: a in s.reloads && b in s.reloads && s.reloads[a].engine == s.reloads[b].engine ==> a == b)
  }

  /** `gone` has been current and never will be again. */
  ghost predicate Retired(s: State, gone: EngineId) {
    && gone in s.known && s.engine != gone
    && forall id :: id in s.reloads && s.reloads[id].engine == gone ==>
         s.reloads[id].pc.Swapped? || s.reloads[id].pc.Written?
  }

  lemma StepKeepsKnown(engines: Engines, s: State, e: Event, gone: EngineId)
    requires EnginesKnown(s) && Next(engines, s, e).Some?
    ensures EnginesKnown(Next(engines, s, e).value)
    ensures Retired(s, gone) ==> Retired(Next(engines, s, e).value, gone)
    ensures e.ReloadSwap? ==> Retired(Next(engines, s, e).value, s.engine)
  {
  }

  lemma {:induction false} StaysRetired(engines: Engines, s: State, run: seq<Event>, gone: EngineId)
    requires EnginesKnown(s) && Run(engines, s, run)
    ensures EnginesKnown(After(engines, s, run))
    ensures Retired(s, gone) ==> Retired(After(engines, s, run), gone)
    decreases |run|
  {
    if run != [] {
      StepKeepsKnown(engines, s, run[0], gone);
      StaysRetired(engines, Next(engines, s, run[0]).value, run[1..], gone);
    }
  }

  lemma {:induction false} SwapRetires(engines: Engines, s: State, run: seq<Event>, k: nat)
    requires EnginesKnown(s) && Run(engines, s, run)
    requires k < |run| && run[k].ReloadSwap? && forall i :: 0 <= i < k ==> !run[i].ReloadSwap?
    ensures Retired(After(engines, s, run), s.engine)
    decreases |run|
  {
    var s' := Next(engines, s, run[0]).value;
    StepKeepsKnown(engines, s, run[0], s.engine);
    if k == 0 {
      StaysRetired(engines, s', run[1..], s.engine);
    } else {
      assert s'.engine == s.engine;
      SwapRetires(engines, s', run[1..], k - 1);
    }
  }

  /** Some run of a started runtime leads here. */
  ghost predicate Reachable(engines: Engines, s: State) {
    exists engine, cache, run: seq<Event> ::
      Run(engines, Started(engine, cache), run) && After(engines, Started(engine, cache), run) == s
  }

  lemma ReachableKnown(engines: Engines, s: State)
    requires Reachable(engines, s)
    ensures EnginesKnown(s)
  {
    var engine, cache, run: seq<Event> :|
      Run(engines, Started(engine, cache), run) && After(engines, Started(engine, cache), run) == s;
    StaysRetired(engines, Started(engine, cache), run, engine);
  }

  /**
   A refresh that took its engine before a swap and comes to its check after it is discarded: it
   writes nothing and notifies nobody, whatever has happened before and in between.
   */
  lemma StaleRefreshDiscarded(engines: Engines, s: State, run: seq<Event>, k: nat)
    requires Reachable(engines, s) && Run(engines, s, run)
    requires k < |run| && run[k].ReloadSwap? && forall i :: 0 <= i < k ==> !run[i].ReloadSwap?
    requires var late := After(engines, s, run);
             late.refresh.Some? && late.refresh.value.pc.Differs? && late.refresh.value.engine == s.engine
    ensures var late := After(engines, s, run);
            Next(engines, late, RefreshCheck) == Some(late.(refresh := None))
  {
    ReachableKnown(engines, s);
    SwapRetires(engines, s, run, k);
  }

  // ---------------------------------------------------------------- which changes are announced

  predicate Untold(run: seq<Event>, id: ReloadId) {
    forall i :: 0 <= i < |run| ==> run[i] != ReloadNotify(id)
  }

  /** A reload past its comparison keeps its engine, its list, and what the comparison found. */
  predicate Remembers(s: State, id: ReloadId, engine: EngineId, payload: Bytes, changed: bool) {
    && id in s.reloads && s.reloads[id].engine == engine && s.reloads[id].payload == payload
    && !s.reloads[id].pc.Built? && s.reloads[id].pc.changed == changed
  }

  lemma {:induction false} StillRemembers(
      engines: Engines, s: State, run: seq<Event>, id: ReloadId, engine: EngineId, payload: Bytes, changed: bool)
    requires Remembers(s, id, engine, payload, changed) && Run(engines, s, run) && Untold(run, id)
    ensures Remembers(After(engines, s, run), id, engine, payload, changed)
    decreases |run|
  {
    if run != [] {
      assert run[0] != ReloadNotify(id);
      StillRemembers(engines, Next(engines, s, run[0]).value, run[1..], id, engine, payload, changed);
    }
  }

  /**
   When a reload announces its list, and when it should. `s` is the state at its comparison, `between` and
   `after` are what happens around its write. It announces exactly if the list was another one at the
   comparison; its write changes the list exactly if that is another one at the write. So, with notifications
   on, a change goes unannounced exactly when the list was the reload's own at the comparison and no longer
   at the write, and an announcement is idle exactly the other way round.
   */
  lemma AnnouncedExactly(engines: Engines, s: State, id: ReloadId, between: seq<Event>, after: seq<Event>)
    requires Next(engines, s, ReloadCompare(id)).Some?
    requires Run(engines, Next(engines, s, ReloadCompare(id)).value, between)
    requires Untold(between, id) && Untold(after, id)
    requires
      var t := After(engines, Next(engines, s, ReloadCompare(id)).value, between);
      Next(engines, t, ReloadWrite(id)).Some? && Run(engines, Next(engines, t, ReloadWrite(id)).value, after)
    ensures
      var t := After(engines, Next(engines, s, ReloadCompare(id)).value, between);
      var u := Next(engines, t, ReloadWrite(id)).value;
      var end := Next(engines, After(engines, u, after), ReloadNotify(id));
      var enabled := engines.notifies(s.reloads[id].engine);
      var told := end.Some? && end.value.notified > After(engines, u, after).notified;
      && (told <==> enabled && s.cache != s.reloads[id].payload)
      && (u.cache != t.cache <==> t.cache != s.reloads[id].payload)
      && (enabled && u.cache != t.cache && !told
          <==> enabled && s.cache == s.reloads[id].payload && t.cache != s.reloads[id].payload)
      && (told && u.cache == t.cache
          <==> enabled && s.cache != s.reloads[id].payload && t.cache == s.reloads[id].payload)
  {
    var engine, payload := s.reloads[id].engine, s.reloads[id].payload;
    var changed := s.cache != payload;
    StillRemembers(engines, Next(engines, s, ReloadCompare(id)).value, between, id, engine, payload, changed);
    var t := After(engines, Next(engines, s, ReloadCompare(id)).value, between);
    var u := Next(engines, t, ReloadWrite(id)).value;
    StaysWritten(engines, u, after, id, engine, payload, changed);
  }

  lemma {:induction false} StaysWritten(
      engines: Engines, s: State, run: seq<Event>, id: ReloadId, engine: EngineId, payload: Bytes, changed: bool)
    requires Remembers(s, id, engine, payload, changed) && s.reloads[id].pc.Written?
    requires Run(engines, s, run) && Untold(run, id)
    ensures Remembers(After(engines, s, run), id, engine, payload, changed)
    ensures After(engines, s, run).reloads[id].pc.Written?
    decreases |run|
  {
    if run != [] {
      assert run[0] != ReloadNotify(id);
      StaysWritten(engines, Next(engines, s, run[0]).value, run[1..], id, engine, payload, changed);
    }
  }

  /**
   It does happen, and in an orderly run: a reload finds its own list cached, a refresh then writes another
   one and announces it (that is `first`), and the reload writes its own back and tells nobody (`later`).
   */
  lemma UnannouncedChange(engines: Engines, one: EngineId, two: EngineId, a: Bytes, b: Bytes)
    returns (first: seq<Event>, mid: State, later: seq<Event>, end: State)
    requires one != two && a != b && engines.makes(one, a) && engines.makes(one, b) && engines.makes(two, a)
    ensures Leads(engines, Started(one, a), first, mid) && OrderlyRun(engines, Started(one, a), first)
    ensures mid.cache == b && mid.notified == if engines.notifies(one) then 1 else 0
    ensures Leads(engines, mid, later, end) && OrderlyRun(engines, mid, later)
    ensures end.engine == two && end.cache == a && end.notified == mid.notified
    ensures end.reloads == map[] && end.refresh.None?
  {
    var s0 := Started(one, a);
    var s1 := Next(engines, s0, ReloadBuild(0, two, a)).value;
    var s2 := Next(engines, s1, ReloadCompare(0)).value;
    first, mid := RefreshAnnounces(engines, s2, b);
    first := LeadsFrom(engines, s1, ReloadCompare(0), first, mid);
    first := LeadsFrom(engines, s0, ReloadBuild(0, two, a), first, mid);
    var t1 := Next(engines, mid, ReloadSwap(0)).value;
    var t2 := Next(engines, t1, ReloadWrite(0)).value;
    end := Next(engines, t2, ReloadNotify(0)).value;
    assert end.reloads == map[];
    later := LeadsFrom(engines, t2, ReloadNotify(0), [], end);
    later := LeadsFrom(engines, t1, ReloadWrite(0), later, end);
    later := LeadsFrom(engines, mid, ReloadSwap(0), later, end);
  }

  lemma {:induction false} StaysWroteBack(engines: Engines, s: State, run: seq<Event>)
    requires s.refresh.Some? && s.refresh.value.pc.WroteBack?
    requires Run(engines, s, run) && RefreshNotify !in run
    ensures After(engines, s, run).refresh == s.refresh
    decreases |run|
  {
    if run != [] {
      assert run[0] in run;
      StaysWroteBack(engines, Next(engines, s, run[0]).value, run[1..]);
    }
  }

  /**
   A refresh announces its list exactly if its write changes the cached one, whatever that was when it looked:
   it stays silent when the cache has come to hold its list in between.
   */
  lemma RefreshAnnouncedExactly(engines: Engines, s: State, after: seq<Event>)
    requires Next(engines, s, RefreshWrite).Some?
    requires RefreshNotify !in after && Run(engines, Next(engines, s, RefreshWrite).value, after)
    ensures
      var written := Next(engines, s, RefreshWrite).value;
      var last := After(engines, written, after);
      var end := Next(engines, last, RefreshNotify);
      && s.refresh.Some? && s.refresh.value.pc.Checked? && written.cache == s.refresh.value.pc.payload
      && end.Some? && end.value.refresh == None && end.value.cache == last.cache
      && end.value.notified
         == last.notified + if engines.notifies(s.refresh.value.engine) && written.cache != s.cache then 1 else 0
  {
    StaysWroteBack(engines, Next(engines, s, RefreshWrite).value, after);
  }

  /** A whole refresh that writes another list. */
  lemma RefreshAnnounces(engines: Engines, s: State, payload: Bytes) returns (run: seq<Event>, end: State)
    requires s.refresh.None? && engines.makes(s.engine, payload) && s.cache != payload
    ensures Leads(engines, s, run, end) && OrderlyRun(engines, s, run)
    ensures end == s.(cache := payload, notified := s.notified + if engines.notifies(s.engine) then 1 else 0)
  {
    var s1 := Next(engines, s, RefreshBegin).value;
    var s2 := Next(engines, s1, RefreshReadCache).value;
    var s3 := Next(engines, s2, RefreshCompute(payload)).value;
    var s4 := Next(engines, s3, RefreshCheck).value;
    var s5 := Next(engines, s4, RefreshWrite).value;
    end := Next(engines, s5, RefreshNotify).value;
    run := LeadsFrom(engines, s5, RefreshNotify, [], end);
    run := LeadsFrom(engines, s4, RefreshWrite, run, end);
    run := LeadsFrom(engines, s3, RefreshCheck, run, end);
    run := LeadsFrom(engines, s2, RefreshCompute(payload), run, end);
    run := LeadsFrom(engines, s1, RefreshReadCache, run, end);
    run := LeadsFrom(engines, s, RefreshBegin, run, end);
  }
}
