/** How often the double-checked caches fetch, over every interleaving of every number of tasks. */
module CachedFetchSpacing {
  import opened Wrappers
  import opened CachedFetch

  /** The events are possible in this order, and clock readings never go back. */
  predicate Run(s: System, run: seq<Event>, clock: Time)
    decreases |run|
  {
    if run == [] then true
    else
      && Next(s, run[0]).Some? && clock <= ClockAfter(run[0], clock)
      && Run(Next(s, run[0]).value, run[1..], ClockAfter(run[0], clock))
  }

  function After(s: System, run: seq<Event>, clock: Time): (System, Time)
    requires Run(s, run, clock)
    decreases |run|
  {
    if run == [] then (s, clock) else After(Next(s, run[0]).value, run[1..], ClockAfter(run[0], clock))
  }

  /** The event writes a fetched document into the cache. */
  predicate Stores(s: System, e: Event, cache: CacheId) {
    && e.Advance? && e.id in s.tasks
    && PcOf(s.tasks[e.id], cache).Some? && PcOf(s.tasks[e.id], cache).value.Storing?
  }

  /** Only a successful fetch changes what is cached, and it stamps the entry with the clock. */
  lemma OnlyStoresChangeEntry(s: System, e: Event, cache: CacheId)
    requires Next(s, e).Some?
    ensures Stores(s, e, cache) ==>
              var pc := PcOf(s.tasks[e.id], cache).value;
              CellOf(Next(s, e).value, cache) == Cell(Some(CacheEntry(e.now, pc.value)), None)
    ensures !Stores(s, e, cache) ==> CellOf(Next(s, e).value, cache).entry == CellOf(s, cache).entry
  {
  }

  /** The task is fetching for this cache: it runs the fetch or still has to store its result. */
  predicate InFlight(s: System, id: TaskId, cache: CacheId) {
    id in s.tasks && Refreshing(PcOf(s.tasks[id], cache))
  }

  /** In every reachable state at most one fetch per cache is in flight. */
  lemma {:induction false} SingleFlight(s: System, run: seq<Event>, clock: Time, a: TaskId, b: TaskId, cache: CacheId)
    requires Inv(s, clock) && Run(s, run, clock)
    requires InFlight(After(s, run, clock).0, a, cache) && InFlight(After(s, run, clock).0, b, cache)
    ensures a == b
    decreases |run|
  {
    if run == [] {
      assert TaskOk(CellOf(s, cache), PcOf(s.tasks[a], cache), a, clock);
      assert TaskOk(CellOf(s, cache), PcOf(s.tasks[b], cache), b, clock);
    } else {
      StepKeepsInv(s, run[0], clock);
      SingleFlight(Next(s, run[0]).value, run[1..], ClockAfter(run[0], clock), a, b, cache);
    }
  }

  /** The times at which a run writes a cache. */
  function StoreTimes(s: System, run: seq<Event>, clock: Time, cache: CacheId): seq<Time>
    requires Run(s, run, clock)
    decreases |run|
  {
    if run == [] then []
    else
      var rest := StoreTimes(Next(s, run[0]).value, run[1..], ClockAfter(run[0], clock), cache);
      if Stores(s, run[0], cache) then [run[0].now] + rest else rest
  }

  predicate Spaced(times: seq<Time>) {
    forall i :: 0 <= i < |times| - 1 ==> times[i] + TTL <= times[i + 1]
  }

  lemma {:induction false} StoresSpaced(s: System, run: seq<Event>, clock: Time, cache: CacheId)
    requires Inv(s, clock) && Run(s, run, clock)
    ensures var times := StoreTimes(s, run, clock, cache);
            && Spaced(times)
            && (times != [] && CellOf(s, cache).entry.Some? ==>
                  CellOf(s, cache).entry.value.fetchedAt + TTL <= times[0])
    decreases |run|
  {
    if run != [] {
      var e, s' := run[0], Next(s, run[0]).value;
      StepKeepsInv(s, e, clock);
      OnlyStoresChangeEntry(s, e, cache);
      StoresSpaced(s', run[1..], ClockAfter(e, clock), cache);
      if Stores(s, e, cache) {
        assert TaskOk(CellOf(s, cache), PcOf(s.tasks[e.id], cache), e.id, clock);
      }
    }
  }

  /**
   Fetch spacing: however many tasks call whatever they like, and even if some of them are dropped
   half way, two writes of one cache are at least its lifetime apart.
   */
  lemma FetchesAreSpaced(urlConfigured: bool, run: seq<Event>, clock: Time, cache: CacheId)
    requires Run(Initial(urlConfigured), run, clock)
    ensures Spaced(StoreTimes(Initial(urlConfigured), run, clock, cache))
  {
    StoresSpaced(Initial(urlConfigured), run, clock, cache);
  }

  lemma {:induction false} SpacedApart(times: seq<Time>, i: nat, j: nat)
    requires Spaced(times) && i <= j < |times|
    ensures times[i] + (j - i) * TTL <= times[j]
    decreases j
  {
    if i < j {
      SpacedApart(times, i, j - 1);
      assert times[j - 1] + TTL <= times[j - 1 + 1];
    }
  }

  /** An interval of length `length` sees at most length / ttl + 1 writes. */
  lemma FetchesPerInterval(
      urlConfigured: bool, run: seq<Event>, clock: Time, cache: CacheId, i: nat, j: nat, length: nat)
    requires Run(Initial(urlConfigured), run, clock)
    requires var times := StoreTimes(Initial(urlConfigured), run, clock, cache);
             i <= j < |times| && times[j] - times[i] <= length
    ensures j - i + 1 <= length / TTL + 1
  {
    FetchesAreSpaced(urlConfigured, run, clock, cache);
    SpacedApart(StoreTimes(Initial(urlConfigured), run, clock, cache), i, j);
  }

  // ---------------------------------------------------------------- what calls return

  const NANOS_PER_MINUTE: Time := 60 * 1_000_000_000

  /** There is an entry, and at that time it was fetched less than ten minutes ago. */
  predicate UnderTenMinutes(entry: Option<CacheEntry>, at: Time) {
    entry.Some? && at < entry.value.fetchedAt + 10 * NANOS_PER_MINUTE
  }

  /** Where the outermost call of a task stands, and which cache it is on. */
  predicate Answers(s: System, e: Event, cache: CacheId, value: Document) {
    && Next(s, e).Some? && e.Advance? && PcOf(s.tasks[e.id], cache).Some?
    && Next(s, e).value.tasks[e.id] == Done(Some(value))
  }

  /**
   What a call returns is in its cache at that moment: it was fresh when the call looked, or the call
   has just stored it.
   */
  lemma AnswersAreCached(s: System, e: Event, clock: Time, cache: CacheId, value: Document)
    requires Inv(s, clock) && Answers(s, e, cache, value)
    ensures
      var entry := CellOf(Next(s, e).value, cache).entry;
      && entry.Some? && entry.value.value == value
      && match PcOf(s.tasks[e.id], cache).value
         case FirstLook(at) => UnderTenMinutes(entry, at)
         case SecondLook(at) => UnderTenMinutes(entry, at)
         case Storing(_) => entry.value.fetchedAt == e.now
         case _ => false
  {
  }

  /** A call comes back with nothing only from a fetch that failed, its own or the one it needed the URL from. */
  lemma NothingMeansFailure(s: System, e: Event)
    requires e.Advance? && Next(s, e).Some? && Next(s, e).value.tasks[e.id] == Done(None)
    ensures
      var task := s.tasks[e.id];
      || (task in {InDiscovery(Fetching), InJwks(Fetching), InBoth(Fetching)} && e.fetched.None?)
      || (task.InBoth?
          && match StepFrame(s.discovery, task.d, e.id, e.now, e.fetched)
             case Return(_, found) => found.None? || !found.value.hasJwksUri
             case _ => false)
  {
  }

  // ---------------------------------------------------------------- how old an answer may be

  /** The task has read the clock at `at` and is about to look at the cache. */
  predicate LooksAt(s: System, id: TaskId, cache: CacheId, at: Time) {
    id in s.tasks && PcOf(s.tasks[id], cache) in {Some(FirstLook(at)), Some(SecondLook(at))}
  }

  /**
   A look answers exactly if there is an entry younger than ten minutes, and with that entry; else the call
   goes on to the lock and from there to a fetch, for the key set by way of discovery where no URL is configured.
   */
  lemma LookDecides(s: System, e: Event, cache: CacheId, at: Time)
    requires e.Advance? && Next(s, e).Some? && LooksAt(s, e.id, cache, at) && !s.tasks[e.id].InBoth?
    ensures
      var entry, next := CellOf(s, cache).entry, Next(s, e).value.tasks[e.id];
      && (UnderTenMinutes(entry, at) ==> next == Done(Some(entry.value.value)))
      && (!UnderTenMinutes(entry, at) ==>
            PcOf(next, cache)
            == if PcOf(s.tasks[e.id], cache) == Some(FirstLook(at)) then Some(AwaitLock) else Some(Fetching))
      && (!UnderTenMinutes(entry, at) && s.tasks[e.id] == InJwks(SecondLook(at)) ==>
            next == if s.urlConfigured then InJwks(Fetching) else InBoth(Start))
  {
  }

  /** The same for the call of `discovery` within a key set fetch: an answer is what the fetch goes on with. */
  lemma InnerLookDecides(s: System, e: Event, at: Time)
    requires e.Advance? && Next(s, e).Some? && LooksAt(s, e.id, Discovery, at) && s.tasks[e.id].InBoth?
    ensures
      var entry, next := s.discovery.entry, Next(s, e).value.tasks[e.id];
      && (UnderTenMinutes(entry, at) ==>
            next == if entry.value.value.hasJwksUri then InJwks(Fetching) else Done(None))
      && (!UnderTenMinutes(entry, at) ==>
            next == InBoth(if s.tasks[e.id].d == FirstLook(at) then AwaitLock else Fetching))
  {
  }

  /** Event `i` of the run makes call `id` answer with this entry of the cache. */
  predicate AnswersWith(s: System, run: seq<Event>, clock: Time, i: nat, id: TaskId, cache: CacheId, entry: CacheEntry)
    requires Run(s, run, clock)
    decreases |run|
  {
    if i >= |run| then false
    else if i > 0 then
      AnswersWith(Next(s, run[0]).value, run[1..], ClockAfter(run[0], clock), i - 1, id, cache, entry)
    else
      && Answers(s, run[0], cache, entry.value) && run[0].id == id
      && CellOf(Next(s, run[0]).value, cache).entry == Some(entry)
  }

  /** The clock before event `i`. */
  function ClockBefore(run: seq<Event>, clock: Time, i: nat): Time
    decreases |run|
  {
    if i == 0 || run == [] then clock else ClockBefore(run[1..], ClockAfter(run[0], clock), i - 1)
  }

  /** Whenever the task looks, it is with a reading not before `since`. */
  predicate LooksSince(s: System, id: TaskId, since: Time) {
    id in s.tasks && LooksSincePc(PcOf(s.tasks[id], Jwks), since) && LooksSincePc(PcOf(s.tasks[id], Discovery), since)
  }

  predicate LooksSincePc(pc: Option<Pc>, since: Time) {
    && (pc.Some? && pc.value.FirstLook? ==> since <= pc.value.now)
    && (pc.Some? && pc.value.SecondLook? ==> since <= pc.value.now)
  }

  lemma StepLooksSince(s: System, e: Event, clock: Time, id: TaskId, since: Time)
    requires Next(s, e).Some? && since <= clock <= ClockAfter(e, clock)
    requires id in s.tasks ==> LooksSince(s, id, since)
    ensures id in Next(s, e).value.tasks ==> LooksSince(Next(s, e).value, id, since)
    ensures id in s.tasks ==> id in Next(s, e).value.tasks
  {
  }

  lemma {:induction false} YoungSince(
      s: System, run: seq<Event>, clock: Time, i: nat, id: TaskId, cache: CacheId, entry: CacheEntry, since: Time)
    requires Inv(s, clock) && Run(s, run, clock) && since <= clock && LooksSince(s, id, since)
    requires AnswersWith(s, run, clock, i, id, cache, entry)
    ensures since < entry.fetchedAt + 10 * NANOS_PER_MINUTE
    decreases |run|
  {
    if i == 0 {
      AnswersAreCached(s, run[0], clock, cache, entry.value);
    } else {
      StepKeepsInv(s, run[0], clock);
      StepLooksSince(s, run[0], clock, id, since);
      YoungSince(
        Next(s, run[0]).value, run[1..], ClockAfter(run[0], clock), i - 1, id, cache, entry, since);
    }
  }

  /**
   No call answers with a document that was fetched ten minutes or more before the call was made, in any run
   of any number of interleaved and dropped calls.
   */
  lemma {:induction false} AnswersAreYoung(
      s: System, run: seq<Event>, clock: Time, call: nat, i: nat, cache: CacheId, entry: CacheEntry)
    requires Inv(s, clock) && Run(s, run, clock)
    requires call < |run| && (run[call].CallDiscovery? || run[call].CallJwks?)
    requires call < i && AnswersWith(s, run, clock, i, run[call].id, cache, entry)
    ensures ClockBefore(run, clock, call) < entry.fetchedAt + 10 * NANOS_PER_MINUTE
    decreases |run|
  {
    var next, rest, now := Next(s, run[0]).value, run[1..], ClockAfter(run[0], clock);
    StepKeepsInv(s, run[0], clock);
    if call == 0 {
      YoungSince(next, rest, now, i - 1, run[0].id, cache, entry, clock);
    } else {
      AnswersAreYoung(next, rest, now, call - 1, i - 1, cache, entry);
    }
  }
}
