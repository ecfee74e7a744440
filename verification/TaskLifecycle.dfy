/** The life of one task in the store: it ends at most once, and what it ended with stays. */
module TaskLifecycle {
  import opened Wrappers
  import opened TaskStore

  /** A result is stored exactly for terminal tasks. */
  predicate SlotOk(slot: Option<Entry>) {
    slot.Some? ==> (slot.value.terminalResult.Some? <==> IsTerminal(slot.value.task.status))
  }

  /** In every reachable state a task has a stored result exactly when its status is terminal. */
  lemma {:induction false} ResultIffTerminal(store: Store, run: seq<Event>, id: TaskId)
    requires SlotOk(Slot(store, id))
    ensures SlotOk(Slot(After(store, run), id))
    decreases |run|
  {
    if run != [] {
      StepIsLocal(store, run[0], id);
      ResultIffTerminal(Step(store, run[0]).0, run[1..], id);
    }
  }

  predicate Succeeded(outcome: Outcome) {
    outcome.Returned? && outcome.isError != Some(true)
  }

  /** A stored result goes with the status and message that tell of it. */
  predicate StatusTells(entry: Entry) {
    match entry.terminalResult
    case None => entry.task.status == Working
    case Some(outcome) =>
      && (entry.task.status == Completed <==> Succeeded(outcome))
      && (entry.task.status == Cancelled ==> outcome == CANCELLED_RESULT)
      && (outcome.Raised? ==> entry.task.statusMessage == Some(outcome.message))
      && IsTerminal(entry.task.status)
  }

  /** A task is completed exactly when its stored result is no error, in every reachable state. */
  lemma {:induction false} ResultTellsStatus(store: Store, run: seq<Event>, id: TaskId)
    requires Slot(store, id).Some? ==> StatusTells(Slot(store, id).value)
    ensures Slot(After(store, run), id).Some? ==> StatusTells(Slot(After(store, run), id).value)
    decreases |run|
  {
    if run != [] {
      StepIsLocal(store, run[0], id);
      ResultTellsStatus(Step(store, run[0]).0, run[1..], id);
    }
  }

  // ---------------------------------------------------------------- how long an entry stays

  /** The last clock reading of a run. */
  function ClockAfter(run: seq<Event>, from: Time): Time {
    if run == [] then from else run[|run| - 1].now
  }

  /** What decides when an entry goes, and whose it is. */
  predicate SameTerms(a: Entry, b: Entry) {
    a.task.ttlMs == b.task.ttlMs && a.createdAt == b.createdAt && a.peerKey == b.peerKey
  }

  lemma {:induction false} SlotUntilExpired(
      store: Store, run: seq<Event>, id: TaskId, entry: Entry, from: Time, now: Time)
    requires Slot(store, id).Some? ==> SameTerms(Slot(store, id).value, entry)
    requires Slot(store, id).None? ==> IsExpired(entry, now)
    requires Clocked(run, from) && NeverDrawn(run, id) && ClockAfter(run, from) <= now
    ensures var slot := Slot(After(store, run), id);
            && (slot.Some? ==> SameTerms(slot.value, entry))
            && (slot.None? ==> IsExpired(entry, now))
    decreases |run|
  {
    if run != [] {
      var e, next := run[0], Step(store, run[0]).0;
      StepIsLocal(store, e, id);
      NowInOrder(run, from);
      if Slot(store, id).Some? && Slot(next, id).None? {
        assert IsExpired(Slot(store, id).value, e.cleanupAt);
      }
      assert ClockAfter(run[1..], e.now) == ClockAfter(run, from);
      SlotUntilExpired(next, run[1..], id, entry, e.now, now);
    }
  }

  lemma {:induction false} NowInOrder(run: seq<Event>, from: Time)
    requires Clocked(run, from) && run != []
    ensures from <= run[0].cleanupAt <= run[0].now <= ClockAfter(run, from)
    decreases |run|
  {
    if |run| > 1 {
      NowInOrder(run[1..], run[0].now);
    }
  }

  /**
   A task stays visible to its owner exactly until its time to live has passed: no operation removes it
   sooner or keeps it longer, ending it included.
   */
  lemma KeptUntilExpired(store: Store, run: seq<Event>, id: TaskId, entry: Entry, from: Time, now: Time)
    requires Slot(store, id) == Some(entry)
    requires Clocked(run, from) && NeverDrawn(run, id) && ClockAfter(run, from) <= now
    ensures GetTask(After(store, run), id, entry.peerKey, now).1.Some? <==> !IsExpired(entry, now)
  {
    SlotUntilExpired(store, run, id, entry, from, now);
    AnswerIsLocal(After(store, run), Event(OpGet(id, entry.peerKey), now, now));
  }

  // ---------------------------------------------------------------- from creation to the end

  /** What of an entry is settled by the operation that created it. */
  predicate FromCreation(entry: Entry, create: Event)
    requires create.op.OpCreate?
  {
    && entry.createdAt == create.now && entry.cancellation == create.op.token
    && entry.peer == create.op.peer && entry.peerKey == create.op.peerKey
    && entry.task == Task(
         create.op.id, entry.task.status, entry.task.statusMessage, create.now, entry.task.lastUpdatedAt, 500,
         create.op.ttlMs)
  }

  predicate SlotFromCreation(slot: Option<Entry>, create: Event)
    requires create.op.OpCreate?
  {
    slot.Some? ==> FromCreation(slot.value, create)
  }

  lemma {:induction false} CreationStays(store: Store, create: Event, run: seq<Event>)
    requires create.op.OpCreate? && SlotFromCreation(Slot(store, create.op.id), create)
    requires NeverDrawn(run, create.op.id)
    ensures SlotFromCreation(Slot(After(store, run), create.op.id), create)
    decreases |run|
  {
    if run != [] {
      StepIsLocal(store, run[0], create.op.id);
      CreationStays(Step(store, run[0]).0, create, run[1..]);
    }
  }

  lemma WholeMilliseconds(nanos: nat, ms: nat)
    ensures Milliseconds(nanos) >= ms <==> nanos >= ms * 1_000_000
  {
  }

  /** The time to live as the source counts it: one above the largest 64-bit integer is cut to it. */
  predicate Lives(ttlMs: Option<nat>, age: int) {
    match ttlMs
    case None => true
    case Some(ttl) =>
      if ttl <= 9_223_372_036_854_775_807 then age < ttl * 1_000_000
      else age < 9_223_372_036_854_775_807 * 1_000_000
  }

  /**
   A task is shown to its owner exactly while it is younger than the time to live it was created with, to the
   nanosecond and whatever happens meanwhile, and forever if it has none.
   */
  lemma KeptForItsTime(store: Store, create: Event, run: seq<Event>, now: Time)
    requires create.op.OpCreate? && NeverDrawn(run, create.op.id)
    requires Clocked(run, create.now) && ClockAfter(run, create.now) <= now
    ensures
      var shown := GetTask(After(Step(store, create).0, run), create.op.id, create.op.peerKey, now).1;
      && (shown.Some? <==> Lives(create.op.ttlMs, now - create.now))
      && (shown.Some? ==>
            shown.value == Task(
              create.op.id, shown.value.status, shown.value.statusMessage, create.now, shown.value.lastUpdatedAt, 500,
              create.op.ttlMs))
  {
    var s, id := Step(store, create).0, create.op.id;
    StepIsLocal(store, create, id);
    CreationStays(s, create, run);
    AnswerIsLocal(After(s, run), Event(OpGet(id, create.op.peerKey), now, now));
    var entry := Slot(s, id).value;
    KeptUntilExpired(s, run, id, entry, create.now, now);
    LastReading(run, create.now);
    if create.op.ttlMs.Some? {
      var ttl := create.op.ttlMs.value;
      WholeMilliseconds(now - create.now, if ttl <= I64_MAX then ttl else I64_MAX);
    }
  }

  lemma LastReading(run: seq<Event>, from: Time)
    requires Clocked(run, from)
    ensures from <= ClockAfter(run, from)
  {
    if run != [] {
      NowInOrder(run, from);
    }
  }

  /** How a task ends, by the event that ends it. */
  predicate EndsAs(e: Event, status: Status, message: Option<string>) {
    match e.op
    case OpFinish(_, Returned(isError, _)) =>
      if isError == Some(true) then
        status == Failed && message == Some("Task completed with tool execution error")
      else status == Completed && message == None
    case OpFinish(_, Raised(error)) => status == Failed && message == Some(error)
    case OpCancel(_, _) => status == Cancelled && message == Some("The task was cancelled by request.")
    case _ => false
  }

  /** The answer that creates a task, and the one that ends it: the same task, then and now, and its own peer. */
  lemma EndsAsCreated(store: Store, create: Event, run: seq<Event>, e: Event)
    requires create.op.OpCreate? && NeverDrawn(run, create.op.id)
    requires Ends(e, Step(After(Step(store, create).0, run), e).1, create.op.id)
    ensures
      var ended := EndedTask(e, Step(After(Step(store, create).0, run), e).1, create.op.id);
      && Step(store, create).1
         == Created(Task(create.op.id, Working, Some("Task accepted"), create.now, create.now, 500, create.op.ttlMs))
      && ended == Task(
           create.op.id, ended.status, ended.statusMessage, create.now, e.now, 500, create.op.ttlMs)
      && EndsAs(e, ended.status, ended.statusMessage)
      && EndedPeer(e, Step(After(Step(store, create).0, run), e).1, create.op.id) == create.op.peer
  {
    StepIsLocal(store, create, create.op.id);
    CreationStays(Step(store, create).0, create, run);
    AnswerIsLocal(After(Step(store, create).0, run), e);
  }

  /** A peer's list is all the tasks it would be shown one by one. */
  lemma ListsAllShown(store: Store, peerKey: PeerKey, now: Time, task: Task)
    ensures task in ListTasks(store, peerKey, now).1
       <==> exists id :: GetTask(store, id, peerKey, now).1 == Some(task)
  {
    var s := Cleanup(store, now);
    if id :| id in s.entries && s.entries[id].peerKey == peerKey && s.entries[id].task == task {
      assert GetTask(store, id, peerKey, now).1 == Some(task);
    }
  }

  // ---------------------------------------------------------------- one identifier through a run

  predicate Creates(e: Event, id: TaskId) {
    e.op.OpCreate? && e.op.id == id
  }

  /**
   `id` is drawn at most once: identifiers are random, so the run creates it once, or not at all
   when the store has it already.
   */
  predicate DrawnOnce(slot: Option<Entry>, run: seq<Event>, id: TaskId)
    decreases |run|
  {
    if run == [] then true
    else if Creates(run[0], id) then slot.None? && NeverDrawn(run[1..], id)
    else DrawnOnce(slot, run[1..], id)
  }

  predicate NeverDrawn(run: seq<Event>, id: TaskId) {
    forall i :: 0 <= i < |run| ==> !Creates(run[i], id)
  }

  /** This answer ends task `id`. */
  predicate Ends(e: Event, answer: Answer, id: TaskId) {
    || (e.op.OpFinish? && e.op.id == id && answer.Finished? && answer.done.Some?)
    || (e.op.OpCancel? && e.op.id == id && answer.CancelReply? && answer.reply.Ok?)
  }

  /** The outcome that ending `id` with this event records. */
  function RecordedBy(e: Event): Outcome {
    if e.op.OpFinish? then e.op.outcome else CANCELLED_RESULT
  }

  /** This answer hands out `outcome` as the result of `id`. */
  predicate Reads(e: Event, answer: Answer, id: TaskId, outcome: Outcome) {
    e.op.OpPoll? && e.op.id == id && answer == Polled(Ready(outcome))
  }

  /** This answer shows `task` as the state of `id`. */
  predicate Shows(e: Event, answer: Answer, id: TaskId, task: Task) {
    e.op.OpGet? && e.op.id == id && answer == Got(Some(task))
  }

  /** This answer lists `task` under `id`. */
  predicate Lists(e: Event, answer: Answer, id: TaskId, task: Task) {
    e.op.OpList? && answer.Listed? && task in answer.tasks && task.id == id
  }

  /** The task as the answer that ends it carries it. */
  function EndedTask(e: Event, answer: Answer, id: TaskId): Task
    requires Ends(e, answer, id)
  {
    if answer.Finished? then answer.done.value.0 else answer.reply.value.0
  }

  /** The peer that answer names. */
  function EndedPeer(e: Event, answer: Answer, id: TaskId): Peer
    requires Ends(e, answer, id)
  {
    if answer.Finished? then answer.done.value.1 else answer.reply.value.1
  }

  /** Every task is stored under its own identifier. */
  ghost predicate IdsMatch(store: Store) {
    forall id :: SlotIdOk(Slot(store, id), id)
  }

  predicate SlotIdOk(slot: Option<Entry>, id: TaskId) {
    slot.Some? ==> slot.value.task.id == id
  }

  lemma IdsStay(store: Store, e: Event)
    requires IdsMatch(store)
    ensures IdsMatch(Step(store, e).0)
  {
    forall id ensures SlotIdOk(Slot(Step(store, e).0, id), id) {
      StepIsLocal(store, e, id);
      assert SlotIdOk(Slot(store, id), id);
    }
  }

  lemma ListedSlot(store: Store, e: Event, id: TaskId, task: Task)
    requires IdsMatch(store) && Lists(e, Step(store, e).1, id, task)
    ensures var slot := Slot(Step(store, e).0, id); slot.Some? && slot.value.task == task
  {
    var s := Cleanup(store, e.cleanupAt);
    var key :| key in s.entries && s.entries[key].task == task;
    assert SlotIdOk(Slot(store, key), key);
  }

  /** Over: removed, or terminal with exactly this task and result. */
  predicate Over(slot: Option<Entry>, task: Task, outcome: Outcome) {
    slot.Some? ==> slot.value.task == task && slot.value.terminalResult == Some(outcome) && IsTerminal(task.status)
  }

  lemma OverStays(store: Store, e: Event, id: TaskId, task: Task, outcome: Outcome)
    requires Over(Slot(store, id), task, outcome) && !Creates(e, id)
    ensures Over(Slot(Step(store, e).0, id), task, outcome)
    ensures Slot(store, id).None? ==> Slot(Step(store, e).0, id).None?
    ensures !Ends(e, Step(store, e).1, id)
    ensures forall o :: Reads(e, Step(store, e).1, id, o) ==> o == outcome
    ensures forall t :: Shows(e, Step(store, e).1, id, t) ==> t == task
  {
    StepIsLocal(store, e, id);
    if !e.op.OpList? && e.op.id == id {
      AnswerIsLocal(store, e);
    }
  }

  /** Status, message, timestamps and result of a task that is over never change again. */
  lemma {:induction false} OverForGood(store: Store, run: seq<Event>, id: TaskId, task: Task, outcome: Outcome)
    requires Over(Slot(store, id), task, outcome) && NeverDrawn(run, id)
    ensures Over(Slot(After(store, run), id), task, outcome)
    ensures forall i :: 0 <= i < |run| ==> !Ends(run[i], Answers(store, run)[i], id)
    ensures forall i, o :: 0 <= i < |run| && Reads(run[i], Answers(store, run)[i], id, o) ==> o == outcome
    ensures forall i, t :: 0 <= i < |run| && Shows(run[i], Answers(store, run)[i], id, t) ==> t == task
    ensures IdsMatch(store) ==>
      forall i, t :: 0 <= i < |run| && Lists(run[i], Answers(store, run)[i], id, t) ==> t == task
    decreases |run|
  {
    if run != [] {
      var (s, answer) := Step(store, run[0]);
      OverStays(store, run[0], id, task, outcome);
      if IdsMatch(store) {
        IdsStay(store, run[0]);
        forall t | Lists(run[0], answer, id, t) ensures t == task {
          ListedSlot(store, run[0], id, t);
        }
      }
      OverForGood(s, run[1..], id, task, outcome);
      AnswersSplit(store, run);
    }
  }

  lemma AnswersSplit(store: Store, run: seq<Event>)
    requires run != []
    ensures Answers(store, run)[0] == Step(store, run[0]).1
    ensures forall i :: 0 < i < |run| ==>
              run[i] == run[1..][i - 1] && Answers(store, run)[i] == Answers(Step(store, run[0]).0, run[1..])[i - 1]
  {
  }

  /** What ending a task leaves behind. */
  lemma EndedSlot(store: Store, e: Event, id: TaskId)
    requires Ends(e, Step(store, e).1, id)
    ensures var slot := Slot(Step(store, e).0, id);
            slot.Some? && Over(slot, slot.value.task, RecordedBy(e))
            && slot.value.task == EndedTask(e, Step(store, e).1, id)
    ensures !Creates(e, id)
  {
    StepIsLocal(store, e, id);
    AnswerIsLocal(store, e);
  }

  /** A result can only be read from a task that is over. */
  lemma ReadSlot(store: Store, e: Event, id: TaskId, outcome: Outcome)
    requires SlotOk(Slot(store, id)) && Reads(e, Step(store, e).1, id, outcome)
    ensures var slot := Slot(Step(store, e).0, id);
            slot.Some? && Over(slot, slot.value.task, outcome)
  {
    StepIsLocal(store, e, id);
    AnswerIsLocal(store, e);
  }

  /** Only an identifier in the store, or created in this very step, is there afterwards. */
  lemma SlotFilled(store: Store, e: Event, id: TaskId)
    requires !Creates(e, id)
    ensures Slot(store, id).None? ==> Slot(Step(store, e).0, id).None?
  {
    StepIsLocal(store, e, id);
  }

  lemma {:induction false} DrawnTail(store: Store, run: seq<Event>, id: TaskId)
    requires run != [] && DrawnOnce(Slot(store, id), run, id)
    ensures DrawnOnce(Slot(Step(store, run[0]).0, id), run[1..], id)
    ensures Slot(Step(store, run[0]).0, id).Some? ==> NeverDrawn(run[1..], id)
  {
    var s := Step(store, run[0]).0;
    StepIsLocal(store, run[0], id);
    if Creates(run[0], id) {
      DrawnByNever(Slot(s, id), run[1..], id);
    } else {
      if Slot(store, id).Some? {
        NeverByDrawn(Slot(store, id), run[1..], id);
        DrawnByNever(Slot(s, id), run[1..], id);
      }
    }
  }

  lemma {:induction false} DrawnByNever(slot: Option<Entry>, run: seq<Event>, id: TaskId)
    requires NeverDrawn(run, id)
    ensures DrawnOnce(slot, run, id)
    decreases |run|
  {
    if run != [] {
      DrawnByNever(slot, run[1..], id);
    }
  }

  lemma {:induction false} NeverByDrawn(slot: Option<Entry>, run: seq<Event>, id: TaskId)
    requires slot.Some? && DrawnOnce(slot, run, id)
    ensures NeverDrawn(run, id)
    decreases |run|
  {
    if run != [] {
      NeverByDrawn(slot, run[1..], id);
      forall i | 0 <= i < |run|
        ensures !Creates(run[i], id)
      {
        if 0 < i {
          assert run[i] == run[1..][i - 1];
        }
      }
    }
  }

  /** What an answer may say of a task that has ended like this. */
  ghost predicate SaysEnded(e: Event, answer: Answer, id: TaskId, task: Task, outcome: Outcome, listed: bool) {
    && !Ends(e, answer, id)
    && (forall o :: Reads(e, answer, id, o) ==> o == outcome)
    && (forall t :: Shows(e, answer, id, t) ==> t == task)
    && (listed ==> forall t :: Lists(e, answer, id, t) ==> t == task)
  }

  lemma {:induction false} EndedNow(store: Store, run: seq<Event>, id: TaskId, j: nat)
    requires 0 < j < |run| && Ends(run[0], Step(store, run[0]).1, id) && NeverDrawn(run[1..], id)
    ensures SaysEnded(
      run[j], Answers(store, run)[j], id, EndedTask(run[0], Step(store, run[0]).1, id), RecordedBy(run[0]),
      IdsMatch(store))
  {
    EndedSlot(store, run[0], id);
    AnswersSplit(store, run);
    if IdsMatch(store) {
      IdsStay(store, run[0]);
    }
    OverForGood(
      Step(store, run[0]).0, run[1..], id, EndedTask(run[0], Step(store, run[0]).1, id), RecordedBy(run[0]));
  }

  /**
   At most one `finish` or `cancel` of a task ever succeeds. Every result read after it is the one it
   recorded, and every task shown or listed after it, status, message and time included, the one it
   answered with.
   */
  lemma {:induction false} EndsOnce(store: Store, run: seq<Event>, id: TaskId, i: nat, j: nat)
    requires DrawnOnce(Slot(store, id), run, id)
    requires i < j < |run| && Ends(run[i], Answers(store, run)[i], id)
    ensures SaysEnded(
      run[j], Answers(store, run)[j], id, EndedTask(run[i], Answers(store, run)[i], id), RecordedBy(run[i]),
      IdsMatch(store))
    decreases |run|
  {
    AnswersSplit(store, run);
    DrawnTail(store, run, id);
    if i == 0 {
      EndedSlot(store, run[0], id);
      EndedNow(store, run, id, j);
    } else {
      EndsOnce(Step(store, run[0]).0, run[1..], id, i - 1, j - 1);
      if IdsMatch(store) {
        IdsStay(store, run[0]);
      }
    }
  }

  /** All results ever read for a task are the same. */
  lemma {:induction false} ReadsAgree(
      store: Store, run: seq<Event>, id: TaskId, i: nat, j: nat, first: Outcome, second: Outcome)
    requires DrawnOnce(Slot(store, id), run, id) && SlotOk(Slot(store, id))
    requires i < j < |run|
    requires Reads(run[i], Answers(store, run)[i], id, first)
    requires Reads(run[j], Answers(store, run)[j], id, second)
    ensures first == second
    decreases |run|
  {
    var s := Step(store, run[0]).0;
    AnswersSplit(store, run);
    DrawnTail(store, run, id);
    StepIsLocal(store, run[0], id);
    if i == 0 {
      ReadSlot(store, run[0], id, first);
      OverForGood(s, run[1..], id, Slot(s, id).value.task, first);
    } else {
      ReadsAgree(s, run[1..], id, i - 1, j - 1, first, second);
    }
  }

  /** The same for the empty store and a run that draws `id` at most once. */
  lemma {:induction false} TerminalTasksAreFrozen(run: seq<Event>, id: TaskId, i: nat, j: nat)
    requires DrawnOnce(None, run, id) && i < j < |run|
    ensures var answers := Answers(EMPTY, run);
            Ends(run[i], answers[i], id) ==>
              && !Ends(run[j], answers[j], id)
              && (forall o :: Reads(run[j], answers[j], id, o) ==> o == RecordedBy(run[i]))
              && (forall t :: Shows(run[j], answers[j], id, t) || Lists(run[j], answers[j], id, t) ==>
                    t == EndedTask(run[i], answers[i], id))
    ensures forall o, p ::
              Reads(run[i], Answers(EMPTY, run)[i], id, o) && Reads(run[j], Answers(EMPTY, run)[j], id, p) ==> o == p
  {
    if Ends(run[i], Answers(EMPTY, run)[i], id) {
      EndsOnce(EMPTY, run, id, i, j);
    }
    forall o, p | Reads(run[i], Answers(EMPTY, run)[i], id, o) && Reads(run[j], Answers(EMPTY, run)[j], id, p)
      ensures o == p
    {
      ReadsAgree(EMPTY, run, id, i, j, o, p);
    }
  }

  // ---------------------------------------------------------------- workers and tokens

  /**
   The entry with this token and the handle last attached to its identifier is still there, or the token
   has been cancelled; and it still holds that handle, or the handle has been aborted.
   */
  predicate Released(token: Token, wasCancelled: bool, last: Option<Handle>, after: Store, id: TaskId) {
    var now := Slot(after, id);
    && (now.None? || now.value.task.status == Cancelled ==> wasCancelled || token in after.cancelled)
    && (last.Some? && (now.None? || now.value.handle.None?) ==> last.value in after.aborted)
    && (now.Some? ==> now.value.cancellation == token)
    && (now.Some? && now.value.handle.Some? ==> now.value.handle == last)
  }

  predicate Attaches(e: Event, id: TaskId) {
    e.op.OpAttach? && e.op.id == id
  }

  lemma CleanupKept(store: Store, now: Time, id: TaskId)
    ensures var clean := Cleanup(store, now);
            && Slot(clean, id) == CleanSlot(Slot(store, id), now)
            && store.cancelled <= clean.cancelled && store.aborted <= clean.aborted
            && (id in store.entries && id !in clean.entries ==>
                  && store.entries[id].cancellation in clean.cancelled
                  && (store.entries[id].handle.Some? ==> store.entries[id].handle.value in clean.aborted))
  {
  }

  function HandleAfter(held: Option<Handle>, e: Event, id: TaskId): Option<Handle> {
    if Attaches(e, id) then Some(e.op.handle) else held
  }

  /** The handle last attached to an identifier. */
  function LastHandle(held: Option<Handle>, run: seq<Event>, id: TaskId): Option<Handle>
    decreases |run|
  {
    if run == [] then held else LastHandle(HandleAfter(held, run[0], id), run[1..], id)
  }

  lemma {:induction false} StepReleases(
      store: Store, e: Event, id: TaskId, token: Token, wasCancelled: bool, held: Option<Handle>)
    requires Released(token, wasCancelled, held, store, id) && !Creates(e, id)
    ensures Released(token, wasCancelled, HandleAfter(held, e, id), Step(store, e).0, id)
  {
    CleanupKept(store, e.cleanupAt, id);
    StepIsLocal(store, e, id);
    StepOnlyAdds(store, e);
  }

  lemma StepOnlyAdds(store: Store, e: Event)
    ensures store.cancelled <= Step(store, e).0.cancelled && store.aborted <= Step(store, e).0.aborted
  {
    CleanupKept(store, e.cleanupAt, "");
  }

  lemma {:induction false} RunReleases(
      store: Store, run: seq<Event>, id: TaskId, token: Token, wasCancelled: bool, held: Option<Handle>)
    requires Released(token, wasCancelled, held, store, id) && NeverDrawn(run, id)
    ensures Released(token, wasCancelled, LastHandle(held, run, id), After(store, run), id)
    ensures store.cancelled <= After(store, run).cancelled && store.aborted <= After(store, run).aborted
    ensures Slot(store, id).None? ==> Slot(After(store, run), id).None?
    decreases |run|
  {
    if run != [] {
      StepReleases(store, run[0], id, token, wasCancelled, held);
      StepOnlyAdds(store, run[0]);
      SlotFilled(store, run[0], id);
      RunReleases(Step(store, run[0]).0, run[1..], id, token, wasCancelled, HandleAfter(held, run[0], id));
    }
  }

  /**
   Nothing outlives its entry, on whatever way out and however often a worker was attached: once the entry
   is gone, its token is cancelled and the worker last attached is aborted, even one attached after that;
   a task that turns cancelled has its token cancelled; a handle that is taken out is aborted.
   */
  lemma {:induction false} NothingLeftRunning(store: Store, run: seq<Event>, id: TaskId, entry: Entry)
    requires Slot(store, id) == Some(entry) && NeverDrawn(run, id)
    ensures Released(
      entry.cancellation, entry.task.status == Cancelled, LastHandle(entry.handle, run, id), After(store, run), id)
    ensures store.cancelled <= After(store, run).cancelled && store.aborted <= After(store, run).aborted
  {
    RunReleases(store, run, id, entry.cancellation, entry.task.status == Cancelled, entry.handle);
  }

  // ---------------------------------------------------------------- workers attached too late

  predicate NeverAttached(run: seq<Event>, id: TaskId) {
    forall i :: 0 <= i < |run| ==> !Attaches(run[i], id)
  }

  /**
   A task that is over lets go of no worker: while its entry lives, it holds the one last attached to it,
   and so, where it held none when it ended, one exactly if one was attached since.
   */
  lemma {:induction false} OverKeepsWorker(store: Store, run: seq<Event>, id: TaskId, held: Option<Handle>)
    requires Slot(store, id).Some? && IsTerminal(Slot(store, id).value.task.status)
    requires Slot(store, id).value.handle == held && NeverDrawn(run, id)
    ensures Slot(After(store, run), id).Some? ==> Slot(After(store, run), id).value.handle == LastHandle(held, run, id)
    ensures held == None && Slot(After(store, run), id).Some? ==>
              (Slot(After(store, run), id).value.handle == None <==> NeverAttached(run, id))
    decreases |run|
  {
    if run != [] {
      var s := Step(store, run[0]).0;
      StepIsLocal(store, run[0], id);
      LastHandleNone(held, run, id);
      if Slot(s, id).Some? {
        OverKeepsWorker(s, run[1..], id, HandleAfter(held, run[0], id));
      } else {
        StaysGone(s, run[1..], id);
      }
    }
  }

  lemma {:induction false} StaysGone(store: Store, run: seq<Event>, id: TaskId)
    requires Slot(store, id).None? && NeverDrawn(run, id)
    ensures Slot(After(store, run), id).None?
    decreases |run|
  {
    if run != [] {
      SlotFilled(store, run[0], id);
      StaysGone(Step(store, run[0]).0, run[1..], id);
    }
  }

  lemma {:induction false} LastHandleNone(held: Option<Handle>, run: seq<Event>, id: TaskId)
    ensures LastHandle(held, run, id) == None <==> held == None && NeverAttached(run, id)
    decreases |run|
  {
    if run != [] {
      LastHandleNone(HandleAfter(held, run[0], id), run[1..], id);
      if NeverAttached(run[1..], id) && !Attaches(run[0], id) {
        forall i | 0 <= i < |run| ensures !Attaches(run[i], id) {
          if i > 0 {
            assert run[i] == run[1..][i - 1];
          }
        }
      }
    }
  }

  /** Worker `h` belongs to this identifier alone. */
  ghost predicate OnlyHere(store: Store, id: TaskId, h: Handle) {
    forall other :: other != id && Slot(store, other).Some? ==> Slot(store, other).value.handle != Some(h)
  }

  /** No event attaches worker `h`. */
  predicate AttachesNot(run: seq<Event>, h: Handle) {
    forall i :: 0 <= i < |run| ==> !(run[i].op.OpAttach? && run[i].op.handle == h)
  }

  lemma StaysOnlyHere(store: Store, e: Event, id: TaskId, h: Handle)
    requires OnlyHere(store, id, h) && !(e.op.OpAttach? && e.op.handle == h)
    ensures OnlyHere(Step(store, e).0, id, h)
  {
    var s := Step(store, e).0;
    forall other | other != id && Slot(s, other).Some? ensures Slot(s, other).value.handle != Some(h) {
      StepIsLocal(store, e, other);
    }
  }

  lemma StepSpares(store: Store, e: Event, id: TaskId, h: Handle)
    requires OnlyHere(store, id, h) && h !in store.aborted && !(e.op.OpAttach? && e.op.handle == h)
    requires Slot(store, id).Some? && IsTerminal(Slot(store, id).value.task.status)
    requires Slot(Step(store, e).0, id).Some? && !Creates(e, id)
    ensures h !in Step(store, e).0.aborted
    ensures IsTerminal(Slot(Step(store, e).0, id).value.task.status)
  {
    StepIsLocal(store, e, id);
    var clean := Cleanup(store, e.cleanupAt);
    CleanupKept(store, e.cleanupAt, id);
    forall other | other in store.entries && other != id ensures store.entries[other].handle != Some(h) {
      assert Slot(store, other).Some?;
    }
    if !e.op.OpAttach? {
      assert id in clean.entries;
      DropSpares(store, (set other | other in store.entries && IsExpired(store.entries[other], e.cleanupAt)), h);
      if e.op.OpCreate? {
        DropSpares(clean, {e.op.id}, h);
      }
    }
  }

  lemma DropSpares(store: Store, ids: set<TaskId>, h: Handle)
    requires h !in store.aborted
    requires forall other :: other in store.entries && other in ids ==> store.entries[other].handle != Some(h)
    ensures h !in Drop(store, ids).aborted
  {
  }

  /**
   Nobody aborts a worker that was attached to a task already over, a cancelled one in particular: it runs
   on for as long as the entry lives.
   */
  lemma {:induction false} LateWorkerRunsOn(store: Store, run: seq<Event>, id: TaskId, h: Handle)
    requires Slot(store, id).Some? && IsTerminal(Slot(store, id).value.task.status)
    requires OnlyHere(store, id, h) && h !in store.aborted
    requires NeverDrawn(run, id) && AttachesNot(run, h) && Slot(After(store, run), id).Some?
    ensures h !in After(store, run).aborted
    decreases |run|
  {
    if run != [] {
      var s := Step(store, run[0]).0;
      if Slot(s, id).None? {
        StaysGone(s, run[1..], id);
      } else {
        StaysOnlyHere(store, run[0], id, h);
        StepSpares(store, run[0], id, h);
        LateWorkerRunsOn(s, run[1..], id, h);
      }
    }
  }

  /** So it goes when a worker is attached after the cancellation: the task is cancelled, the worker is not. */
  lemma CancelThenAttach(store: Store, cancel: Event, attach: Event, run: seq<Event>, id: TaskId)
    requires cancel.op.OpCancel? && cancel.op.id == id && Ends(cancel, Step(store, cancel).1, id)
    requires Attaches(attach, id)
    requires var h := attach.op.handle;
      OnlyHere(Step(store, cancel).0, id, h) && h !in Step(store, cancel).0.aborted && AttachesNot(run, h)
    requires NeverDrawn(run, id)
    ensures
      var cancelled := Step(store, cancel).0;
      var end := After(Step(cancelled, attach).0, run);
      && cancelled.entries[id].cancellation in end.cancelled
      && (Slot(end, id).Some? ==> Slot(end, id).value.task.status == Cancelled && attach.op.handle !in end.aborted)
  {
    var s := Step(store, cancel).0;
    EndedSlot(store, cancel, id);
    var t := Step(s, attach).0;
    StepIsLocal(s, attach, id);
    assert OnlyHere(t, id, attach.op.handle) by {
      forall other | other != id && Slot(t, other).Some? ensures Slot(t, other).value.handle != Some(attach.op.handle) {
        StepIsLocal(s, attach, other);
      }
    }
    if Slot(After(t, run), id).Some? {
      LateWorkerRunsOn(t, run, id, attach.op.handle);
      OverForGood(t, run, id, Slot(t, id).value.task, RecordedBy(cancel));
    }
    NothingLeftRunning(t, run, id, Slot(t, id).value);
  }
}
