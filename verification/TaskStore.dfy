/**
 The task store of src/engine/tasks.rs as a state machine: one step per locked method body, with
 the clock readings of that body as inputs.
 */
module TaskStore {
  import opened Wrappers

  type TaskId = string
  type PeerKey = string
  /** Wall clock, in nanoseconds. */
  type Time = int
  /** Connections, cancellation tokens and worker handles, named by number. */
  type Peer = nat
  type Token = nat
  type Handle = nat

  datatype Status = Working | InputRequired | Completed | Failed | Cancelled

  datatype Outcome = Returned(isError: Option<bool>, content: string) | Raised(message: string)

  datatype Task = Task(
    id: TaskId, status: Status, statusMessage: Option<string>,
    createdAt: Time, lastUpdatedAt: Time, pollIntervalMs: nat, ttlMs: Option<nat>)

  datatype Entry = Entry(
    task: Task, createdAt: Time, terminalResult: Option<Outcome>,
    cancellation: Token, handle: Option<Handle>, peer: Peer, peerKey: PeerKey)

  /** The entries, and what has happened so far to tokens and workers outside the map. */
  datatype Store = Store(entries: map<TaskId, Entry>, cancelled: set<Token>, aborted: set<Handle>)

  const DEFAULT_POLL_INTERVAL_MS := 500
  const NANOS_PER_MILLI := 1_000_000
  const I64_MAX: nat := 0x7FFF_FFFF_FFFF_FFFF
  const CANCELLED_RESULT := Returned(Some(true), "request cancelled")
  const EMPTY := Store(map[], {}, {})

  predicate IsTerminal(status: Status) {
    status in {Completed, Failed, Cancelled}
  }

  // ---------------------------------------------------------------- expiry

  /** Whole milliseconds of a duration, rounded toward zero. */
  function Milliseconds(nanos: int): int {
    if nanos >= 0 then nanos / NANOS_PER_MILLI else -(-nanos / NANOS_PER_MILLI)
  }

  predicate IsExpired(entry: Entry, now: Time) {
    match entry.task.ttlMs
    case None => false
    case Some(ttl) => Milliseconds(now - entry.createdAt) >= (if ttl <= I64_MAX then ttl else I64_MAX)
  }

  /** Dropping an entry cancels its token and aborts its worker. */
  function Drop(store: Store, ids: set<TaskId>): Store {
    Store(
      map id | id in store.entries && id !in ids :: store.entries[id],
      store.cancelled + (set id | id in ids && id in store.entries :: store.entries[id].cancellation),
      store.aborted + (set id | id in ids && id in store.entries && store.entries[id].handle.Some? ::
                         store.entries[id].handle.value))
  }

  function Cleanup(store: Store, now: Time): Store {
    Drop(store, set id | id in store.entries && IsExpired(store.entries[id], now))
  }

  // ---------------------------------------------------------------- operations

  datatype CancelError = NotFound | Terminal(status: Status)
  datatype Poll = Unknown | Pending | Ready(outcome: Outcome)

  function NewTask(id: TaskId, ttlMs: Option<nat>, now: Time): Task {
    Task(id, Working, Some("Task accepted"), now, now, DEFAULT_POLL_INTERVAL_MS, ttlMs)
  }

  function Create(
      store: Store, peer: Peer, peerKey: PeerKey, ttlMs: Option<nat>,
      id: TaskId, token: Token, cleanupAt: Time, now: Time): (Store, Task)
  {
    var task := NewTask(id, ttlMs, now);
    var room := Drop(Cleanup(store, cleanupAt), {id});
    (room.(entries := room.entries[id := Entry(task, now, None, token, None, peer, peerKey)]), task)
  }

  function AttachHandle(store: Store, id: TaskId, handle: Handle): Store {
    if id in store.entries then
      store.(entries := store.entries[id := store.entries[id].(handle := Some(handle))])
    else store.(aborted := store.aborted + {handle})
  }

  /** Status and message a finished run leaves on its task. */
  function Verdict(outcome: Outcome): (Status, Option<string>) {
    match outcome
    case Returned(isError, _) =>
      if isError == Some(true) then (Failed, Some("Task completed with tool execution error"))
      else (Completed, None)
    case Raised(message) => (Failed, Some(message))
  }

  function Close(entry: Entry, status: Status, message: Option<string>, outcome: Outcome, now: Time): Entry {
    entry.(
      task := entry.task.(status := status, statusMessage := message, lastUpdatedAt := now),
      terminalResult := Some(outcome), handle := None)
  }

  function HandleSet(handle: Option<Handle>): set<Handle> {
    match handle case None => {} case Some(h) => {h}
  }

  function Finish(store: Store, id: TaskId, outcome: Outcome, cleanupAt: Time, now: Time)
    : (Store, Option<(Task, Peer)>)
  {
    var s := Cleanup(store, cleanupAt);
    if id !in s.entries || IsTerminal(s.entries[id].task.status) then (s, None)
    else
      var (status, message) := Verdict(outcome);
      var closed := Close(s.entries[id], status, message, outcome, now);
      (s.(entries := s.entries[id := closed], aborted := s.aborted + HandleSet(s.entries[id].handle)),
       Some((closed.task, closed.peer)))
  }

  function GetTask(store: Store, id: TaskId, peerKey: PeerKey, cleanupAt: Time): (Store, Option<Task>) {
    var s := Cleanup(store, cleanupAt);
    (s, if id in s.entries && s.entries[id].peerKey == peerKey then Some(s.entries[id].task) else None)
  }

  /** The source lists in hash order, so the answer is a set. */
  function ListTasks(store: Store, peerKey: PeerKey, cleanupAt: Time): (Store, set<Task>) {
    var s := Cleanup(store, cleanupAt);
    (s, set id | id in s.entries && s.entries[id].peerKey == peerKey :: s.entries[id].task)
  }

  /** One pass of the loop of `wait_for_result`. */
  function PollResult(store: Store, id: TaskId, peerKey: PeerKey, cleanupAt: Time): (Store, Poll) {
    var s := Cleanup(store, cleanupAt);
    (s,
     if id !in s.entries || s.entries[id].peerKey != peerKey then Unknown
     else match s.entries[id].terminalResult
       case None => Pending
       case Some(outcome) => Ready(outcome))
  }

  function Cancel(store: Store, id: TaskId, peerKey: PeerKey, cleanupAt: Time, now: Time)
    : (Store, Result<(Task, Peer), CancelError>)
  {
    var s := Cleanup(store, cleanupAt);
    if id !in s.entries || s.entries[id].peerKey != peerKey then (s, Err(NotFound))
    else if IsTerminal(s.entries[id].task.status) then (s, Err(Terminal(s.entries[id].task.status)))
    else
      var entry := s.entries[id];
      var closed := Close(entry, Cancelled, Some("The task was cancelled by request."), CANCELLED_RESULT, now);
      (Store(s.entries[id := closed], s.cancelled + {entry.cancellation}, s.aborted + HandleSet(entry.handle)),
       Ok((closed.task, closed.peer)))
  }

  // ---------------------------------------------------------------- runs

  datatype Op =
    | OpCreate(peer: Peer, peerKey: PeerKey, ttlMs: Option<nat>, id: TaskId, token: Token)
    | OpAttach(id: TaskId, handle: Handle)
    | OpFinish(id: TaskId, outcome: Outcome)
    | OpGet(id: TaskId, peerKey: PeerKey)
    | OpList(peerKey: PeerKey)
    | OpPoll(id: TaskId, peerKey: PeerKey)
    | OpCancel(id: TaskId, peerKey: PeerKey)

  /** An operation with the clock at its cleanup and at its own reading. */
  datatype Event = Event(op: Op, cleanupAt: Time, now: Time)

  datatype Answer =
    | Created(task: Task)
    | Attached
    | Finished(done: Option<(Task, Peer)>)
    | Got(task': Option<Task>)
    | Listed(tasks: set<Task>)
    | Polled(poll: Poll)
    | CancelReply(reply: Result<(Task, Peer), CancelError>)

  function Step(store: Store, e: Event): (Store, Answer) {
    match e.op
    case OpCreate(peer, peerKey, ttlMs, id, token) =>
      var (s, task) := Create(store, peer, peerKey, ttlMs, id, token, e.cleanupAt, e.now);
      (s, Created(task))
    case OpAttach(id, handle) => (AttachHandle(store, id, handle), Attached)
    case OpFinish(id, outcome) =>
      var (s, done) := Finish(store, id, outcome, e.cleanupAt, e.now);
      (s, Finished(done))
    case OpGet(id, peerKey) =>
      var (s, task) := GetTask(store, id, peerKey, e.cleanupAt);
      (s, Got(task))
    case OpList(peerKey) =>
      var (s, tasks) := ListTasks(store, peerKey, e.cleanupAt);
      (s, Listed(tasks))
    case OpPoll(id, peerKey) =>
      var (s, poll) := PollResult(store, id, peerKey, e.cleanupAt);
      (s, Polled(poll))
    case OpCancel(id, peerKey) =>
      var (s, reply) := Cancel(store, id, peerKey, e.cleanupAt, e.now);
      (s, CancelReply(reply))
  }

  function After(store: Store, run: seq<Event>): Store
    decreases |run|
  {
    if run == [] then store else After(Step(store, run[0]).0, run[1..])
  }

  function Answers(store: Store, run: seq<Event>): (answers: seq<Answer>)
    ensures |answers| == |run|
    decreases |run|
  {
    if run == [] then []
    else
      var (s, answer) := Step(store, run[0]);
      [answer] + Answers(s, run[1..])
  }

  /** The clock never runs backwards, within an operation or between two. */
  predicate Clocked(run: seq<Event>, from: Time) {
    run == [] || (from <= run[0].cleanupAt <= run[0].now && Clocked(run[1..], run[0].now))
  }

  // ---------------------------------------------------------------- one identifier at a time

  /** What the store knows about one identifier. */
  function Slot(store: Store, id: TaskId): Option<Entry> {
    if id in store.entries then Some(store.entries[id]) else None
  }

  function CleanSlot(slot: Option<Entry>, now: Time): Option<Entry> {
    if slot.Some? && IsExpired(slot.value, now) then None else slot
  }

  function SlotAfter(slot: Option<Entry>, e: Event, id: TaskId): Option<Entry> {
    var clean := CleanSlot(slot, e.cleanupAt);
    match e.op
    case OpCreate(peer, peerKey, ttlMs, created, token) =>
      if created == id then Some(Entry(NewTask(id, ttlMs, e.now), e.now, None, token, None, peer, peerKey)) else clean
    case OpAttach(attached, handle) =>
      if attached == id && slot.Some? then Some(slot.value.(handle := Some(handle))) else slot
    case OpFinish(finished, outcome) =>
      if finished == id && clean.Some? && !IsTerminal(clean.value.task.status) then
        Some(Close(clean.value, Verdict(outcome).0, Verdict(outcome).1, outcome, e.now))
      else clean
    case OpCancel(cancelled, peerKey) =>
      if cancelled == id && clean.Some? && clean.value.peerKey == peerKey && !IsTerminal(clean.value.task.status) then
        Some(Close(clean.value, Cancelled, Some("The task was cancelled by request."), CANCELLED_RESULT, e.now))
      else clean
    case OpGet(_, _) => clean
    case OpList(_) => clean
    case OpPoll(_, _) => clean
  }

  /** Every operation works on each identifier by itself. */
  lemma {:induction false} StepIsLocal(store: Store, e: Event, id: TaskId)
    ensures Slot(Step(store, e).0, id) == SlotAfter(Slot(store, id), e, id)
  {
    var clean := Cleanup(store, e.cleanupAt);
    assert Slot(clean, id) == CleanSlot(Slot(store, id), e.cleanupAt);
  }

  /** The answer to an operation that names an identifier, from what is left in its slot. */
  function SlotAnswer(clean: Option<Entry>, e: Event): Answer
    requires !e.op.OpList?
  {
    match e.op
    case OpCreate(_, _, ttlMs, id, _) => Created(NewTask(id, ttlMs, e.now))
    case OpAttach(_, _) => Attached
    case OpFinish(_, outcome) =>
      if clean.None? || IsTerminal(clean.value.task.status) then Finished(None)
      else
        var closed := Close(clean.value, Verdict(outcome).0, Verdict(outcome).1, outcome, e.now);
        Finished(Some((closed.task, closed.peer)))
    case OpGet(_, peerKey) =>
      Got(if clean.Some? && clean.value.peerKey == peerKey then Some(clean.value.task) else None)
    case OpPoll(_, peerKey) =>
      Polled(
        if clean.None? || clean.value.peerKey != peerKey then Unknown
        else match clean.value.terminalResult
          case None => Pending
          case Some(outcome) => Ready(outcome))
    case OpCancel(_, peerKey) =>
      if clean.None? || clean.value.peerKey != peerKey then CancelReply(Err(NotFound))
      else if IsTerminal(clean.value.task.status) then CancelReply(Err(Terminal(clean.value.task.status)))
      else
        var closed :=
          Close(clean.value, Cancelled, Some("The task was cancelled by request."), CANCELLED_RESULT, e.now);
        CancelReply(Ok((closed.task, closed.peer)))
  }

  lemma AnswerIsLocal(store: Store, e: Event)
    requires !e.op.OpList?
    ensures Step(store, e).1 == SlotAnswer(CleanSlot(Slot(store, e.op.id), e.cleanupAt), e)
  {
    var clean := Cleanup(store, e.cleanupAt);
    assert Slot(clean, e.op.id) == CleanSlot(Slot(store, e.op.id), e.cleanupAt);
  }
}
