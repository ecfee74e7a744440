/** What peers of the task store can learn about each other: nothing. */
module TaskIsolation {
  import opened Wrappers
  import opened TaskStore

  /**
   Who an event belongs to. Workers act for the peer that owns their task; `owner` says which peer
   an identifier is drawn for, since random identifiers are never shared by two peers.
   */
  function Issuer(owner: TaskId -> PeerKey, op: Op): PeerKey {
    match op
    case OpCreate(_, peerKey, _, _, _) => peerKey
    case OpAttach(id, _) => owner(id)
    case OpFinish(id, _) => owner(id)
    case OpGet(_, peerKey) => peerKey
    case OpList(peerKey) => peerKey
    case OpPoll(_, peerKey) => peerKey
    case OpCancel(_, peerKey) => peerKey
  }

  predicate Owned(owner: TaskId -> PeerKey, run: seq<Event>) {
    forall i :: 0 <= i < |run| && run[i].op.OpCreate? ==> owner(run[i].op.id) == run[i].op.peerKey
  }

  /** The run with every event of other peers deleted. */
  function Project(owner: TaskId -> PeerKey, me: PeerKey, run: seq<Event>): seq<Event> {
    if run == [] then []
    else
      var rest := Project(owner, me, run[1..]);
      if Issuer(owner, run[0].op) == me then [run[0]] + rest else rest
  }

  /** The answers `me` gets in a run everybody takes part in. */
  function AnswersTo(owner: TaskId -> PeerKey, me: PeerKey, store: Store, run: seq<Event>): seq<Answer>
    decreases |run|
  {
    if run == [] then []
    else
      var (s, answer) := Step(store, run[0]);
      var rest := AnswersTo(owner, me, s, run[1..]);
      if Issuer(owner, run[0].op) == me then [answer] + rest else rest
  }

  /** A slot of `id` belongs to the peer the identifier was drawn for, and was filled in the past. */
  ghost predicate Consistent(owner: TaskId -> PeerKey, slot: Option<Entry>, id: TaskId, now: Time) {
    slot.Some? ==> slot.value.peerKey == owner(id) && slot.value.createdAt <= now && slot.value.task.id == id
  }

  /** Two slots that no operation at `now` or later can tell apart: expired means gone. */
  predicate SlotsAlike(a: Option<Entry>, b: Option<Entry>, now: Time) {
    CleanSlot(a, now) == CleanSlot(b, now)
  }

  /** Two stores that no operation of `me` at `now` or later can tell apart. */
  ghost predicate Alike(owner: TaskId -> PeerKey, me: PeerKey, a: Store, b: Store, now: Time) {
    && (forall id :: Consistent(owner, Slot(a, id), id, now))
    && (forall id :: Consistent(owner, Slot(b, id), id, now))
    && (forall id :: owner(id) == me ==> SlotsAlike(Slot(a, id), Slot(b, id), now))
  }

  lemma MillisecondsMonotone(a: int, b: int)
    requires a <= b
    ensures Milliseconds(a) <= Milliseconds(b)
  {
  }

  /** Once expired, always expired. */
  lemma CleanLater(slot: Option<Entry>, now: Time, later: Time)
    requires now <= later
    ensures CleanSlot(CleanSlot(slot, now), later) == CleanSlot(slot, later)
  {
    if slot.Some? {
      MillisecondsMonotone(now - slot.value.createdAt, later - slot.value.createdAt);
    }
  }

  lemma SlotsAlikeLater(a: Option<Entry>, b: Option<Entry>, now: Time, later: Time)
    requires SlotsAlike(a, b, now) && now <= later
    ensures SlotsAlike(a, b, later)
  {
    CleanLater(a, now, later);
    CleanLater(b, now, later);
  }

  lemma ConsistentAfter(owner: TaskId -> PeerKey, slot: Option<Entry>, e: Event, id: TaskId, from: Time)
    requires Consistent(owner, slot, id, from) && from <= e.cleanupAt <= e.now && Owned(owner, [e])
    ensures Consistent(owner, SlotAfter(slot, e, id), id, e.now)
  {
    assert [e][0] == e;
  }

  /** An operation of somebody else only ever clears a slot of `me` that has expired. */
  lemma OthersOnlyClean(owner: TaskId -> PeerKey, slot: Option<Entry>, e: Event, id: TaskId, from: Time)
    requires Consistent(owner, slot, id, from) && Owned(owner, [e])
    requires Issuer(owner, e.op) != owner(id)
    ensures SlotAfter(slot, e, id) in {slot, CleanSlot(slot, e.cleanupAt)}
  {
    assert [e][0] == e;
  }

  /** An operation of somebody else leaves the store alike for `me`. */
  lemma {:induction false} OthersUnseen(owner: TaskId -> PeerKey, me: PeerKey, a: Store, b: Store, e: Event, from: Time)
    requires Alike(owner, me, a, b, from) && from <= e.cleanupAt <= e.now
    requires Owned(owner, [e]) && Issuer(owner, e.op) != me
    ensures Alike(owner, me, Step(a, e).0, b, e.now)
  {
    var a' := Step(a, e).0;
    forall id
      ensures Consistent(owner, Slot(a', id), id, e.now)
      ensures Consistent(owner, Slot(b, id), id, e.now)
      ensures owner(id) == me ==> SlotsAlike(Slot(a', id), Slot(b, id), e.now)
    {
      assert Consistent(owner, Slot(a, id), id, from) && Consistent(owner, Slot(b, id), id, from);
      StepIsLocal(a, e, id);
      ConsistentAfter(owner, Slot(a, id), e, id, from);
      if owner(id) == me {
        OthersOnlyClean(owner, Slot(a, id), e, id, from);
        CleanLater(Slot(a, id), e.cleanupAt, e.now);
        SlotsAlikeLater(Slot(a, id), Slot(b, id), from, e.now);
      }
    }
  }

  /** An operation takes slots it cannot tell apart to slots that cannot be told apart. */
  lemma SlotsStayAlike(a: Option<Entry>, b: Option<Entry>, e: Event, id: TaskId, from: Time)
    requires SlotsAlike(a, b, from) && from <= e.cleanupAt <= e.now
    ensures SlotsAlike(SlotAfter(a, e, id), SlotAfter(b, e, id), e.now)
  {
    SlotsAlikeLater(a, b, from, e.cleanupAt);
    SlotsAlikeLater(a, b, from, e.now);
    CleanLater(a, e.cleanupAt, e.now);
    CleanLater(b, e.cleanupAt, e.now);
  }

  lemma {:induction false} OwnUnseen(owner: TaskId -> PeerKey, me: PeerKey, a: Store, b: Store, e: Event, from: Time)
    requires Alike(owner, me, a, b, from) && from <= e.cleanupAt <= e.now && Owned(owner, [e])
    ensures Alike(owner, me, Step(a, e).0, Step(b, e).0, e.now)
  {
    var a', b' := Step(a, e).0, Step(b, e).0;
    forall id
      ensures Consistent(owner, Slot(a', id), id, e.now)
      ensures Consistent(owner, Slot(b', id), id, e.now)
      ensures owner(id) == me ==> SlotsAlike(Slot(a', id), Slot(b', id), e.now)
    {
      assert Consistent(owner, Slot(a, id), id, from) && Consistent(owner, Slot(b, id), id, from);
      StepIsLocal(a, e, id);
      StepIsLocal(b, e, id);
      ConsistentAfter(owner, Slot(a, id), e, id, from);
      ConsistentAfter(owner, Slot(b, id), e, id, from);
      if owner(id) == me {
        SlotsStayAlike(Slot(a, id), Slot(b, id), e, id, from);
      }
    }
  }

  lemma SameList(owner: TaskId -> PeerKey, me: PeerKey, a: Store, b: Store, now: Time)
    requires Alike(owner, me, a, b, now)
    ensures ListTasks(a, me, now).1 <= ListTasks(b, me, now).1
  {
    var a', b' := Cleanup(a, now), Cleanup(b, now);
    forall id | id in a'.entries && a'.entries[id].peerKey == me
      ensures id in b'.entries && b'.entries[id] == a'.entries[id]
    {
      assert Consistent(owner, Slot(a, id), id, now);
      assert SlotsAlike(Slot(a, id), Slot(b, id), now);
    }
  }

  /** An operation of `me` gets the same answer from both stores. */
  lemma OwnAgrees(owner: TaskId -> PeerKey, me: PeerKey, a: Store, b: Store, e: Event, from: Time)
    requires Alike(owner, me, a, b, from) && from <= e.cleanupAt <= e.now
    requires Owned(owner, [e]) && Issuer(owner, e.op) == me
    ensures Step(a, e).1 == Step(b, e).1
  {
    if e.op.OpList? {
      SameList(owner, me, a, b, e.cleanupAt);
      SameList(owner, me, b, a, e.cleanupAt);
    } else {
      var id := e.op.id;
      AnswerIsLocal(a, e);
      AnswerIsLocal(b, e);
      if owner(id) == me {
        assert SlotsAlike(Slot(a, id), Slot(b, id), e.cleanupAt);
      } else {
        assert Consistent(owner, Slot(a, id), id, from) && Consistent(owner, Slot(b, id), id, from);
      }
    }
  }

  lemma {:induction false} AlikeRuns(
      owner: TaskId -> PeerKey, me: PeerKey, a: Store, b: Store, run: seq<Event>, from: Time)
    requires Alike(owner, me, a, b, from) && Clocked(run, from) && Owned(owner, run)
    decreases |run|
    ensures AnswersTo(owner, me, a, run) == Answers(b, Project(owner, me, run))
  {
    if run != [] {
      var e, rest := run[0], run[1..];
      var a' := Step(a, e).0;
      if Issuer(owner, e.op) == me {
        OwnAgrees(owner, me, a, b, e, from);
        OwnUnseen(owner, me, a, b, e, from);
        AlikeRuns(owner, me, a', Step(b, e).0, rest, e.now);
        assert ([e] + Project(owner, me, rest))[1..] == Project(owner, me, rest);
      } else {
        OthersUnseen(owner, me, a, b, e, from);
        AlikeRuns(owner, me, a', b, rest, e.now);
      }
    }
  }

  /**
   Peer non-interference: in every run, `me` gets the answers of the run in which nobody else has
   ever used the store, although everybody's operations trigger the common cleanup.
   */
  lemma {:induction false} PeersDoNotInterfere(owner: TaskId -> PeerKey, me: PeerKey, run: seq<Event>, from: Time)
    requires Clocked(run, from) && Owned(owner, run)
    ensures AnswersTo(owner, me, EMPTY, run) == Answers(EMPTY, Project(owner, me, run))
  {
    AlikeRuns(owner, me, EMPTY, EMPTY, run, from);
  }
}
