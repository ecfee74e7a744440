/** The methods of src/engine/tasks.rs on the shared map they lock and update in place. */
module TaskStoreObject {
  import opened Wrappers
  import S = TaskStore

  class TaskStore {
    var entries: map<S.TaskId, S.Entry>
    /** Tokens and workers live outside the map; these fields record what was done to them. */
    var cancelled: set<S.Token>
    var aborted: set<S.Handle>

    ghost function View(): S.Store
      reads this
    {
      S.Store(entries, cancelled, aborted)
    }

    constructor ()
      ensures View() == S.EMPTY
    {
      entries, cancelled, aborted := map[], {}, {};
    }

    /** Removing entries runs their destructor. */
    method Remove(ids: set<S.TaskId>)
      modifies this
      ensures View() == S.Drop(old(View()), ids)
    {
      cancelled := cancelled + (set id | id in ids && id in entries :: entries[id].cancellation);
      aborted := aborted +
        (set id | id in ids && id in entries && entries[id].handle.Some? :: entries[id].handle.value);
      entries := map id | id in entries && id !in ids :: entries[id];
    }

    method CleanupExpired(now: S.Time)
      modifies this
      ensures View() == S.Cleanup(old(View()), now)
    {
      Remove(set id | id in entries && S.IsExpired(entries[id], now));
    }

    method Create(
        peer: S.Peer, peerKey: S.PeerKey, ttlMs: Option<nat>,
        id: S.TaskId, token: S.Token, cleanupAt: S.Time, now: S.Time)
      returns (task: S.Task)
      modifies this
      ensures (View(), task) == S.Create(old(View()), peer, peerKey, ttlMs, id, token, cleanupAt, now)
    {
      CleanupExpired(cleanupAt);
      task := S.NewTask(id, ttlMs, now);
      Remove({id});
      entries := entries[id := S.Entry(task, now, None, token, None, peer, peerKey)];
    }

    method AttachHandle(id: S.TaskId, handle: S.Handle)
      modifies this
      ensures View() == S.AttachHandle(old(View()), id, handle)
    {
      if id in entries {
        entries := entries[id := entries[id].(handle := Some(handle))];
      } else {
        aborted := aborted + {handle};
      }
    }

    method TakeHandle(id: S.TaskId)
      requires id in entries
      modifies this
      ensures cancelled == old(cancelled)
      ensures aborted == old(aborted + S.HandleSet(entries[id].handle))
      ensures entries == old(entries[id := entries[id].(handle := None)])
    {
      var handle := entries[id].handle;
      entries := entries[id := entries[id].(handle := None)];
      if handle.Some? {
        aborted := aborted + {handle.value};
      }
    }

    method Finish(id: S.TaskId, outcome: S.Outcome, cleanupAt: S.Time, now: S.Time)
      returns (done: Option<(S.Task, S.Peer)>)
      modifies this
      ensures (View(), done) == S.Finish(old(View()), id, outcome, cleanupAt, now)
    {
      CleanupExpired(cleanupAt);
      if id !in entries {
        return None;
      }
      if S.IsTerminal(entries[id].task.status) {
        return None;
      }
      label cleaned:
      TakeHandle(id);
      var entry := entries[id];
      var status, statusMessage;
      match outcome {
        case Returned(isError, _) =>
          if isError == Some(true) {
            status, statusMessage := S.Failed, Some("Task completed with tool execution error");
          } else {
            status, statusMessage := S.Completed, None;
          }
        case Raised(message) =>
          status, statusMessage := S.Failed, Some(message);
      }
      var task := entry.task.(status := status, statusMessage := statusMessage, lastUpdatedAt := now);
      entry := entry.(task := task, terminalResult := Some(outcome));
      entries := entries[id := entry];
      assert entries == old@cleaned(entries)[id := entry];
      return Some((task, entry.peer));
    }

    method GetTask(id: S.TaskId, peerKey: S.PeerKey, cleanupAt: S.Time) returns (task: Option<S.Task>)
      modifies this
      ensures (View(), task) == S.GetTask(old(View()), id, peerKey, cleanupAt)
    {
      CleanupExpired(cleanupAt);
      if id in entries && entries[id].peerKey == peerKey {
        return Some(entries[id].task);
      }
      return None;
    }

    method ListTasks(peerKey: S.PeerKey, cleanupAt: S.Time) returns (tasks: set<S.Task>)
      modifies this
      ensures (View(), tasks) == S.ListTasks(old(View()), peerKey, cleanupAt)
    {
      CleanupExpired(cleanupAt);
      tasks := set id | id in entries && entries[id].peerKey == peerKey :: entries[id].task;
    }

    /** One pass of the loop of `wait_for_result`; the wake-up in between is not modelled. */
    method PollResult(id: S.TaskId, peerKey: S.PeerKey, cleanupAt: S.Time) returns (poll: S.Poll)
      modifies this
      ensures (View(), poll) == S.PollResult(old(View()), id, peerKey, cleanupAt)
    {
      CleanupExpired(cleanupAt);
      if id !in entries {
        return S.Unknown;
      }
      if entries[id].peerKey != peerKey {
        return S.Unknown;
      }
      if entries[id].terminalResult.Some? {
        return S.Ready(entries[id].terminalResult.value);
      }
      return S.Pending;
    }

    method Cancel(id: S.TaskId, peerKey: S.PeerKey, cleanupAt: S.Time, now: S.Time)
      returns (reply: Result<(S.Task, S.Peer), S.CancelError>)
      modifies this
      ensures (View(), reply) == S.Cancel(old(View()), id, peerKey, cleanupAt, now)
    {
      CleanupExpired(cleanupAt);
      if id !in entries {
        return Err(S.NotFound);
      }
      if entries[id].peerKey != peerKey {
        return Err(S.NotFound);
      }
      if S.IsTerminal(entries[id].task.status) {
        return Err(S.Terminal(entries[id].task.status));
      }
      label cleaned:
      cancelled := cancelled + {entries[id].cancellation};
      TakeHandle(id);
      var entry := entries[id];
      var task := entry.task.(
        status := S.Cancelled, statusMessage := Some("The task was cancelled by request."), lastUpdatedAt := now);
      entry := entry.(task := task, terminalResult := Some(S.CANCELLED_RESULT));
      entries := entries[id := entry];
      assert entries == old@cleaned(entries)[id := entry];
      return Ok((task, entry.peer));
    }
  }
}
