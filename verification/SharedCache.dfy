/**
 `cached_fetch` of src/auth/inbound/provider.rs on the shared cell it updates in place, run by one
 task that nobody interrupts, and tied to the steps of the interleaved protocol.
 */
module SharedCache {
  import opened Wrappers
  import P = CachedFetch
  import opened CachedFetchSpacing

  /** The readings and the fetch result one call may use. */
  datatype Inputs = Inputs(first: P.Time, second: P.Time, fetched: Option<P.Document>, storedAt: P.Time)

  /** The clock reading and fetch result a step at this point of the call sees. */
  function InputAt(pc: P.Pc, inputs: Inputs): (P.Time, Option<P.Document>) {
    match pc
    case Start => (inputs.first, None)
    case FirstLook(_) => (inputs.first, None)
    case AwaitLock => (inputs.first, None)
    case Locked => (inputs.second, None)
    case SecondLook(_) => (inputs.second, None)
    case Fetching => (inputs.second, inputs.fetched)
    case Storing(_) => (inputs.storedAt, None)
  }

  function Order(pc: P.Pc): nat {
    match pc
    case Start => 7
    case FirstLook(_) => 6
    case AwaitLock => 5
    case Locked => 4
    case SecondLook(_) => 3
    case Fetching => 2
    case Storing(_) => 1
  }

  /** All steps of a call from one point on, taken without interruption. */
  function Uninterrupted(cell: P.Cell, pc: P.Pc, id: P.TaskId, inputs: Inputs): Option<(P.Cell, Option<P.Document>)>
    decreases Order(pc)
  {
    var (now, fetched) := InputAt(pc, inputs);
    match P.StepFrame(cell, pc, id, now, fetched)
    case Blocked => None
    case Goto(cell', pc') => Uninterrupted(cell', pc', id, inputs)
    case Return(cell', result) => Some((cell', result))
  }

  /** The whole call, for each way it can go. */
  lemma WholeCall(cell: P.Cell, id: P.TaskId, inputs: Inputs)
    requires cell.holder.None?
    ensures Uninterrupted(cell, P.Start, id, inputs) ==
            if UnderTenMinutes(cell.entry, inputs.first) || UnderTenMinutes(cell.entry, inputs.second) then
              Some((cell, Some(cell.entry.value.value)))
            else if inputs.fetched.None? then Some((cell, None))
            else Some((P.Cell(Some(P.CacheEntry(inputs.storedAt, inputs.fetched.value)), None), inputs.fetched))
  {
    var held := cell.(holder := Some(id));
    assert held.(holder := None) == cell;
    assert Uninterrupted(held, P.Locked, id, inputs) == Uninterrupted(held, P.SecondLook(inputs.second), id, inputs);
    assert Uninterrupted(cell, P.AwaitLock, id, inputs) == Uninterrupted(held, P.Locked, id, inputs);
    assert Uninterrupted(cell, P.Start, id, inputs) == Uninterrupted(cell, P.FirstLook(inputs.first), id, inputs);
    if !UnderTenMinutes(cell.entry, inputs.second) && inputs.fetched.Some? {
      assert Uninterrupted(held, P.Fetching, id, inputs)
          == Uninterrupted(held, P.Storing(inputs.fetched.value), id, inputs);
    }
  }

  class SharedCache {
    var entry: Option<P.CacheEntry>
    var holder: Option<P.TaskId>

    ghost function Cell(): P.Cell
      reads this
    {
      P.Cell(entry, holder)
    }

    method CachedFetch(id: P.TaskId, inputs: Inputs) returns (r: Option<P.Document>)
      requires holder.None?
      modifies this
      ensures Uninterrupted(old(Cell()), P.Start, id, inputs) == Some((Cell(), r))
      ensures holder.None?
      ensures UnderTenMinutes(old(entry), inputs.first) || UnderTenMinutes(old(entry), inputs.second) ==>
                entry == old(entry) && r == Some(entry.value.value)
      ensures !UnderTenMinutes(old(entry), inputs.first) && !UnderTenMinutes(old(entry), inputs.second) ==>
                r == inputs.fetched
                && entry == (if r.Some? then Some(P.CacheEntry(inputs.storedAt, r.value)) else old(entry))
    {
      WholeCall(Cell(), id, inputs);
      var now := inputs.first;
      if entry.Some? && now - entry.value.fetchedAt < P.TTL {
        return Some(entry.value.value);
      }
      holder := Some(id);
      now := inputs.second;
      if entry.Some? && now - entry.value.fetchedAt < P.TTL {
        holder := None;
        return Some(entry.value.value);
      }
      var fetched := inputs.fetched;
      if fetched.None? {
        holder := None;
        return None;
      }
      entry := Some(P.CacheEntry(inputs.storedAt, fetched.value));
      holder := None;
      return fetched;
    }
  }
}
