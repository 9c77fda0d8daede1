/**
 * Whole-lifecycle consequences of the transfer rules: what a caller of the shim
 * sees when submits, cancels, bridge completions and polls are interleaved.
 */
module Lifecycle {
  import opened Bits
  import opened Registry
  import opened Transfers
  import opened Dispatch

  /** A poll from the head of the list, with at most `fuel` visits. */
  function Poll(ts: Records, s: State, fuel: nat): Pass
    requires Valid(ts, s) && s.registry.Allocated?
  {
    Drain(ts, Pass(s, 0, []), fuel)
  }

  /**
   * `libusb_handle_events_timeout`: run one poll. The context and the timeout are
   * not looked at, and no value is returned.
   */
  method HandleEventsTimeout(ts: Records, s: State, ctx: int, fuel: nat) returns (p: Pass)
    requires Valid(ts, s) && s.registry.Allocated?
    ensures p == Poll(ts, s, fuel)
    ensures Ready(ts, p) && p.cursor <= fuel
  {
    var rc;
    p, rc := ProcessCompletedTransfers(ts, s, fuel);
    DrainKeeps(ts, Pass(s, 0, []), fuel);
  }

  /** `k` submissions of the same transfer in a row. */
  function SubmitTimes(ts: Records, s: State, id: TransferId, k: nat): (s': State)
    requires Valid(ts, s) && id < |ts|
    ensures Valid(ts, s')
    decreases k
  {
    if k == 0 then s else SubmitTimes(ts, Submit(ts, s, id), id, k - 1)
  }

  /** Resubmitting appends one more node per submit, after the existing ones. */
  lemma {:induction false} SubmitTimesAppends(ts: Records, s: State, id: TransferId, k: nat)
    requires Valid(ts, s) && id < |ts|
    ensures Entries(SubmitTimes(ts, s, id, k).registry) == Entries(s.registry) + Repeat(id, k)
    decreases k
  {
    if k > 0 {
      var next := Submit(ts, s, id);
      SubmitTimesAppends(ts, next, id, k - 1);
      SubmitTimesFirst(ts, s, id, k);
      RepeatAfter(Entries(s.registry), id, k);
    }
  }

  /** The first of `k` submissions. */
  lemma SubmitTimesFirst(ts: Records, s: State, id: TransferId, k: nat)
    requires Valid(ts, s) && id < |ts| && k > 0
    ensures SubmitTimes(ts, s, id, k) == SubmitTimes(ts, Submit(ts, s, id), id, k - 1)
    ensures Entries(Submit(ts, s, id).registry) == Entries(s.registry) + [id]
  {
  }

  /** Appending `k` copies is appending one, then `k - 1`. */
  lemma RepeatAfter(es: seq<TransferId>, id: TransferId, k: nat)
    requires k > 0
    ensures es + Repeat(id, k) == (es + [id]) + Repeat(id, k - 1)
  {
    assert Repeat(id, k) == [id] + Repeat(id, k - 1);
  }

  /** Submitting a transfer k times leaves k more entries for it and no other entry added. */
  lemma SubmitTimesDuplicates(ts: Records, s: State, id: TransferId, k: nat)
    requires Valid(ts, s) && id < |ts|
    ensures multiset(Entries(SubmitTimes(ts, s, id, k).registry))[id] == multiset(Entries(s.registry))[id] + k
    ensures forall other :: other != id ==>
              multiset(Entries(SubmitTimes(ts, s, id, k).registry))[other] == multiset(Entries(s.registry))[other]
  {
    SubmitTimesAppends(ts, s, id, k);
    RepeatCounts(id, k);
    assert multiset(Entries(SubmitTimes(ts, s, id, k).registry))
        == multiset(Entries(s.registry)) + multiset(Repeat(id, k));
  }

  /** Some position from `i` on holds the first occurrence of `id` in the whole list. */
  lemma {:induction false} FirstOccurrence(es: seq<TransferId>, i: nat, id: TransferId)
    requires i <= |es| && !Occurs(es, 0, i, id) && id in es[i..]
    ensures exists j | i <= j < |es| :: es[j] == id && !Occurs(es, 0, j, id)
    decreases |es| - i
  {
    if es[i] != id {
      assert es[i..] == [es[i]] + es[i + 1..];
      FirstOccurrence(es, i + 1, id);
    }
  }

  /**
   * With silent callbacks and enough fuel, a poll calls back every listed transfer
   * whose status is COMPLETED or CANCELLED.
   */
  lemma SilentPollFires(ts: Records, s: State, fuel: nat, id: TransferId)
    requires Valid(ts, s) && s.registry.Allocated? && Silent(ts) && fuel >= |Entries(s.registry)|
    requires id < |ts| && id in Entries(s.registry) && Dispatchable(StatusOf(ts, s, id))
    ensures multiset(Poll(ts, s, fuel).state.fired)[id] > multiset(s.fired)[id]
  {
    var es := Entries(s.registry);
    var p := Poll(ts, s, fuel);
    FirstOccurrence(es, 0, id);
    var j :| 0 <= j < |es| && es[j] == id && !Occurs(es, 0, j, id);
    var k := FiredPosition(ts, s, fuel, j);
    assert Logged(Pass(s, 0, []), s.fired) by {
      assert s.fired + Select(es, []) == s.fired;
    }
    DrainLogs(ts, Pass(s, 0, []), fuel, s.fired);
    var log := Select(Entries(p.state.registry), p.firedAt);
    assert p.state.fired == s.fired + log;
    assert log[k] == id;
    assert multiset(p.state.fired) == multiset(s.fired) + multiset(log);
  }

  /** With silent callbacks and enough fuel, a first firing at position `j` is recorded by the poll. */
  lemma FiredPosition(ts: Records, s: State, fuel: nat, j: nat) returns (k: nat)
    requires Valid(ts, s) && s.registry.Allocated? && Silent(ts) && fuel >= |Entries(s.registry)|
    requires FirstFiring(Entries(s.registry), s.status, 0, j)
    ensures k < |Poll(ts, s, fuel).firedAt| && Poll(ts, s, fuel).firedAt[k] == j
    ensures Entries(Poll(ts, s, fuel).state.registry) == Entries(s.registry)
  {
    SilentPoll(ts, s, fuel);
    k :| 0 <= k < |Poll(ts, s, fuel).firedAt| && Poll(ts, s, fuel).firedAt[k] == j;
  }

  /**
   * Cancel, then completion: a submitted bulk-in transfer is cancelled, a poll calls
   * it back (CANCELLED) and resets its status to -1; when the bridge call then
   * succeeds, its completion write overwrites the -1 with COMPLETED, so the next
   * poll calls the same transfer back a second time.
   */
  lemma CancelThenCompleteFiresTwice(ts: Records, s: State, id: TransferId, fuel: nat, data: seq<Byte>)
    requires Valid(ts, s) && Silent(ts) && id < |ts|
    requires ts[id].transferType == TRANSFER_TYPE_BULK && ts[id].endpoint >= 0x80
    requires fuel > |Entries(s.registry)|
    ensures var cancelled := Cancel(ts, Submit(ts, s, id), id);
            var first := Poll(ts, cancelled, fuel);
            && multiset(first.state.fired)[id] > multiset(s.fired)[id]
            && StatusOf(ts, first.state, id) == STATUS_RESET
            && first.state.inFlight == s.inFlight + [BulkCallFor(ts[id], id)]
            && (var completed := BridgeStep(ts, first.state, |s.inFlight|, HostIn(InReceived(data)));
                && StatusOf(ts, completed, id) == COMPLETED
                && multiset(Poll(ts, completed, fuel).state.fired)[id] > multiset(first.state.fired)[id])
  {
    var submitted := Submit(ts, s, id);
    var cancelled := Cancel(ts, submitted, id);
    assert id in Entries(cancelled.registry) by {
      assert Entries(cancelled.registry)[|Entries(s.registry)|] == id;
    }
    SilentPoll(ts, cancelled, fuel);
    SilentPollResets(ts, cancelled, fuel);
    SilentPollFires(ts, cancelled, fuel, id);
    var first := Poll(ts, cancelled, fuel);
    var completed := BridgeStep(ts, first.state, |s.inFlight|, HostIn(InReceived(data)));
    assert completed.registry == cancelled.registry;
    SilentPollFires(ts, completed, fuel, id);
  }

  /**
   * With silent callbacks, a poll that has seen every node leaves nothing to do: a
   * second poll changes nothing and calls nothing back.
   */
  lemma SecondPollIdle(ts: Records, s: State, fuel: nat, fuel2: nat)
    requires Valid(ts, s) && s.registry.Allocated? && Silent(ts) && fuel >= |Entries(s.registry)|
    ensures Poll(ts, Poll(ts, s, fuel).state, fuel2).state == Poll(ts, s, fuel).state
    ensures Poll(ts, Poll(ts, s, fuel).state, fuel2).firedAt == []
  {
    var after := Poll(ts, s, fuel).state;
    SilentPoll(ts, s, fuel);
    assert Idle(ts, Pass(after, 0, [])) by {
      forall j | 0 <= j < |Entries(after.registry)|
        ensures !Dispatchable(StatusOf(ts, after, Entries(after.registry)[j]))
      {
        assert Entries(after.registry)[j] in Entries(s.registry);
      }
    }
    DrainIdle(ts, Pass(after, 0, []), fuel2);
  }

  /**
   * Cancelling a transfer that was never submitted, and that no callback submits,
   * never calls it back: the poll only visits listed transfers.
   */
  lemma CancelUnsubmittedNeverFires(ts: Records, s: State, id: TransferId, fuel: nat)
    requires Valid(ts, s) && s.registry.Allocated? && id < |ts|
    requires id !in Entries(s.registry) && NeverSubmits(ts, id)
    ensures multiset(Poll(ts, Cancel(ts, s, id), fuel).state.fired)[id] == multiset(s.fired)[id]
  {
    var cancelled := Cancel(ts, s, id);
    DrainAvoids(ts, Pass(cancelled, 0, []), fuel, id);
    var fired := Poll(ts, cancelled, fuel).state.fired;
    assert fired == s.fired + fired[|s.fired|..];
    assert multiset(fired) == multiset(s.fired) + multiset(fired[|s.fired|..]);
  }
}
