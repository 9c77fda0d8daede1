/**
 * The completion dispatcher: `process_completed_transfers`, reached through
 * `libusb_handle_events_timeout`. One pass walks the pending-transfer list from
 * the sentinel, re-reading `next` at every node, so nodes that callbacks append
 * during the pass are visited in the same pass.
 *
 * Because a callback may keep appending entries that become dispatchable again
 * (by cancelling each other), the C loop need not terminate; the model bounds a
 * pass by a number of visits, `fuel`.
 */
module Dispatch {
  import opened Registry
  import opened Transfers

  /** Run a completion callback: its steps in order, each a submit or a cancel. */
  function RunCallback(ts: Records, s: State, steps: seq<CallbackStep>): (s': State)
    requires Valid(ts, s) && StepsKnown(steps, ts)
    ensures Valid(ts, s')
    ensures Entries(s.registry) <= Entries(s'.registry)
    ensures s.registry.Allocated? ==> s'.registry.Allocated?
    ensures s'.fired == s.fired
    decreases |steps|, 1
  {
    if steps == [] then s else RunStep(ts, s, steps[0], steps[1..])
  }

  /** One step of a callback, then the rest of it. */
  function RunStep(ts: Records, s: State, step: CallbackStep, rest: seq<CallbackStep>): (s': State)
    requires Valid(ts, s) && step.target < |ts| && StepsKnown(rest, ts)
    ensures Valid(ts, s')
    ensures Entries(s.registry) <= Entries(s'.registry)
    ensures s.registry.Allocated? ==> s'.registry.Allocated?
    ensures s'.fired == s.fired
    decreases |rest| + 1, 0
  {
    var next := match step
      case DoSubmit(target) => Submit(ts, s, target)
      case DoCancel(target) => Cancel(ts, s, target);
    RunCallback(ts, next, rest)
  }

  /** The state after visiting one node, and whether its callback fired. */
  datatype Visited = Visited(state: State, fired: bool)

  /**
   * One iteration of the loop, on the `i`-th registered transfer: if its status is
   * COMPLETED or CANCELLED, log the invocation, run its callback, and then write
   * -1 into its status; otherwise change nothing.
   */
  function Visit(ts: Records, s: State, i: nat): (v: Visited)
    requires Valid(ts, s) && s.registry.Allocated? && i < |Entries(s.registry)|
    ensures Valid(ts, v.state) && v.state.registry.Allocated?
    ensures Entries(s.registry) <= Entries(v.state.registry)
    ensures v.fired <==> Dispatchable(StatusOf(ts, s, Entries(s.registry)[i]))
    ensures v.fired ==> StatusOf(ts, v.state, Entries(s.registry)[i]) == STATUS_RESET
    ensures v.state.fired == s.fired + (if v.fired then [Entries(s.registry)[i]] else [])
    ensures !v.fired ==> v.state == s
  {
    var id := Entries(s.registry)[i];
    if Dispatchable(StatusOf(ts, s, id)) then
      var called := RunCallback(ts, s.(fired := s.fired + [id]), ts[id].callback);
      Visited(called.(status := called.status[id := STATUS_RESET]), true)
    else
      Visited(s, false)
  }

  /**
   * A pass in progress: the state, the number of nodes visited so far, and the
   * positions (in the list as it grows) whose callbacks fired, in visiting order.
   */
  datatype Pass = Pass(state: State, cursor: nat, firedAt: seq<nat>)

  /** The cursor is at a node of an existing list, or just past its tail. */
  predicate Ready(ts: Records, p: Pass) {
    Valid(ts, p.state) && p.state.registry.Allocated? && p.cursor <= |Entries(p.state.registry)|
  }

  /** The pass has visited every node, including those appended while it ran. */
  predicate Drained(p: Pass) {
    p.cursor == |Entries(p.state.registry)|
  }

  /** One iteration of the loop: visit the node under the cursor and step to `next`. */
  function Advance(ts: Records, p: Pass): (q: Pass)
    requires Ready(ts, p) && !Drained(p)
    ensures Ready(ts, q)
  {
    var v := Visit(ts, p.state, p.cursor);
    Pass(v.state, p.cursor + 1, p.firedAt + (if v.fired then [p.cursor] else []))
  }

  /** One step of a pass, in terms of the visit it makes. */
  lemma AdvanceVisits(ts: Records, p: Pass)
    requires Ready(ts, p) && !Drained(p)
    ensures Advance(ts, p).state == Visit(ts, p.state, p.cursor).state
    ensures Advance(ts, p).cursor == p.cursor + 1
    ensures Advance(ts, p).firedAt == p.firedAt + (if Visit(ts, p.state, p.cursor).fired then [p.cursor] else [])
  {
  }

  /**
   * The rest of a pass, with at most `fuel` visits left: it stops at the tail of
   * the list as it is when the cursor reaches it, or when the fuel runs out.
   */
  function Drain(ts: Records, p: Pass, fuel: nat): (r: Pass)
    requires Ready(ts, p)
    ensures Ready(ts, r)
    decreases fuel
  {
    if Drained(p) || fuel == 0 then p else Drain(ts, Advance(ts, p), fuel - 1)
  }

  /** A pass with a node and a visit left makes one visit and goes on. */
  lemma DrainStep(ts: Records, p: Pass, fuel: nat)
    requires Ready(ts, p) && !Drained(p) && fuel > 0
    ensures Drain(ts, p, fuel) == Drain(ts, Advance(ts, p), fuel - 1)
  {
  }

  /** A pass with no node or no visit left stops where it is. */
  lemma DrainStops(ts: Records, p: Pass, fuel: nat)
    requires Ready(ts, p) && (Drained(p) || fuel == 0)
    ensures Drain(ts, p, fuel) == p
  {
  }

  /**
   * A pass keeps the state valid, only extends the list, the callback log and the
   * fired positions, and makes at most `fuel` visits; it stops early only at the
   * tail of the list as it then is, so nodes appended by callbacks are visited in
   * the same pass.
   */
  lemma {:induction false} DrainKeeps(ts: Records, p: Pass, fuel: nat)
    requires Ready(ts, p)
    ensures Ready(ts, Drain(ts, p, fuel))
    ensures Entries(p.state.registry) <= Entries(Drain(ts, p, fuel).state.registry)
    ensures p.state.fired <= Drain(ts, p, fuel).state.fired
    ensures p.firedAt <= Drain(ts, p, fuel).firedAt
    ensures p.cursor <= Drain(ts, p, fuel).cursor <= p.cursor + fuel
    ensures Drained(Drain(ts, p, fuel)) || Drain(ts, p, fuel).cursor == p.cursor + fuel
    decreases fuel
  {
    if Drained(p) || fuel == 0 {
      DrainStops(ts, p, fuel);
    } else {
      DrainStep(ts, p, fuel);
      AdvanceVisits(ts, p);
      DrainKeeps(ts, Advance(ts, p), fuel - 1);
    }
  }

  /** The recorded positions are increasing and all behind the cursor. */
  predicate InOrder(p: Pass) {
    && (forall k | 0 <= k < |p.firedAt| :: p.firedAt[k] < p.cursor)
    && (forall k, l | 0 <= k < l < |p.firedAt| :: p.firedAt[k] < p.firedAt[l])
  }

  /** One visit records at most its own position, after all earlier ones. */
  lemma AdvanceInOrder(ts: Records, p: Pass)
    requires Ready(ts, p) && !Drained(p) && InOrder(p)
    ensures InOrder(Advance(ts, p))
    ensures p.firedAt <= Advance(ts, p).firedAt
    ensures forall k | |p.firedAt| <= k < |Advance(ts, p).firedAt| :: Advance(ts, p).firedAt[k] == p.cursor
  {
    AdvanceVisits(ts, p);
  }

  /**
   * Callbacks fire in list order: the positions a pass records are increasing,
   * and the new ones lie at or after the position the pass started from.
   */
  lemma {:induction false} DrainInOrder(ts: Records, p: Pass, fuel: nat)
    requires Ready(ts, p) && InOrder(p)
    ensures InOrder(Drain(ts, p, fuel))
    ensures forall k | |p.firedAt| <= k < |Drain(ts, p, fuel).firedAt| :: p.cursor <= Drain(ts, p, fuel).firedAt[k]
    decreases fuel
  {
    if Drained(p) || fuel == 0 {
      DrainStops(ts, p, fuel);
    } else {
      DrainStep(ts, p, fuel);
      var q := Advance(ts, p);
      AdvanceInOrder(ts, p);
      DrainKeeps(ts, q, fuel - 1);
      DrainInOrder(ts, q, fuel - 1);
      var r := Drain(ts, q, fuel - 1);
      forall k | |p.firedAt| <= k < |r.firedAt|
        ensures p.cursor <= r.firedAt[k]
      {
        if k < |q.firedAt| {
          assert r.firedAt[k] == q.firedAt[k];
        }
      }
    }
  }

  /** The list entries at the given positions, in the order of the positions. */
  function Select(xs: seq<TransferId>, at: seq<nat>): (ys: seq<TransferId>)
    requires forall k | 0 <= k < |at| :: at[k] < |xs|
    ensures |ys| == |at|
    ensures forall k | 0 <= k < |at| :: ys[k] == xs[at[k]]
  {
    if at == [] then [] else Select(xs, at[..|at| - 1]) + [xs[at[|at| - 1]]]
  }

  /** The callback log is `base` followed by the entries at the recorded positions. */
  predicate Logged(p: Pass, base: seq<TransferId>) {
    && (forall k | 0 <= k < |p.firedAt| :: p.firedAt[k] < |Entries(p.state.registry)|)
    && p.state.fired == base + Select(Entries(p.state.registry), p.firedAt)
  }

  /** One visit keeps the callback log in step with the recorded positions. */
  lemma AdvanceLogs(ts: Records, p: Pass, base: seq<TransferId>)
    requires Ready(ts, p) && !Drained(p) && Logged(p, base)
    ensures Logged(Advance(ts, p), base)
  {
    AdvanceVisits(ts, p);
    var v := Visit(ts, p.state, p.cursor);
    var q := Advance(ts, p);
    var xs, ys := Entries(p.state.registry), Entries(q.state.registry);
    var before := Select(xs, p.firedAt);
    assert Select(ys, p.firedAt) == before;
    if v.fired {
      assert q.firedAt[..|q.firedAt| - 1] == p.firedAt;
      assert Select(ys, q.firedAt) == before + [xs[p.cursor]];
    } else {
      assert q.firedAt == p.firedAt;
    }
  }

  /**
   * Every callback invocation of a pass is logged, once, in order: the log grows
   * by exactly the transfers at the positions the pass records.
   */
  lemma {:induction false} DrainLogs(ts: Records, p: Pass, fuel: nat, base: seq<TransferId>)
    requires Ready(ts, p) && Logged(p, base)
    ensures Logged(Drain(ts, p, fuel), base)
    decreases fuel
  {
    if Drained(p) || fuel == 0 {
      DrainStops(ts, p, fuel);
    } else {
      DrainStep(ts, p, fuel);
      AdvanceLogs(ts, p, base);
      DrainLogs(ts, Advance(ts, p), fuel - 1, base);
    }
  }

  /** Every callback only submits: no callback step is a cancel. */
  predicate CancelFree(ts: Records) {
    forall t | 0 <= t < |ts| :: forall j | 0 <= j < |ts[t].callback| :: ts[t].callback[j].DoSubmit?
  }

  /** No node at position `n` or later has a status the poll would dispatch. */
  predicate QuietFrom(ts: Records, s: State, n: nat)
    requires Valid(ts, s)
  {
    forall j | n <= j < |Entries(s.registry)| :: !Dispatchable(StatusOf(ts, s, Entries(s.registry)[j]))
  }

  /** A submit appends a node with status -1 and writes -1 elsewhere, so it keeps the tail quiet. */
  lemma SubmitQuiet(ts: Records, s: State, id: TransferId, n: nat)
    requires Valid(ts, s) && id < |ts| && n <= |Entries(s.registry)| && QuietFrom(ts, s, n)
    ensures QuietFrom(ts, Submit(ts, s, id), n)
  {
    var s' := Submit(ts, s, id);
    forall j | n <= j < |Entries(s'.registry)|
      ensures !Dispatchable(StatusOf(ts, s', Entries(s'.registry)[j]))
    {
      if j < |Entries(s.registry)| {
        assert Entries(s'.registry)[j] == Entries(s.registry)[j];
      }
    }
  }

  /** A callback that only submits keeps the tail of the list quiet. */
  lemma {:induction false} RunCallbackQuiet(ts: Records, s: State, steps: seq<CallbackStep>, n: nat)
    requires Valid(ts, s) && StepsKnown(steps, ts)
    requires forall j | 0 <= j < |steps| :: steps[j].DoSubmit?
    requires n <= |Entries(s.registry)| && QuietFrom(ts, s, n)
    ensures QuietFrom(ts, RunCallback(ts, s, steps), n)
    decreases |steps|
  {
    if steps != [] {
      var next := Submit(ts, s, steps[0].target);
      assert RunCallback(ts, s, steps) == RunCallback(ts, next, steps[1..]);
      SubmitQuiet(ts, s, steps[0].target, n);
      RunCallbackQuiet(ts, next, steps[1..], n);
    }
  }

  /**
   * With callbacks that only submit, one visit keeps the tail from `n` quiet, and
   * a node at position `n` or later does not fire.
   */
  lemma AdvanceQuiet(ts: Records, p: Pass, n: nat)
    requires Ready(ts, p) && !Drained(p) && CancelFree(ts)
    requires n <= |Entries(p.state.registry)| && QuietFrom(ts, p.state, n)
    ensures QuietFrom(ts, Advance(ts, p).state, n)
    ensures n <= p.cursor ==> Advance(ts, p).firedAt == p.firedAt
  {
    AdvanceVisits(ts, p);
    var s := p.state;
    var id := Entries(s.registry)[p.cursor];
    if Dispatchable(StatusOf(ts, s, id)) {
      var logged := s.(fired := s.fired + [id]);
      assert QuietFrom(ts, logged, n);
      RunCallbackQuiet(ts, logged, ts[id].callback, n);
    }
  }

  /**
   * With callbacks that only submit, a pass fires no node at position `n` or
   * later once those nodes are quiet: in particular nodes appended during the
   * pass, which submit leaves at -1, are visited but never fire.
   */
  lemma {:induction false} DrainQuiet(ts: Records, p: Pass, fuel: nat, n: nat)
    requires Ready(ts, p) && CancelFree(ts)
    requires n <= |Entries(p.state.registry)| && QuietFrom(ts, p.state, n)
    ensures QuietFrom(ts, Drain(ts, p, fuel).state, n)
    ensures p.firedAt <= Drain(ts, p, fuel).firedAt
    ensures forall k | |p.firedAt| <= k < |Drain(ts, p, fuel).firedAt| :: Drain(ts, p, fuel).firedAt[k] < n
    decreases fuel
  {
    if Drained(p) || fuel == 0 {
      DrainStops(ts, p, fuel);
    } else {
      DrainStep(ts, p, fuel);
      var q := Advance(ts, p);
      AdvanceVisits(ts, p);
      AdvanceQuiet(ts, p, n);
      DrainQuiet(ts, q, fuel - 1, n);
      var r := Drain(ts, q, fuel - 1);
      forall k | |p.firedAt| <= k < |r.firedAt|
        ensures r.firedAt[k] < n
      {
        if k < |q.firedAt| {
          assert r.firedAt[k] == q.firedAt[k] == p.cursor;
        }
      }
    }
  }

  /**
   * With callbacks that only submit, a poll from the head of the list fires only
   * nodes that were already there when it started.
   */
  lemma AppendedNeverFire(ts: Records, s: State, fuel: nat)
    requires Valid(ts, s) && s.registry.Allocated? && CancelFree(ts)
    ensures forall k | 0 <= k < |Drain(ts, Pass(s, 0, []), fuel).firedAt| ::
              Drain(ts, Pass(s, 0, []), fuel).firedAt[k] < |Entries(s.registry)|
  {
    DrainQuiet(ts, Pass(s, 0, []), fuel, |Entries(s.registry)|);
  }

  /** No callback submits `id`. */
  predicate NeverSubmits(ts: Records, id: TransferId) {
    forall t | 0 <= t < |ts| :: DoSubmit(id) !in ts[t].callback
  }

  /** A callback that does not submit `id` does not put it on the list. */
  lemma {:induction false} RunCallbackAvoids(ts: Records, s: State, steps: seq<CallbackStep>, id: TransferId)
    requires Valid(ts, s) && StepsKnown(steps, ts)
    requires DoSubmit(id) !in steps && id !in Entries(s.registry)
    ensures id !in Entries(RunCallback(ts, s, steps).registry)
    decreases |steps|
  {
    if steps != [] {
      var next := match steps[0]
        case DoSubmit(target) => Submit(ts, s, target)
        case DoCancel(target) => Cancel(ts, s, target);
      assert RunCallback(ts, s, steps) == RunCallback(ts, next, steps[1..]);
      assert DoSubmit(id) !in steps[1..] by {
        assert forall j | 0 <= j < |steps[1..]| :: steps[1..][j] == steps[j + 1];
      }
      RunCallbackAvoids(ts, next, steps[1..], id);
    }
  }

  /** One visit neither lists nor logs a transfer that is not listed and that no callback submits. */
  lemma AdvanceAvoids(ts: Records, p: Pass, id: TransferId)
    requires Ready(ts, p) && !Drained(p) && NeverSubmits(ts, id) && id !in Entries(p.state.registry)
    ensures id !in Entries(Advance(ts, p).state.registry)
    ensures Advance(ts, p).state.fired == p.state.fired || Advance(ts, p).state.fired == p.state.fired + [Entries(p.state.registry)[p.cursor]]
  {
    AdvanceVisits(ts, p);
    var s := p.state;
    var x := Entries(s.registry)[p.cursor];
    if Dispatchable(StatusOf(ts, s, x)) {
      RunCallbackAvoids(ts, s.(fired := s.fired + [x]), ts[x].callback, id);
    }
  }

  /**
   * A transfer that is not on the list and that no callback submits is never
   * called back by a pass, whatever else the pass does.
   */
  lemma {:induction false} DrainAvoids(ts: Records, p: Pass, fuel: nat, id: TransferId)
    requires Ready(ts, p) && NeverSubmits(ts, id) && id !in Entries(p.state.registry)
    ensures id !in Entries(Drain(ts, p, fuel).state.registry)
    ensures p.state.fired <= Drain(ts, p, fuel).state.fired
    ensures id !in Drain(ts, p, fuel).state.fired[|p.state.fired|..]
    decreases fuel
  {
    if Drained(p) || fuel == 0 {
      DrainStops(ts, p, fuel);
    } else {
      DrainStep(ts, p, fuel);
      var q := Advance(ts, p);
      AdvanceAvoids(ts, p, id);
      DrainAvoids(ts, q, fuel - 1, id);
      var r := Drain(ts, q, fuel - 1);
      AbsentFromTail(p.state.fired, q.state.fired, r.state.fired, id);
    }
  }

  /** A value absent from what each of two successive extensions added is absent from what both added. */
  lemma AbsentFromTail(a: seq<TransferId>, b: seq<TransferId>, c: seq<TransferId>, id: TransferId)
    requires a <= b <= c && id !in b[|a|..] && id !in c[|b|..]
    ensures id !in c[|a|..]
  {
    assert c[|a|..] == b[|a|..] + c[|b|..];
  }

  /** No node from the cursor on has a status the poll would dispatch. */
  predicate Idle(ts: Records, p: Pass)
    requires Ready(ts, p)
  {
    forall j | p.cursor <= j < |Entries(p.state.registry)| :: !Dispatchable(StatusOf(ts, p.state, Entries(p.state.registry)[j]))
  }

  /** A pass over nodes none of which is COMPLETED or CANCELLED changes nothing and fires nothing. */
  lemma {:induction false} DrainIdle(ts: Records, p: Pass, fuel: nat)
    requires Ready(ts, p) && Idle(ts, p)
    ensures Drain(ts, p, fuel).state == p.state
    ensures Drain(ts, p, fuel).firedAt == p.firedAt
    decreases fuel
  {
    if Drained(p) || fuel == 0 {
      DrainStops(ts, p, fuel);
    } else {
      DrainStep(ts, p, fuel);
      AdvanceVisits(ts, p);
      var q := Advance(ts, p);
      assert q == Pass(p.state, p.cursor + 1, p.firedAt);
      DrainIdle(ts, q, fuel - 1);
    }
  }

  /** Every callback is empty: firing a transfer only logs it. */
  predicate Silent(ts: Records) {
    forall t | 0 <= t < |ts| :: ts[t].callback == []
  }

  /** `x` is one of the entries at positions `from..i`. */
  predicate Occurs(es: seq<TransferId>, from: nat, i: nat, x: TransferId)
    decreases i
  {
    from < i <= |es| && (es[i - 1] == x || Occurs(es, from, i - 1, x))
  }

  /** `Occurs` is membership in the slice. */
  lemma {:induction false} OccursInSlice(es: seq<TransferId>, from: nat, i: nat, x: TransferId)
    requires from <= i <= |es|
    ensures Occurs(es, from, i, x) <==> x in es[from..i]
    decreases i
  {
    if from < i {
      OccursInSlice(es, from, i - 1, x);
      assert es[from..i] == es[from..i - 1] + [es[i - 1]];
    }
  }

  /**
   * The node at position `j` is the first occurrence of its transfer since
   * position `from`, and that transfer's status is COMPLETED or CANCELLED.
   */
  predicate FirstFiring(es: seq<TransferId>, status: seq<int>, from: nat, j: nat) {
    && from <= j < |es| && es[j] < |status|
    && Dispatchable(status[es[j]]) && !Occurs(es, from, j, es[j])
  }

  /** The positions from `i` on that are first firings since `from`, in increasing order. */
  function Firings(es: seq<TransferId>, status: seq<int>, from: nat, i: nat): seq<nat>
    decreases |es| - i
  {
    if i >= |es| then []
    else (if FirstFiring(es, status, from, i) then [i] else []) + Firings(es, status, from, i + 1)
  }

  /** `Firings` lists only first firings, all at or after `i`. */
  lemma {:induction false} FiringsSound(es: seq<TransferId>, status: seq<int>, from: nat, i: nat)
    ensures forall k | 0 <= k < |Firings(es, status, from, i)| ::
              i <= Firings(es, status, from, i)[k] && FirstFiring(es, status, from, Firings(es, status, from, i)[k])
    decreases |es| - i
  {
    if i < |es| {
      FiringsSound(es, status, from, i + 1);
      var step := if FirstFiring(es, status, from, i) then [i] else [];
      assert Firings(es, status, from, i) == step + Firings(es, status, from, i + 1);
    }
  }

  /** Every first firing from `i` on is listed by `Firings`. */
  lemma {:induction false} FiringsComplete(es: seq<TransferId>, status: seq<int>, from: nat, i: nat)
    ensures forall j | i <= j && FirstFiring(es, status, from, j) :: j in Firings(es, status, from, i)
    decreases |es| - i
  {
    if i < |es| {
      FiringsComplete(es, status, from, i + 1);
      var step := if FirstFiring(es, status, from, i) then [i] else [];
      assert Firings(es, status, from, i) == step + Firings(es, status, from, i + 1);
    }
  }

  /**
   * Relative to the statuses `status0`, after the nodes `from..i` of `es` have been
   * visited with silent callbacks: every transfer seen on those nodes that was
   * COMPLETED or CANCELLED has been reset to -1, and every other status is untouched.
   */
  predicate Seen(es: seq<TransferId>, status0: seq<int>, from: nat, status: seq<int>, i: nat) {
    && |status| == |status0|
    && forall id | 0 <= id < |status| ::
         status[id] == if Occurs(es, from, i, id) && Dispatchable(status0[id]) then STATUS_RESET else status0[id]
  }

  /** Apart from statuses and the callback log, `s` is still `s0`. */
  predicate Untouched(s: State, s0: State) {
    s.registry == s0.registry && s.actualLength == s0.actualLength && s.inFlight == s0.inFlight
  }

  /** With silent callbacks, one visit fires exactly a first firing and keeps the relation to `s0`. */
  lemma AdvanceSilent(ts: Records, s0: State, from: nat, p: Pass)
    requires Valid(ts, s0) && Silent(ts) && Ready(ts, p) && !Drained(p) && from <= p.cursor
    requires Untouched(p.state, s0)
    requires Seen(Entries(s0.registry), s0.status, from, p.state.status, p.cursor)
    ensures Untouched(Advance(ts, p).state, s0)
    ensures Seen(Entries(s0.registry), s0.status, from, Advance(ts, p).state.status, p.cursor + 1)
    ensures Advance(ts, p).firedAt
            == p.firedAt + (if FirstFiring(Entries(s0.registry), s0.status, from, p.cursor) then [p.cursor] else [])
  {
    AdvanceVisits(ts, p);
    var es := Entries(s0.registry);
    var cur := p.state;
    var id := es[p.cursor];
    var v := Visit(ts, cur, p.cursor);
    if v.fired {
      assert RunCallback(ts, cur.(fired := cur.fired + [id]), ts[id].callback) == cur.(fired := cur.fired + [id]);
      assert v.state.status == cur.status[id := STATUS_RESET];
    } else {
      assert v.state == cur;
    }
  }

  /**
   * With silent callbacks and enough fuel, a pass from `p` resets every COMPLETED
   * or CANCELLED transfer seen on the remaining nodes to -1, and touches nothing else.
   */
  lemma {:induction false} DrainSilentState(ts: Records, s0: State, from: nat, p: Pass, fuel: nat)
    requires Valid(ts, s0) && Silent(ts) && Ready(ts, p) && from <= p.cursor
    requires Untouched(p.state, s0)
    requires Seen(Entries(s0.registry), s0.status, from, p.state.status, p.cursor)
    requires p.cursor + fuel >= |Entries(s0.registry)|
    ensures Untouched(Drain(ts, p, fuel).state, s0)
    ensures Seen(Entries(s0.registry), s0.status, from, Drain(ts, p, fuel).state.status, |Entries(s0.registry)|)
    decreases fuel
  {
    if Drained(p) || fuel == 0 {
      DrainStops(ts, p, fuel);
    } else {
      DrainStep(ts, p, fuel);
      AdvanceSilent(ts, s0, from, p);
      DrainSilentState(ts, s0, from, Advance(ts, p), fuel - 1);
    }
  }

  /**
   * With silent callbacks and enough fuel, a pass from `p` fires exactly the first
   * occurrences of dispatchable transfers among the remaining nodes.
   */
  lemma {:induction false} DrainSilent(ts: Records, s0: State, from: nat, p: Pass, fuel: nat)
    requires Valid(ts, s0) && Silent(ts) && Ready(ts, p) && from <= p.cursor
    requires Untouched(p.state, s0)
    requires Seen(Entries(s0.registry), s0.status, from, p.state.status, p.cursor)
    requires p.cursor + fuel >= |Entries(s0.registry)|
    ensures Drain(ts, p, fuel).firedAt == p.firedAt + Firings(Entries(s0.registry), s0.status, from, p.cursor)
    decreases fuel
  {
    var es := Entries(s0.registry);
    if Drained(p) || fuel == 0 {
      DrainStops(ts, p, fuel);
      assert Firings(es, s0.status, from, p.cursor) == [];
      assert p.firedAt + [] == p.firedAt;
    } else {
      DrainStep(ts, p, fuel);
      AdvanceSilent(ts, s0, from, p);
      DrainSilent(ts, s0, from, Advance(ts, p), fuel - 1);
      FiringsStep(es, s0.status, from, p.cursor, p.firedAt);
    }
  }

  /** Appending one position's firing and then the later ones appends the firings from that position. */
  lemma FiringsStep(es: seq<TransferId>, status: seq<int>, from: nat, i: nat, before: seq<nat>)
    requires i < |es|
    ensures (before + (if FirstFiring(es, status, from, i) then [i] else [])) + Firings(es, status, from, i + 1)
            == before + Firings(es, status, from, i)
  {
    var step := if FirstFiring(es, status, from, i) then [i] else [];
    assert Firings(es, status, from, i) == step + Firings(es, status, from, i + 1);
  }

  /**
   * A poll from the head with silent callbacks and enough fuel fires the first
   * occurrence of every listed transfer that is COMPLETED or CANCELLED, once each
   * and in list order, and afterwards no listed transfer is dispatchable while
   * unlisted ones keep their status.
   */
  lemma SilentPoll(ts: Records, s: State, fuel: nat)
    requires Valid(ts, s) && s.registry.Allocated? && Silent(ts) && fuel >= |Entries(s.registry)|
    ensures Drain(ts, Pass(s, 0, []), fuel).firedAt == Firings(Entries(s.registry), s.status, 0, 0)
    ensures forall j | 0 <= j < |Entries(s.registry)| ::
              (j in Drain(ts, Pass(s, 0, []), fuel).firedAt <==> FirstFiring(Entries(s.registry), s.status, 0, j))
    ensures Drained(Drain(ts, Pass(s, 0, []), fuel))
    ensures Untouched(Drain(ts, Pass(s, 0, []), fuel).state, s)
    ensures forall id | 0 <= id < |ts| ::
              (Dispatchable(StatusOf(ts, Drain(ts, Pass(s, 0, []), fuel).state, id))
               <==> Dispatchable(StatusOf(ts, s, id)) && id !in Entries(s.registry))
  {
    var es := Entries(s.registry);
    DrainSilent(ts, s, 0, Pass(s, 0, []), fuel);
    DrainSilentState(ts, s, 0, Pass(s, 0, []), fuel);
    DrainKeeps(ts, Pass(s, 0, []), fuel);
    forall id | 0 <= id < |ts|
      ensures Occurs(es, 0, |es|, id) <==> id in es
    {
      OccursInSlice(es, 0, |es|, id);
      assert es[0..|es|] == es;
    }
    assert [] + Firings(es, s.status, 0, 0) == Firings(es, s.status, 0, 0);
    FiringsComplete(es, s.status, 0, 0);
    FiringsSound(es, s.status, 0, 0);
  }

  /**
   * With silent callbacks and enough fuel, a poll from the head writes -1 into the
   * status of exactly the listed transfers that were COMPLETED or CANCELLED, and
   * leaves every other status as it was.
   */
  lemma SilentPollResets(ts: Records, s: State, fuel: nat)
    requires Valid(ts, s) && s.registry.Allocated? && Silent(ts) && fuel >= |Entries(s.registry)|
    ensures forall id | 0 <= id < |ts| ::
              StatusOf(ts, Drain(ts, Pass(s, 0, []), fuel).state, id)
              == if id in Entries(s.registry) && Dispatchable(StatusOf(ts, s, id)) then STATUS_RESET else StatusOf(ts, s, id)
  {
    var es := Entries(s.registry);
    DrainSilentState(ts, s, 0, Pass(s, 0, []), fuel);
    DrainKeeps(ts, Pass(s, 0, []), fuel);
    forall id | 0 <= id < |ts|
      ensures Occurs(es, 0, |es|, id) <==> id in es
    {
      OccursInSlice(es, 0, |es|, id);
      assert es[0..|es|] == es;
    }
  }

  /**
   * What a caller can rely on after a poll from the head: callbacks fire in list
   * order and each firing is logged once, the list and the log only grow, and the
   * pass stops at the tail of the list as it then is or when the visits run out.
   * With empty callbacks and enough visits it reaches the tail and fires exactly
   * the first occurrences of the listed COMPLETED or CANCELLED transfers.
   */
  lemma PollPass(ts: Records, s: State, fuel: nat)
    requires Valid(ts, s) && s.registry.Allocated?
    ensures var p := Drain(ts, Pass(s, 0, []), fuel);
            && Ready(ts, p) && InOrder(p) && Logged(p, s.fired)
            && Entries(s.registry) <= Entries(p.state.registry) && s.fired <= p.state.fired
            && (Drained(p) || p.cursor == fuel)
            && (Silent(ts) && fuel >= |Entries(s.registry)| ==>
                  Drained(p) && p.firedAt == Firings(Entries(s.registry), s.status, 0, 0))
  {
    var p0 := Pass(s, 0, []);
    DrainKeeps(ts, p0, fuel);
    DrainInOrder(ts, p0, fuel);
    assert Logged(p0, s.fired) by {
      assert s.fired + Select(Entries(s.registry), []) == s.fired;
    }
    DrainLogs(ts, p0, fuel, s.fired);
    if Silent(ts) && fuel >= |Entries(s.registry)| {
      SilentPoll(ts, s, fuel);
    }
  }

  /** The body of the C loop: visit the node under the cursor and step to `next`. */
  method VisitNext(ts: Records, p: Pass, fuel: nat) returns (q: Pass)
    requires Ready(ts, p) && !Drained(p) && fuel > 0
    ensures Ready(ts, q) && Drain(ts, p, fuel) == Drain(ts, q, fuel - 1)
  {
    DrainStep(ts, p, fuel);
    q := Advance(ts, p);
  }

  /**
   * `process_completed_transfers`: the C loop, reading the list length afresh at
   * every step, and returning SUCCESS. It computes the pass `Drain` describes, so
   * it fires in list order, logs each firing once, only extends the list, stops
   * at the tail or when the visits run out, and with empty callbacks and enough
   * visits fires exactly the first occurrences of dispatchable listed transfers.
   */
  method ProcessCompletedTransfers(ts: Records, s: State, fuel: nat) returns (p: Pass, rc: int)
    requires Valid(ts, s) && s.registry.Allocated?
    ensures rc == SUCCESS
    ensures Ready(ts, p) && InOrder(p) && Logged(p, s.fired)
    ensures Entries(s.registry) <= Entries(p.state.registry) && s.fired <= p.state.fired
    ensures Drained(p) || p.cursor == fuel
    ensures Silent(ts) && fuel >= |Entries(s.registry)| ==>
              Drained(p) && p.firedAt == Firings(Entries(s.registry), s.status, 0, 0)
    ensures p == Drain(ts, Pass(s, 0, []), fuel)
  {
    p := Walk(ts, Pass(s, 0, []), fuel);
    PollPass(ts, s, fuel);
    rc := SUCCESS;
  }

  /** The loop itself: step along `next` until the tail or until the visits run out. */
  method Walk(ts: Records, start: Pass, fuel: nat) returns (p: Pass)
    requires Ready(ts, start)
    ensures Ready(ts, p) && p == Drain(ts, start, fuel)
  {
    p := start;
    var remaining: nat := fuel;
    while !Drained(p) && remaining > 0
      invariant Ready(ts, p)
      invariant Drain(ts, p, remaining) == Drain(ts, start, fuel)
      decreases remaining
    {
      p := VisitNext(ts, p, remaining);
      remaining := remaining - 1;
    }
    DrainStops(ts, p, remaining);
  }
}
