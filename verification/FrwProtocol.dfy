/** The Wi-Fi framework's worker and its posters, interleaved (chips/ws63/rf/src/frw.rs).
    `post` is two steps, the critical section and the later `EVENT.up`, between which anything may
    happen; the worker parks on the semaphore, checks `running`, and drains the FIFO node by node. */
module FrwProtocol {
  import opened FrwQueue
  import opened Wrappers

  /** Where the worker thread is; `InHand` is between popping a node and handing it to the device handler. */
  datatype Worker = NotStarted | Parked | Woken | Draining | InHand(node: nat) | Exited

  datatype State = State(
    queue: seq<nat>,
    live: set<nat>, // pool slots handed out
    held: set<nat>, // live slots in the hands of clients and handlers
    semaphore: nat,
    inFlight: set<nat>, // threads between their critical section and their `up`
    running: bool,
    worker: Worker,
    accepted: seq<nat>, // every node that `post` took, in order
    dispatched: seq<nat> // every node handed to the device handler, in order
  )

  datatype Action =
    | Fetch
    | Free(node: nat)
    | Post(thread: nat, node: nat)
    | Stop(thread: nat)
    | Up(thread: nat)
    | Start
    | Wake // the semaphore releases the worker
    | Timeout // the wait ends because a timer is due
    | CheckRunning
    | Pop
    | Dispatch

  const INIT: State := State([], {}, {}, 0, {}, false, NotStarted, [], [])

  /** The state after one step, None when the step cannot happen. */
  function Step(s: State, a: Action): Option<State> {
    match a
    case Fetch =>
      var slot := FirstFree(s.live, 0);
      Some(if slot == POOL_LEN then s else s.(live := s.live + {slot}, held := s.held + {slot}))
    case Free(node) =>
      Some(s.(live := s.live - {node}, held := s.held - {node}))
    case Post(thread, node) =>
      if thread in s.inFlight then None
      else
        var (ok, queue) := Enqueue(s.queue, node);
        Some(if ok then s.(queue := queue, held := s.held - {node}, accepted := s.accepted + [node],
                           inFlight := s.inFlight + {thread})
             else s)
    case Stop(thread) =>
      if thread in s.inFlight then None
      else Some(s.(running := false, inFlight := s.inFlight + {thread}))
    case Up(thread) =>
      if thread in s.inFlight then Some(s.(semaphore := s.semaphore + 1, inFlight := s.inFlight - {thread})) else None
    case Start =>
      if s.worker == NotStarted then Some(s.(running := true, worker := Parked)) else None
    case Wake =>
      if s.worker == Parked && s.semaphore > 0 then Some(s.(semaphore := s.semaphore - 1, worker := Woken)) else None
    case Timeout =>
      if s.worker == Parked then Some(s.(worker := Woken)) else None
    case CheckRunning =>
      if s.worker == Woken then Some(s.(worker := if s.running then Draining else Exited)) else None
    case Pop =>
      if s.worker != Draining then None
      else if s.queue == [] then Some(s.(worker := Parked))
      else Some(s.(queue := s.queue[1..], worker := InHand(s.queue[0])))
    case Dispatch =>
      if s.worker.InHand? then
        Some(s.(worker := Draining, dispatched := s.dispatched + [s.worker.node], held := s.held + {s.worker.node}))
      else None
  }

  // ----- every interleaving

  ghost predicate IsRun(states: seq<State>, actions: seq<Action>) {
    && |states| == |actions| + 1
    && states[0] == INIT
    && forall i :: 0 <= i < |actions| ==> Step(states[i], actions[i]) == Some(states[i + 1])
  }

  function Hand(s: State): seq<nat> {
    if s.worker.InHand? then [s.worker.node] else []
  }

  /** A wake-up is on its way: a permit is left, or some thread has yet to give one. */
  predicate WakeupPending(s: State) {
    s.semaphore > 0 || s.inFlight != {}
  }

  ghost predicate Inv(s: State) {
    && s.accepted == s.dispatched + Hand(s) + s.queue
    && (s.worker in {NotStarted, Parked} && s.queue != [] ==> WakeupPending(s))
    && (s.worker == Parked || s.worker == Draining || s.worker.InHand? ==> s.running || WakeupPending(s))
    && (s.worker == Exited ==> !s.running)
    && |s.queue| <= FIFO_LEN
  }

  lemma StepKeepsInv(s: State, a: Action, t: State)
    requires Inv(s) && Step(s, a) == Some(t)
    ensures Inv(t)
  {
    match a
    case Post(thread, node) =>
      assert Enqueue(s.queue, node).0 ==> thread in t.inFlight;
    case Stop(thread) =>
      assert thread in t.inFlight;
    case Pop =>
      if s.queue != [] {
        assert s.queue == [s.queue[0]] + s.queue[1..];
      }
    case _ =>
  }

  lemma {:induction false} RunKeepsInv(states: seq<State>, actions: seq<Action>, i: nat)
    requires IsRun(states, actions) && i < |states|
    ensures Inv(states[i])
  {
    if i != 0 {
      RunKeepsInv(states, actions, i - 1);
      StepKeepsInv(states[i - 1], actions[i - 1], states[i]);
    }
  }

  /** No wake-up is lost: a parked worker with messages waiting, or asked to stop, will be woken. */
  lemma NoLostWakeup(states: seq<State>, actions: seq<Action>, i: nat)
    requires IsRun(states, actions) && i < |states|
    requires states[i].worker == Parked
    requires states[i].queue != [] || !states[i].running
    ensures states[i].semaphore > 0 || exists thread :: thread in states[i].inFlight
  {
    RunKeepsInv(states, actions, i);
  }

  /** Messages are dispatched in the order they were accepted, each exactly once. */
  lemma InOrderExactlyOnce(states: seq<State>, actions: seq<Action>, i: nat)
    requires IsRun(states, actions) && i < |states|
    ensures states[i].accepted == states[i].dispatched + Hand(states[i]) + states[i].queue
  {
    RunKeepsInv(states, actions, i);
  }

  /** A post is refused exactly while thirty-two accepted messages wait behind those taken off. */
  lemma RefusedExactlyWhenFull(states: seq<State>, actions: seq<Action>, i: nat)
    requires IsRun(states, actions) && i < |actions| && actions[i].Post?
    ensures states[i + 1] == states[i]
       <==> |states[i].accepted| == |states[i].dispatched| + |Hand(states[i])| + FIFO_LEN
    ensures states[i + 1] != states[i] ==> states[i + 1].accepted == states[i].accepted + [actions[i].node]
  {
    RunKeepsInv(states, actions, i);
    assert Step(states[i], actions[i]) == Some(states[i + 1]);
  }

  /** When nothing can happen any more but a timeout, everything accepted has been dispatched. */
  lemma QuietMeansDelivered(states: seq<State>, actions: seq<Action>, i: nat)
    requires IsRun(states, actions) && i < |states|
    requires states[i].worker == Parked && !WakeupPending(states[i])
    ensures states[i].dispatched == states[i].accepted && states[i].running
  {
    RunKeepsInv(states, actions, i);
  }

  /** The worker leaves only when it was asked to stop. */
  lemma ExitedOnlyWhenStopped(states: seq<State>, actions: seq<Action>, i: nat)
    requires IsRun(states, actions) && i < |states|
    ensures states[i].worker == Exited ==> !states[i].running
  {
    RunKeepsInv(states, actions, i);
  }

  // ----- what the worker does when it is let

  /** The state after these steps in a row, None when one of them cannot happen. */
  function Perform(s: State, actions: seq<Action>): Option<State>
    decreases |actions|
  {
    if actions == [] then Some(s)
    else
      var t := Step(s, actions[0]);
      if t.None? then None else Perform(t.value, actions[1..])
  }

  lemma PerformOne(s: State, a: Action, rest: seq<Action>)
    requires Step(s, a).Some?
    ensures Perform(s, [a] + rest) == Perform(Step(s, a).value, rest)
  {
    assert ([a] + rest)[1..] == rest;
  }

  /** Take n nodes off the queue, handing each to the device handler, and find the queue empty. */
  function Drain(n: nat): seq<Action> {
    if n == 0 then [Pop] else [Pop] + ([Dispatch] + Drain(n - 1))
  }

  /** Everything that waited is delivered, and nothing else is changed. */
  ghost function Drained(s: State): State {
    s.(worker := Parked, queue := [], dispatched := s.dispatched + s.queue, held := s.held + Elements(s.queue))
  }

  lemma {:induction false} DrainDelivers(s: State)
    requires s.worker == Draining
    ensures Perform(s, Drain(|s.queue|)) == Some(Drained(s))
    decreases |s.queue|
  {
    if s.queue == [] {
      NothingToDeliver(s);
      PerformOne(s, Pop, []);
      assert [Pop] + [] == Drain(0);
    } else {
      var rest := Drain(|s.queue| - 1);
      var t, u := DeliverOne(s);
      PerformOne(s, Pop, [Dispatch] + rest);
      PerformOne(t, Dispatch, rest);
      DrainDelivers(u);
    }
  }

  lemma NothingToDeliver(s: State)
    requires s.worker == Draining && s.queue == []
    ensures Step(s, Pop) == Some(Drained(s))
  {
    assert s.held + Elements(s.queue) == s.held && s.dispatched + s.queue == s.dispatched;
  }

  lemma DeliverOne(s: State) returns (t: State, u: State)
    requires s.worker == Draining && s.queue != []
    ensures Step(s, Pop) == Some(t) && Step(t, Dispatch) == Some(u)
    ensures u.worker == Draining && u.queue == s.queue[1..] && Drained(u) == Drained(s)
  {
    t := Step(s, Pop).value;
    u := Step(t, Dispatch).value;
    FirstElement(s.queue);
    assert u.held + Elements(u.queue) == s.held + Elements(s.queue);
    assert u.dispatched + u.queue == s.dispatched + s.queue;
  }

  lemma FirstElement(queue: seq<nat>)
    requires queue != []
    ensures Elements(queue) == {queue[0]} + Elements(queue[1..])
  {
    assert queue == [queue[0]] + queue[1..];
  }

  /** A woken worker that has not been asked to stop delivers all that waits and parks again. */
  lemma WokenDelivers(s: State)
    requires s.worker == Woken && s.running
    ensures Perform(s, [CheckRunning] + Drain(|s.queue|)) == Some(Drained(s))
  {
    PerformOne(s, CheckRunning, Drain(|s.queue|));
    DrainDelivers(Step(s, CheckRunning).value);
  }

  /** From every state of every run with the worker parked: one permit, or the end of a wait, is enough for it to
      dispatch everything accepted and park again, with nothing else changed. */
  lemma PermitDeliversAll(states: seq<State>, actions: seq<Action>, i: nat, wake: Action)
    requires IsRun(states, actions) && i < |states|
    requires states[i].worker == Parked && states[i].running
    requires wake == Timeout || (wake == Wake && states[i].semaphore > 0)
    ensures var s := states[i];
            Perform(s, [wake] + ([CheckRunning] + Drain(|s.queue|))) ==
            Some(s.(queue := [], dispatched := s.accepted, held := s.held + Elements(s.queue),
                    semaphore := if wake == Wake then s.semaphore - 1 else s.semaphore))
  {
    var s := states[i];
    RunKeepsInv(states, actions, i);
    PerformOne(s, wake, [CheckRunning] + Drain(|s.queue|));
    WokenDelivers(Step(s, wake).value);
    assert s.dispatched + Hand(s) + s.queue == s.dispatched + s.queue;
  }

  /** Messages that wait for a parked worker can always be delivered: a permit is left or some thread can give one. */
  lemma WaitingIsDeliverable(states: seq<State>, actions: seq<Action>, i: nat) returns (more: seq<Action>)
    requires IsRun(states, actions) && i < |states|
    requires states[i].worker == Parked && states[i].running && states[i].queue != []
    ensures forall a :: a in more ==> a.Up? || a in {Wake, CheckRunning, Pop, Dispatch}
    ensures var t := Perform(states[i], more);
            t.Some? && t.value.worker == Parked && t.value.queue == [] && t.value.dispatched == states[i].accepted
  {
    var s := states[i];
    RunKeepsInv(states, actions, i);
    var drain := [CheckRunning] + Drain(|s.queue|);
    DrainActions(|s.queue|);
    assert s.dispatched + Hand(s) + s.queue == s.dispatched + s.queue;
    if s.semaphore > 0 {
      more := [Wake] + drain;
      PerformOne(s, Wake, drain);
      WokenDelivers(Step(s, Wake).value);
    } else {
      var thread :| thread in s.inFlight;
      more := [Up(thread)] + ([Wake] + drain);
      var t := Step(s, Up(thread)).value;
      PerformOne(s, Up(thread), [Wake] + drain);
      PerformOne(t, Wake, drain);
      WokenDelivers(Step(t, Wake).value);
    }
  }

  lemma {:induction false} DrainActions(n: nat)
    ensures forall a :: a in Drain(n) ==> a in {Pop, Dispatch}
  {
    if n > 0 {
      DrainActions(n - 1);
    }
  }

  /** Starting makes the worker wait; stopping wakes it, and it leaves. */
  lemma StopEndsWorker(s: State, thread: nat)
    requires thread !in s.inFlight
    ensures s.worker == NotStarted ==> Step(s, Start) == Some(s.(running := true, worker := Parked))
    ensures s.worker == Parked ==>
              Perform(s, [Stop(thread)] + ([Up(thread)] + ([Wake] + ([CheckRunning] + []))))
              == Some(s.(running := false, worker := Exited))
  {
    if s.worker == Parked {
      var s1 := Step(s, Stop(thread)).value;
      var s2 := Step(s1, Up(thread)).value;
      var s3 := Step(s2, Wake).value;
      PerformOne(s, Stop(thread), [Up(thread)] + ([Wake] + ([CheckRunning] + [])));
      PerformOne(s1, Up(thread), [Wake] + ([CheckRunning] + []));
      PerformOne(s2, Wake, [CheckRunning] + []);
      PerformOne(s3, CheckRunning, []);
      assert s2.inFlight == s.inFlight;
    }
  }

  // ----- clients that use their own nodes

  /** Clients post and free only nodes they hold. */
  ghost predicate Obeys(s: State, a: Action) {
    match a
    case Post(thread, node) => node in s.held
    case Free(node) => node in s.held
    case _ => true
  }

  ghost predicate IsClientRun(states: seq<State>, actions: seq<Action>) {
    && IsRun(states, actions)
    && forall i :: 0 <= i < |actions| ==> Obeys(states[i], actions[i])
  }

  /** Every live node is in exactly one place: with a client, queued once, or in the worker's hand. */
  ghost predicate PoolInv(s: State) {
    && (forall slot :: slot in s.live ==> slot < POOL_LEN)
    && s.live == s.held + Elements(Hand(s) + s.queue)
    && s.held !! Elements(Hand(s) + s.queue)
    && Distinct(Hand(s) + s.queue)
  }

  lemma StepKeepsPool(s: State, a: Action, t: State)
    requires PoolInv(s) && Obeys(s, a) && Step(s, a) == Some(t)
    ensures PoolInv(t)
  {
    match a
    case Post(thread, node) => PostKeepsPool(s, thread, node, t);
    case Dispatch => DispatchKeepsPool(s, t);
    case Fetch =>
    case Free(node) =>
    case _ =>
      assert Hand(t) + t.queue == Hand(s) + s.queue;
  }

  lemma PostKeepsPool(s: State, thread: nat, node: nat, t: State)
    requires PoolInv(s) && node in s.held && Step(s, Post(thread, node)) == Some(t)
    ensures PoolInv(t)
  {
    if Enqueue(s.queue, node).0 {
      var before := Hand(s) + s.queue;
      assert Hand(t) + t.queue == before + [node];
      assert Elements(before + [node]) == Elements(before) + {node};
      assert node !in Elements(before);
    }
  }

  lemma DispatchKeepsPool(s: State, t: State)
    requires PoolInv(s) && Step(s, Dispatch) == Some(t)
    ensures PoolInv(t)
  {
    assert Hand(s) + s.queue == [s.worker.node] + t.queue;
    assert Hand(t) + t.queue == t.queue;
    DistinctTail(s.worker.node, t.queue);
  }

  lemma DistinctTail(node: nat, rest: seq<nat>)
    requires Distinct([node] + rest)
    ensures node !in rest && Distinct(rest) && Elements([node] + rest) == {node} + Elements(rest)
  {
    var all := [node] + rest;
    forall i | 0 <= i < |rest|
      ensures rest[i] != node && forall j :: i < j < |rest| ==> rest[i] != rest[j]
    {
      assert all[0] != all[i + 1];
      forall j | i < j < |rest|
        ensures rest[i] != rest[j]
      {
        assert all[i + 1] != all[j + 1];
      }
    }
  }

  lemma {:induction false} RunKeepsPool(states: seq<State>, actions: seq<Action>, i: nat)
    requires IsClientRun(states, actions) && i < |states|
    ensures PoolInv(states[i])
  {
    if i != 0 {
      RunKeepsPool(states, actions, i - 1);
      StepKeepsPool(states[i - 1], actions[i - 1], states[i]);
    }
  }

  /** With such clients the FIFO is never full: `post` of a held node always succeeds. */
  lemma PostNeverFails(states: seq<State>, actions: seq<Action>, i: nat, node: nat)
    requires IsClientRun(states, actions) && i < |states|
    requires node in states[i].held
    ensures Enqueue(states[i].queue, node) == (true, states[i].queue + [node])
  {
    RunKeepsPool(states, actions, i);
    var s := states[i];
    assert s.queue == (Hand(s) + s.queue)[|Hand(s)|..];
    assert Elements(s.queue) <= Slots(POOL_LEN) by {
      assert forall x :: x in s.queue ==> x in Elements(Hand(s) + s.queue);
    }
    NeverFull(s.queue);
  }

  /** The lowest free slot is handed out, and nobody else has it; with none free nothing happens. */
  lemma FetchedSlotIsUnowned(states: seq<State>, actions: seq<Action>, i: nat)
    requires IsClientRun(states, actions) && i < |actions| && actions[i] == Fetch
    ensures var slot := FirstFree(states[i].live, 0);
            if slot == POOL_LEN then states[i + 1] == states[i]
            else && states[i + 1].held == states[i].held + {slot} && states[i + 1].live == states[i].live + {slot}
                 && slot !in states[i].held && slot !in states[i].queue && slot !in Hand(states[i])
  {
    RunKeepsPool(states, actions, i);
    var s, slot := states[i], FirstFree(states[i].live, 0);
    assert Step(s, actions[i]) == Some(states[i + 1]);
    assert forall x :: x in s.queue || x in Hand(s) ==> x in Elements(Hand(s) + s.queue);
  }

  /** A freed slot is nobody's and can be handed out again. */
  lemma FreedSlotComesBack(states: seq<State>, actions: seq<Action>, i: nat, node: nat)
    requires IsClientRun(states, actions) && i < |states| && node in states[i].held
    ensures var t := Step(states[i], Free(node));
            && t == Some(states[i].(live := states[i].live - {node}, held := states[i].held - {node}))
            && FirstFree(t.value.live, 0) <= node < POOL_LEN
  {
    RunKeepsPool(states, actions, i);
    var live := states[i].live - {node};
    assert node !in live && node in states[i].live;
  }

  /** Without that discipline the FIFO can fill: one node may be posted thirty-two times. */
  lemma {:induction false} SameNodeFillsFifo(n: nat) returns (states: seq<State>, actions: seq<Action>)
    requires n <= FIFO_LEN
    ensures IsRun(states, actions)
    ensures |states[|actions|].queue| == n && states[|actions|].inFlight == {}
    ensures n == FIFO_LEN ==> !Enqueue(states[|actions|].queue, 0).0
  {
    if n == 0 {
      states, actions := [INIT], [];
    } else {
      states, actions := SameNodeFillsFifo(n - 1);
      var s := states[|actions|];
      var t := Step(s, Post(0, 0)).value;
      var u := Step(t, Up(0)).value;
      states := states + [t, u];
      actions := actions + [Post(0, 0), Up(0)];
    }
  }
}
