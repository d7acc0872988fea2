/** The claim protocol around the two scratch buffers of the smoltcp device
    (chips/ws63/rf/src/netif_smoltcp.rs): a receive or transmit call claims a scratch by setting its
    flag, a token holds the claim, and the flag is cleared when the token is consumed and once more
    when it is dropped. Every critical section is one step, in any interleaving of any number of calls. */
module RxTokens {
  import opened Arithmetic
  import opened RxQueue
  import opened Words
  import opened Wrappers

  type Id = nat

  /** A receive call, later the RX token it returned; `frame` is what was popped for the token. */
  datatype RxClaim =
    | Receiving(hasTx: bool)
    | Refused(hasTx: bool)
    | RxToken(len: nat, frame: Frame)
    | RxDropping // consumed, its drop still to come

  datatype TxClaim = ForReceive | TxToken | TxDropping

  datatype State = State(queue: Queue, rxClaimed: bool, txClaimed: bool, scratch: seq<Byte>,
                         rx: map<Id, RxClaim>, tx: map<Id, TxClaim>,
                         accepted: seq<Frame>, delivered: seq<Frame>)

  datatype Action =
    | Outside(event: Event) // rx_push, take_received, reset of the diagnostics
    | ClaimRx(id: Id) // receive: the first claim
    | ClaimTx(id: Id) // receive: the second claim
    | PopFrame(id: Id) // receive: rx_pop into the scratch
    | GiveUp(id: Id) // receive: clear what was claimed and return None
    | Transmit(id: Id)
    | ReleaseRx(id: Id) // the end of RxFrame::consume
    | DropRx(id: Id)
    | ReleaseTx(id: Id) // the end of TxBuf::consume
    | DropTx(id: Id)

  predicate WaitsWithTx(c: RxClaim) { (c.Receiving? || c.Refused?) && c.hasTx }

  predicate FreshId(s: State, id: Id) { id !in s.rx && id !in s.tx }

  /** A frame goes in: at the back of the queue, and into the account, unless refused. */
  function WithEvent(s: State, e: Event): State {
    var q := s.queue.frames;
    s.(queue := Apply(s.queue, e),
       accepted := if e.Push? && |e.frame| <= MTU && |q| < DEPTH then s.accepted + [e.frame] else s.accepted,
       delivered := if e.Pop? && q != [] then s.delivered + [q[0]] else s.delivered)
  }

  /** `rx_pop` into the scratch. */
  function WithFrame(s: State, id: Id): State
    requires s.queue.frames != []
  {
    var frame := s.queue.frames[0];
    var n := Min(|frame|, |s.scratch|);
    WithEvent(s, Pop).(scratch := frame[..n] + s.scratch[n..],
                       rx := s.rx[id := RxToken(n, frame)], tx := s.tx[id := TxToken])
  }

  function Step(s: State, a: Action): Option<State> {
    match a
    case Outside(e) => Some(WithEvent(s, e))
    case ClaimRx(id) =>
      if !FreshId(s, id) then None
      else Some(if s.rxClaimed then s else s.(rxClaimed := true, rx := s.rx[id := Receiving(false)]))
    case ClaimTx(id) =>
      if !(id in s.rx && s.rx[id] == Receiving(false)) then None
      else if s.txClaimed then Some(s.(rx := s.rx[id := Refused(false)]))
      else Some(s.(txClaimed := true, rx := s.rx[id := Receiving(true)], tx := s.tx[id := ForReceive]))
    case PopFrame(id) =>
      if !(id in s.rx && s.rx[id] == Receiving(true)) then None
      else Some(if s.queue.frames == [] then s.(rx := s.rx[id := Refused(true)]) else WithFrame(s, id))
    case GiveUp(id) =>
      if !(id in s.rx && s.rx[id].Refused?) then None
      else if s.rx[id].hasTx then Some(s.(rxClaimed := false, txClaimed := false, rx := s.rx - {id}, tx := s.tx - {id}))
      else Some(s.(rxClaimed := false, rx := s.rx - {id}))
    case Transmit(id) =>
      if !FreshId(s, id) then None
      else Some(if s.txClaimed then s else s.(txClaimed := true, tx := s.tx[id := TxToken]))
    case ReleaseRx(id) =>
      if !(id in s.rx && s.rx[id].RxToken?) then None
      else Some(s.(rxClaimed := false, rx := s.rx[id := RxDropping]))
    case DropRx(id) =>
      if !(id in s.rx && (s.rx[id].RxToken? || s.rx[id].RxDropping?)) then None
      else Some(s.(rxClaimed := false, rx := s.rx - {id}))
    case ReleaseTx(id) =>
      if !(id in s.tx && s.tx[id].TxToken?) then None
      else Some(s.(txClaimed := false, tx := s.tx[id := TxDropping]))
    case DropTx(id) =>
      if !(id in s.tx && (s.tx[id].TxToken? || s.tx[id].TxDropping?)) then None
      else Some(s.(txClaimed := false, tx := s.tx - {id}))
  }

  function Init(): State {
    State(EMPTY, false, false, seq(MTU, i => 0), map[], map[], [], [])
  }

  // ----- the invariant

  ghost function RxHolders(claims: map<Id, RxClaim>): set<Id> {
    set id | id in claims && !claims[id].RxDropping?
  }

  ghost function TxHolders(claims: map<Id, TxClaim>): set<Id> {
    set id | id in claims && !claims[id].TxDropping?
  }

  /** The flag is set exactly while somebody holds the scratch, and nobody shares it. */
  ghost predicate Exclusive(flag: bool, holders: set<Id>) {
    if flag then exists id :: holders == {id} else holders == {}
  }

  /** A receive call that got as far as the second flag has both claims. */
  ghost predicate Paired(s: State) {
    forall id :: (id in s.rx && WaitsWithTx(s.rx[id])) <==> (id in s.tx && s.tx[id] == ForReceive)
  }

  /** What a live RX token lends is the frame popped for it. */
  ghost predicate TokensIntact(s: State) {
    && |s.scratch| == MTU
    && forall id :: id in s.rx && s.rx[id].RxToken? ==>
         && s.rx[id].len == |s.rx[id].frame| <= MTU
         && s.scratch[..s.rx[id].len] == s.rx[id].frame
  }

  /** Every accepted frame was delivered once, in order, or waits. */
  ghost predicate Conserved(s: State) {
    && s.accepted == s.delivered + s.queue.frames
    && |s.queue.frames| <= DEPTH
    && forall f :: f in s.queue.frames ==> |f| <= MTU
  }

  ghost predicate Inv(s: State) {
    && Exclusive(s.rxClaimed, RxHolders(s.rx))
    && Exclusive(s.txClaimed, TxHolders(s.tx))
    && Paired(s) && TokensIntact(s) && Conserved(s)
  }

  /** The second release of a consumed token meets a flag that nobody has set meanwhile. */
  predicate Orderly(s: State, a: Action) {
    && (a.DropRx? && a.id in s.rx && s.rx[a.id].RxDropping? ==> !s.rxClaimed)
    && (a.DropTx? && a.id in s.tx && s.tx[a.id].TxDropping? ==> !s.txClaimed)
  }

  // ----- every step

  lemma RxHolderSets(claims: map<Id, RxClaim>, id: Id, c: RxClaim)
    ensures RxHolders(claims[id := c]) == if c.RxDropping? then RxHolders(claims) - {id} else RxHolders(claims) + {id}
    ensures RxHolders(claims - {id}) == RxHolders(claims) - {id}
  {
  }

  lemma TxHolderSets(claims: map<Id, TxClaim>, id: Id, c: TxClaim)
    ensures TxHolders(claims[id := c]) == if c.TxDropping? then TxHolders(claims) - {id} else TxHolders(claims) + {id}
    ensures TxHolders(claims - {id}) == TxHolders(claims) - {id}
  {
  }

  /** A holder is the only one, and the flag is set. */
  lemma SoleHolder(flag: bool, holders: set<Id>, id: Id)
    requires Exclusive(flag, holders) && id in holders
    ensures flag && holders == {id} && holders + {id} == holders && holders - {id} == {}
  {
  }

  lemma EventKeepsInv(s: State, e: Event)
    requires Inv(s)
    ensures Inv(WithEvent(s, e))
  {
    FifoStep(s.accepted, s.delivered, s.queue.frames, e);
  }

  lemma ClaimRxKeepsInv(s: State, id: Id)
    requires Inv(s) && Step(s, ClaimRx(id)).Some?
    ensures Inv(Step(s, ClaimRx(id)).value)
  {
    RxHolderSets(s.rx, id, Receiving(false));
    assert {} + {id} == {id};
  }

  lemma ClaimTxKeepsInv(s: State, id: Id)
    requires Inv(s) && Step(s, ClaimTx(id)).Some?
    ensures Inv(Step(s, ClaimTx(id)).value)
  {
    SoleHolder(s.rxClaimed, RxHolders(s.rx), id);
    RxHolderSets(s.rx, id, Step(s, ClaimTx(id)).value.rx[id]);
    TxHolderSets(s.tx, id, ForReceive);
    assert {} + {id} == {id};
  }

  lemma TransmitKeepsInv(s: State, id: Id)
    requires Inv(s) && Step(s, Transmit(id)).Some?
    ensures Inv(Step(s, Transmit(id)).value)
  {
    TxHolderSets(s.tx, id, TxToken);
    assert {} + {id} == {id};
  }

  lemma PopKeepsInv(s: State, id: Id)
    requires Inv(s) && Step(s, PopFrame(id)).Some?
    ensures Inv(Step(s, PopFrame(id)).value)
  {
    var t := Step(s, PopFrame(id)).value;
    SoleHolder(s.rxClaimed, RxHolders(s.rx), id);
    SoleHolder(s.txClaimed, TxHolders(s.tx), id);
    RxHolderSets(s.rx, id, t.rx[id]);
    TxHolderSets(s.tx, id, TxToken);
    EventKeepsInv(s, Pop);
    if s.queue.frames != [] {
      var frame := s.queue.frames[0];
      assert t.scratch[..|frame|] == frame;
      forall i | i in t.rx && t.rx[i].RxToken?
        ensures i == id
      {
        assert i == id || i in RxHolders(s.rx);
      }
    }
  }

  lemma ReleasesKeepInv(s: State, a: Action)
    requires Inv(s) && (a.GiveUp? || a.ReleaseRx? || a.ReleaseTx?) && Step(s, a).Some?
    ensures Inv(Step(s, a).value)
  {
    match a
    case GiveUp(id) =>
      SoleHolder(s.rxClaimed, RxHolders(s.rx), id);
      RxHolderSets(s.rx, id, RxDropping);
      if s.rx[id].hasTx {
        SoleHolder(s.txClaimed, TxHolders(s.tx), id);
        TxHolderSets(s.tx, id, TxDropping);
      }
    case ReleaseRx(id) =>
      SoleHolder(s.rxClaimed, RxHolders(s.rx), id);
      RxHolderSets(s.rx, id, RxDropping);
    case ReleaseTx(id) =>
      SoleHolder(s.txClaimed, TxHolders(s.tx), id);
      TxHolderSets(s.tx, id, TxDropping);
  }

  lemma DropRxExact(s: State, id: Id)
    requires Inv(s) && Step(s, DropRx(id)).Some?
    ensures Inv(Step(s, DropRx(id)).value) <==> Orderly(s, DropRx(id))
  {
    RxHolderSets(s.rx, id, RxDropping);
    if id in RxHolders(s.rx) {
      SoleHolder(s.rxClaimed, RxHolders(s.rx), id);
    } else {
      assert RxHolders(s.rx) - {id} == RxHolders(s.rx);
    }
  }

  lemma DropTxExact(s: State, id: Id)
    requires Inv(s) && Step(s, DropTx(id)).Some?
    ensures Inv(Step(s, DropTx(id)).value) <==> Orderly(s, DropTx(id))
  {
    TxHolderSets(s.tx, id, TxDropping);
    if id in TxHolders(s.tx) {
      SoleHolder(s.txClaimed, TxHolders(s.tx), id);
    } else {
      assert TxHolders(s.tx) - {id} == TxHolders(s.tx);
    }
  }

  /** Every step keeps the invariant, except exactly the second release under a claim made after the first. */
  lemma StepKeepsInvExactly(s: State, a: Action)
    requires Inv(s) && Step(s, a).Some?
    ensures Inv(Step(s, a).value) <==> Orderly(s, a)
  {
    match a
    case Outside(e) => EventKeepsInv(s, e);
    case PopFrame(id) => PopKeepsInv(s, id);
    case ClaimRx(id) => ClaimRxKeepsInv(s, id);
    case ClaimTx(id) => ClaimTxKeepsInv(s, id);
    case Transmit(id) => TransmitKeepsInv(s, id);
    case GiveUp(_) => ReleasesKeepInv(s, a);
    case ReleaseRx(_) => ReleasesKeepInv(s, a);
    case ReleaseTx(_) => ReleasesKeepInv(s, a);
    case DropRx(id) => DropRxExact(s, id);
    case DropTx(id) => DropTxExact(s, id);
  }

  // ----- runs

  ghost predicate IsRun(states: seq<State>, actions: seq<Action>) {
    && |states| == |actions| + 1
    && states[0] == Init()
    && forall i :: 0 <= i < |actions| ==> Step(states[i], actions[i]) == Some(states[i + 1])
  }

  ghost predicate IsOrderly(states: seq<State>, actions: seq<Action>) {
    |states| == |actions| + 1 && forall i :: 0 <= i < |actions| ==> Orderly(states[i], actions[i])
  }

  /** A run breaks the invariant nowhere exactly when every second release in it is orderly. */
  lemma {:induction false} RunKeepsInvExactly(states: seq<State>, actions: seq<Action>)
    requires IsRun(states, actions)
    ensures (forall k :: 0 <= k < |states| ==> Inv(states[k])) <==> IsOrderly(states, actions)
  {
    if IsOrderly(states, actions) {
      forall k | 0 <= k < |states|
        ensures Inv(states[k])
      {
        OrderlyUpTo(states, actions, k);
      }
    }
    if forall k :: 0 <= k < |states| ==> Inv(states[k]) {
      forall i | 0 <= i < |actions|
        ensures Orderly(states[i], actions[i])
      {
        assert Step(states[i], actions[i]) == Some(states[i + 1]) && Inv(states[i + 1]);
        StepKeepsInvExactly(states[i], actions[i]);
      }
    }
  }

  lemma {:induction false} OrderlyUpTo(states: seq<State>, actions: seq<Action>, k: nat)
    requires IsRun(states, actions) && IsOrderly(states, actions) && k < |states|
    ensures Inv(states[k])
  {
    if k != 0 {
      OrderlyUpTo(states, actions, k - 1);
      StepKeepsInvExactly(states[k - 1], actions[k - 1]);
    }
  }

  /** A live RX token has the scratch to itself and reads the frame popped for it; what was accepted
      was delivered in order or waits. */
  lemma TokenReadsItsFrame(states: seq<State>, actions: seq<Action>, k: nat, id: Id)
    requires IsRun(states, actions) && IsOrderly(states, actions) && k < |states|
    requires id in states[k].rx && states[k].rx[id].RxToken?
    ensures var s := states[k];
            && s.rxClaimed && RxHolders(s.rx) == {id}
            && s.rx[id].len <= |s.scratch| && s.scratch[..s.rx[id].len] == s.rx[id].frame
            && s.accepted == s.delivered + s.queue.frames
  {
    OrderlyUpTo(states, actions, k);
    SoleHolder(states[k].rxClaimed, RxHolders(states[k].rx), id);
  }

  /** Consuming a token and dropping it with nothing in between is one orderly release. */
  lemma ConsumeIsOneRelease(s: State, id: Id)
    requires id in s.rx && s.rx[id].RxToken?
    ensures var released := Step(s, ReleaseRx(id)).value;
            Orderly(released, DropRx(id)) && Step(released, DropRx(id)) == Step(s, DropRx(id))
  {
    var released := Step(s, ReleaseRx(id)).value;
    assert released.rx - {id} == s.rx - {id};
  }

  /** The steps of one receive call with nothing in between. */
  function AfterReceive(s: State, id: Id): State
    requires FreshId(s, id)
  {
    if s.rxClaimed then Step(s, ClaimRx(id)).value
    else
      var s2 := Step(Step(s, ClaimRx(id)).value, ClaimTx(id)).value;
      if s2.rx[id].Refused? then Step(s2, GiveUp(id)).value
      else
        var s3 := Step(s2, PopFrame(id)).value;
        if s3.rx[id].Refused? then Step(s3, GiveUp(id)).value else s3
  }

  /** A receive call that nothing interrupts is refused exactly when a flag is set or no frame waits,
      and then leaves all as it was; else it claims both and pops. */
  lemma UninterruptedReceive(s: State, id: Id)
    requires FreshId(s, id)
    ensures AfterReceive(s, id) ==
            if s.rxClaimed || s.txClaimed || s.queue.frames == [] then s
            else WithFrame(s, id).(rxClaimed := true, txClaimed := true)
  {
    if !s.rxClaimed {
      var s2 := Step(Step(s, ClaimRx(id)).value, ClaimTx(id)).value;
      assert s2.rx - {id} == s.rx && s2.tx - {id} == s.tx;
      if !s.txClaimed {
        var s3 := Step(s2, PopFrame(id)).value;
        assert s3.rx - {id} == s.rx && s3.tx - {id} == s.tx;
        if s.queue.frames != [] {
          assert s3.rx == WithFrame(s, id).rx && s3.tx == WithFrame(s, id).tx;
        }
      }
    }
  }

  /** A transmit call hands out a token exactly when the flag is clear; consumed and dropped, the token leaves
      everything as it was. */
  lemma UninterruptedTransmit(s: State, id: Id)
    requires FreshId(s, id)
    ensures Step(s, Transmit(id)) == Some(if s.txClaimed then s else s.(txClaimed := true, tx := s.tx[id := TxToken]))
    ensures !s.txClaimed ==>
              var token := Step(s, Transmit(id)).value;
              var consumed := Step(token, ReleaseTx(id));
              && Step(token, DropTx(id)) == Some(s)
              && consumed.Some? && !consumed.value.txClaimed && Step(consumed.value, DropTx(id)) == Some(s)
  {
    if !s.txClaimed {
      var token := Step(s, Transmit(id)).value;
      assert token.tx - {id} == s.tx;
      assert Step(token, ReleaseTx(id)).value.tx - {id} == s.tx;
    }
  }

  /** A receive call and its token, consumed and dropped: the frame is gone from the queue, the flag free. */
  lemma ReceivedAndDropped(s: State, id: Id)
    requires FreshId(s, id) && !s.rxClaimed && !s.txClaimed && s.queue.frames != []
    ensures var token := AfterReceive(s, id);
            var consumed := Step(token, ReleaseRx(id));
            && consumed.Some? && !consumed.value.rxClaimed
            && var dropped := Step(consumed.value, DropRx(id));
               && dropped.Some? && !dropped.value.rxClaimed && dropped.value.rx == s.rx
               && dropped.value.queue.frames == s.queue.frames[1..]
               && dropped.value.delivered == s.delivered + [s.queue.frames[0]]
  {
    UninterruptedReceive(s, id);
    var token := AfterReceive(s, id);
    assert Step(token, ReleaseRx(id)).value.rx - {id} == s.rx;
  }

  /** A claim between the two releases of another token is undone by the second: the next call
      claims the scratch too. */
  lemma PreemptedDropSharesScratch(s: State, dropped: Id, first: Id, second: Id)
    requires Inv(s) && !s.rxClaimed && dropped in s.rx && s.rx[dropped].RxDropping?
    requires FreshId(s, first) && FreshId(s, second) && first != second
    ensures var s1 := Step(s, ClaimRx(first)).value;
            var s2 := Step(s1, DropRx(dropped));
            && s2.Some? && !Inv(s2.value)
            && var s3 := Step(s2.value, ClaimRx(second));
               s3.Some? && {first, second} <= RxHolders(s3.value.rx)
  {
    var s1 := Step(s, ClaimRx(first)).value;
    ClaimRxKeepsInv(s, first);
    DropRxExact(s1, dropped);
  }

  /** One more step, which keeps the invariant when it is no drop. */
  lemma RunExtends(states: seq<State>, actions: seq<Action>, a: Action)
    returns (longer: seq<State>, more: seq<Action>, t: State)
    requires IsRun(states, actions) && Step(states[|actions|], a).Some?
    ensures IsRun(longer, more) && t == longer[|more|] == Step(states[|actions|], a).value
    ensures Inv(states[|actions|]) && !a.DropRx? && !a.DropTx? ==> Inv(t)
  {
    var s := states[|actions|];
    t := Step(s, a).value;
    longer, more := states + [t], actions + [a];
    RunSnoc(states, actions, a, t);
    if Inv(s) && !a.DropRx? && !a.DropTx? {
      OtherStepsKeepInv(s, a);
    }
  }

  lemma RunSnoc(states: seq<State>, actions: seq<Action>, a: Action, t: State)
    requires IsRun(states, actions) && Step(states[|actions|], a) == Some(t)
    ensures IsRun(states + [t], actions + [a])
  {
    var longer, more := states + [t], actions + [a];
    forall i | 0 <= i < |more|
      ensures Step(longer[i], more[i]) == Some(longer[i + 1])
    {
      var from, to := longer[i], longer[i + 1];
      if i < |actions| {
        assert from == states[i] && to == states[i + 1] && more[i] == actions[i];
        assert Step(states[i], actions[i]) == Some(states[i + 1]);
      } else {
        assert from == states[|actions|] && to == t && more[i] == a;
      }
    }
  }

  lemma OtherStepsKeepInv(s: State, a: Action)
    requires Inv(s) && Step(s, a).Some? && !a.DropRx? && !a.DropTx?
    ensures Inv(Step(s, a).value)
  {
    StepKeepsInvExactly(s, a);
  }

  /** A run that gets there: call 0 receives a frame and consumes it, call 1 claims before its drop, and
      call 2 claims too. */
  lemma SharedScratchRun(frame: Frame) returns (states: seq<State>, actions: seq<Action>)
    requires |frame| <= MTU
    ensures IsRun(states, actions) && {1, 2} <= RxHolders(states[|actions|].rx)
  {
    var s;
    states, actions, s := OneConsumed(frame);
    PreemptedDropSharesScratch(s, 0, 1, 2);
    states, actions, s := RunExtends(states, actions, ClaimRx(1));
    states, actions, s := RunExtends(states, actions, DropRx(0));
    states, actions, s := RunExtends(states, actions, ClaimRx(2));
  }

  /** Up to the release of call 0: its drop is still to come and the flag is free. */
  lemma OneConsumed(frame: Frame) returns (states: seq<State>, actions: seq<Action>, s: State)
    requires |frame| <= MTU
    ensures IsRun(states, actions) && s == states[|actions|] && Inv(s)
    ensures !s.rxClaimed && s.rx == map[0 := RxDropping] && s.tx.Keys == {0}
  {
    states, actions, s := BothClaimed(frame);
    states, actions, s := RunExtends(states, actions, PopFrame(0));
    states, actions, s := RunExtends(states, actions, ReleaseRx(0));
  }

  lemma BothClaimed(frame: Frame) returns (states: seq<State>, actions: seq<Action>, s: State)
    requires |frame| <= MTU
    ensures IsRun(states, actions) && s == states[|actions|] && Inv(s)
    ensures s.queue.frames == [frame] && s.rx == map[0 := Receiving(true)] && s.tx == map[0 := ForReceive]
  {
    states, actions := [Init()], [];
    InitInv();
    states, actions, s := RunExtends(states, actions, Outside(Push(frame)));
    states, actions, s := RunExtends(states, actions, ClaimRx(0));
    states, actions, s := RunExtends(states, actions, ClaimTx(0));
  }

  lemma InitInv()
    ensures Inv(Init())
  {
  }

  // ----- the calls as the device makes them

  /** The device with its two flags and the RX scratch; each method is a call that nothing interrupts. */
  class Device {
    const bridge: Bridge
    const rxScratch: array<Byte>
    var rxClaimed: bool
    var txClaimed: bool

    ghost predicate Valid()
      reads this, bridge, bridge.rx, bridge.rxLen
    {
      bridge.Valid() && rxScratch.Length == MTU
    }

    /** The device is in this state of the protocol. */
    ghost predicate IsAt(s: State)
      requires Valid()
      reads this, bridge, bridge.rx, bridge.rxLen, rxScratch
    {
      && s.queue == bridge.View() && s.scratch == rxScratch[..]
      && s.rxClaimed == rxClaimed && s.txClaimed == txClaimed
    }

    constructor (bridge: Bridge)
      requires bridge.Valid() && bridge.View() == EMPTY
      ensures Valid() && this.bridge == bridge && IsAt(Init()) && fresh(rxScratch)
    {
      this.bridge := bridge;
      rxScratch := new Byte[MTU](i => 0);
      rxClaimed, txClaimed := false, false;
      new;
      assert rxScratch[..] == Init().scratch;
    }

    /** `receive`: the steps of one call, and the length of the frame now in the scratch. */
    method Receive(ghost s: State, ghost id: Id) returns (token: Option<nat>)
      requires Valid() && IsAt(s) && FreshId(s, id)
      modifies this, bridge, rxScratch
      ensures Valid() && IsAt(AfterReceive(s, id))
      ensures token == if id !in AfterReceive(s, id).rx then None else Some(AfterReceive(s, id).rx[id].len)
    {
      UninterruptedReceive(s, id);
      if rxClaimed {
        return None;
      }
      rxClaimed := true;
      if txClaimed {
        rxClaimed := false;
        return None;
      }
      txClaimed := true;
      token := bridge.Pop(rxScratch);
      if token.None? {
        rxClaimed, txClaimed := false, false;
      }
    }

    /** `transmit`: whether a TX token is handed out. */
    method Transmit(ghost s: State, ghost id: Id) returns (token: bool)
      requires Valid() && IsAt(s) && FreshId(s, id)
      modifies `txClaimed
      ensures Valid() && IsAt(Step(s, Action.Transmit(id)).value)
      ensures token <==> !s.txClaimed
      ensures token <==> id in Step(s, Action.Transmit(id)).value.tx
    {
      token := !txClaimed;
      txClaimed := true;
    }

    /** `RxFrame::consume` and the drop behind it: the reader sees the frame popped for its token. */
    method Consume(len: nat, ghost s: State, ghost id: Id) returns (seen: seq<Byte>)
      requires Valid() && IsAt(s) && Inv(s)
      requires id in s.rx && s.rx[id].RxToken? && s.rx[id].len == len
      modifies `rxClaimed
      ensures Valid() && IsAt(Step(Step(s, ReleaseRx(id)).value, DropRx(id)).value)
      ensures seen == s.rx[id].frame
    {
      seen := rxScratch[..len];
      rxClaimed := false;
      rxClaimed := false;
    }
  }
}
