/** The allocation and free traces of the RF heap (chips/ws63/rf/src/alloc.rs): writers fill one of
    sixteen slots store by store, a snapshot reads a slot load by load and retries until the sequence
    number is the same before and after. Every store and every load is one step of an interleaving.
    `width` is the number of recorded fields, two for a free and three for an allocation. */
module TraceRing {
  import opened Arithmetic
  import opened Wrappers

  const CAPACITY: nat := 16
  const SEQUENCE_LIMIT: nat := 0x1_0000_0000

  datatype Slot = Slot(sequence: nat, fields: seq<nat>)

  /** The writer of event `number` has done `stores` of its width + 2 stores. */
  datatype Writer = Idle | Writing(number: nat, stores: nat)

  /** A snapshot of one slot: the number loaded first, the fields loaded so far, the row returned.
      Snapshots change nothing, so one stands for any number of them. */
  datatype Reader = Resting | Reading(slot: nat, before: nat, got: seq<nat>) | Returned(slot: nat, row: Slot)

  datatype State = State(slots: seq<Slot>, writers: seq<Writer>, events: seq<seq<nat>>, reader: Reader)

  datatype Action =
    | Begin(event: seq<nat>) // fetch_add on the sequence counter
    | Store(slot: nat) // the next store of the slot's writer
    | LoadBefore(slot: nat)
    | LoadField
    | LoadAfter

  function Init(width: nat): State {
    State(seq(CAPACITY, i => Slot(0, seq(width, j => 0))), seq(CAPACITY, i => Idle), [], Resting)
  }

  function SlotOf(number: nat): nat
    requires number > 0
  {
    (number - 1) % CAPACITY
  }

  function NextStore(width: nat, slot: Slot, w: Writer, event: seq<nat>): (r: (Slot, Writer))
    requires w.Writing? && |slot.fields| == |event| == width
  {
    if w.stores == 0 then (slot.(sequence := 0), w.(stores := 1))
    else if w.stores <= width then
      (slot.(fields := slot.fields[w.stores - 1 := event[w.stores - 1]]), w.(stores := w.stores + 1))
    else (slot.(sequence := w.number), Idle)
  }

  ghost predicate Shaped(width: nat, s: State) {
    && |s.slots| == |s.writers| == CAPACITY
    && (forall k :: 0 <= k < CAPACITY ==> |s.slots[k].fields| == width)
    && (forall n :: 0 <= n < |s.events| ==> |s.events[n]| == width)
    && (forall k :: 0 <= k < CAPACITY && s.writers[k].Writing? ==> 0 < s.writers[k].number <= |s.events|)
    && (s.reader.Reading? ==> s.reader.slot < CAPACITY && |s.reader.got| <= width)
  }

  /** The state after one step. A writer begins only when its slot has no other writer and the 32-bit
      counter does not wrap. */
  ghost function Step(width: nat, s: State, a: Action): Option<State>
    requires Shaped(width, s)
  {
    match a
    case Begin(event) =>
      var number := |s.events| + 1;
      var k := SlotOf(number);
      if |event| == width && number < SEQUENCE_LIMIT && s.writers[k].Idle? then
        Some(s.(events := s.events + [event], writers := s.writers[k := Writing(number, 0)]))
      else None
    case Store(k) =>
      if k < CAPACITY && s.writers[k].Writing? then
        var (slot, w) := NextStore(width, s.slots[k], s.writers[k], s.events[s.writers[k].number - 1]);
        Some(s.(slots := s.slots[k := slot], writers := s.writers[k := w]))
      else None
    case LoadBefore(k) =>
      if k < CAPACITY && !s.reader.Reading? then Some(s.(reader := Reading(k, s.slots[k].sequence, []))) else None
    case LoadField =>
      if s.reader.Reading? && |s.reader.got| < width then
        Some(s.(reader := s.reader.(got := s.reader.got + [s.slots[s.reader.slot].fields[|s.reader.got|]])))
      else None
    case LoadAfter =>
      if s.reader.Reading? && |s.reader.got| == width then
        var after := s.slots[s.reader.slot].sequence;
        Some(s.(reader := if after == s.reader.before then Returned(s.reader.slot, Slot(after, s.reader.got)) else Resting))
      else None
  }

  ghost predicate IsRun(width: nat, states: seq<State>, actions: seq<Action>) {
    && |states| == |actions| + 1
    && states[0] == Init(width)
    && forall i :: 0 <= i < |actions| ==>
         Shaped(width, states[i]) && Step(width, states[i], actions[i]) == Some(states[i + 1])
  }

  /** The last of the first `count` events that belongs to slot k, 0 when there is none. */
  function Latest(count: nat, k: nat): (n: nat)
    requires k < CAPACITY
    ensures n <= count
  {
    if count <= k then 0 else count - (count - 1 - k) % CAPACITY
  }

  lemma LatestMoves(count: nat, k: nat)
    requires k < CAPACITY
    ensures Latest(count + 1, k) == if SlotOf(count + 1) == k then count + 1 else Latest(count, k)
  {
    var q, r := count / CAPACITY, count % CAPACITY;
    assert count == CAPACITY * q + r;
    if count > k {
      if r > k {
        QuotientRemainder(count - k, CAPACITY, q, r - k);
        QuotientRemainder(count - 1 - k, CAPACITY, q, r - 1 - k);
      } else {
        QuotientRemainder(count - 1 - k, CAPACITY, q - 1, CAPACITY + r - 1 - k);
        if r < k {
          QuotientRemainder(count - k, CAPACITY, q - 1, CAPACITY + r - k);
        } else {
          QuotientRemainder(count - k, CAPACITY, q, 0);
        }
      }
    }
  }

  /** A slot holds a whole event. */
  predicate Holds(slot: Slot, events: seq<seq<nat>>) {
    0 < slot.sequence <= |events| && slot.fields == events[slot.sequence - 1]
  }

  /** A slot without a writer holds its latest event; during a write it still holds the one before, or
      it is marked 0 and a prefix of the fields is new. */
  ghost predicate SlotInv(width: nat, slot: Slot, w: Writer, events: seq<seq<nat>>, k: nat)
    requires k < CAPACITY
  {
    match w
    case Idle =>
      slot.sequence == Latest(|events|, k) && (slot.sequence == 0 || Holds(slot, events))
    case Writing(n, stores) =>
      && 0 < n <= |events| && n == Latest(|events|, k) && |events[n - 1]| == |slot.fields| == width && stores <= width + 1
      && if stores == 0 then slot.sequence < n && (slot.sequence == 0 || Holds(slot, events))
         else slot.sequence == 0 && forall j :: 0 <= j < stores - 1 ==> slot.fields[j] == events[n - 1][j]
  }

  /** What a snapshot has loaded belongs to its event for as long as the slot still shows that event. */
  ghost predicate ReaderInv(s: State)
    requires |s.slots| == |s.writers| == CAPACITY
  {
    match s.reader
    case Resting => true
    case Reading(k, before, got) =>
      before != 0 && k < CAPACITY ==>
        && before <= |s.events|
        && before <= Latest(|s.events|, k)
        && (s.writers[k].Writing? ==> before < s.writers[k].number)
        && (s.slots[k].sequence == before ==> got <= s.events[before - 1])
    case Returned(k, row) =>
      row.sequence != 0 ==> k < CAPACITY && Holds(row, s.events)
  }

  ghost predicate Inv(width: nat, s: State) {
    && Shaped(width, s)
    && (forall k :: 0 <= k < CAPACITY ==> SlotInv(width, s.slots[k], s.writers[k], s.events, k))
    && ReaderInv(s)
  }

  lemma BeginKeeps(width: nat, s: State, event: seq<nat>, t: State)
    requires Inv(width, s) && Step(width, s, Begin(event)) == Some(t)
    ensures Inv(width, t)
  {
    forall k | 0 <= k < CAPACITY
      ensures SlotInv(width, t.slots[k], t.writers[k], t.events, k)
    {
      LatestMoves(|s.events|, k);
      assert SlotInv(width, s.slots[k], s.writers[k], s.events, k);
    }
    if s.reader.Reading? {
      LatestMoves(|s.events|, s.reader.slot);
    }
  }

  lemma StoreKeeps(width: nat, s: State, k: nat, t: State)
    requires Inv(width, s) && Step(width, s, Store(k)) == Some(t)
    ensures Inv(width, t)
  {
    assert SlotInv(width, s.slots[k], s.writers[k], s.events, k);
    assert SlotInv(width, t.slots[k], t.writers[k], t.events, k);
    assert forall j :: 0 <= j < CAPACITY && j != k ==> SlotInv(width, s.slots[j], s.writers[j], s.events, j);
  }

  lemma StepKeepsInv(width: nat, s: State, a: Action, t: State)
    requires Inv(width, s) && Step(width, s, a) == Some(t)
    ensures Inv(width, t)
  {
    match a
    case Begin(event) => BeginKeeps(width, s, event, t);
    case Store(k) => StoreKeeps(width, s, k, t);
    case LoadBefore(k) => assert SlotInv(width, s.slots[k], s.writers[k], s.events, k);
    case LoadField =>
      var k := s.reader.slot;
      assert SlotInv(width, s.slots[k], s.writers[k], s.events, k);
    case LoadAfter =>
  }

  lemma {:induction false} RunKeepsInv(width: nat, states: seq<State>, actions: seq<Action>, i: nat)
    requires IsRun(width, states, actions) && i < |states|
    ensures Inv(width, states[i])
  {
    if i != 0 {
      RunKeepsInv(width, states, actions, i - 1);
      StepKeepsInv(width, states[i - 1], actions[i - 1], states[i]);
    }
  }

  /** Seqlock safety: a returned row with a nonzero number is exactly the event of that number. */
  lemma SnapshotIsWhole(width: nat, states: seq<State>, actions: seq<Action>, i: nat)
    requires IsRun(width, states, actions) && i < |states|
    requires states[i].reader.Returned? && states[i].reader.row.sequence != 0
    ensures var row := states[i].reader.row;
            row.sequence <= |states[i].events| && row.fields == states[i].events[row.sequence - 1]
  {
    RunKeepsInv(width, states, actions, i);
  }

  ghost predicate Quiet(s: State) {
    forall w :: w in s.writers ==> w.Idle?
  }

  ghost predicate Shows(s: State, n: nat) {
    exists k :: 0 <= k < |s.slots| && s.slots[k].sequence == n
  }

  /** With no writer active the slots hold exactly the last sixteen events, each at its own place. */
  lemma QuietRingHoldsLastEvents(width: nat, states: seq<State>, actions: seq<Action>, i: nat, n: nat)
    requires IsRun(width, states, actions) && i < |states| && Quiet(states[i])
    requires 0 < n
    ensures |states[i].slots| == CAPACITY
    ensures Shows(states[i], n) <==> n <= |states[i].events| < n + CAPACITY
    ensures n <= |states[i].events| < n + CAPACITY ==>
              states[i].slots[SlotOf(n)] == Slot(n, states[i].events[n - 1])
  {
    RunKeepsInv(width, states, actions, i);
    var s, count := states[i], |states[i].events|;
    forall k | 0 <= k < CAPACITY
      ensures s.slots[k].sequence == n ==> count < n + CAPACITY && n <= count
      ensures count < n + CAPACITY && n <= count && k == SlotOf(n) ==> s.slots[k].sequence == n
    {
      assert SlotInv(width, s.slots[k], s.writers[k], s.events, k);
      LatestInWindow(count, k, n);
    }
    assert SlotInv(width, s.slots[SlotOf(n)], s.writers[SlotOf(n)], s.events, SlotOf(n));
  }

  lemma LatestInWindow(count: nat, k: nat, n: nat)
    requires k < CAPACITY && n > 0
    ensures Latest(count, k) == n ==> n <= count < n + CAPACITY
    ensures n <= count < n + CAPACITY && k == SlotOf(n) ==> Latest(count, k) == n
  {
    if n <= count < n + CAPACITY && k == SlotOf(n) {
      var q := (n - 1) / CAPACITY;
      assert n - 1 == CAPACITY * q + k;
      QuotientRemainder(count - 1 - k, CAPACITY, q, count - n);
    }
  }

  // ----- a reader, and a writer, that nothing interrupts

  /** The state after these steps in a row, None when one of them cannot happen. */
  ghost function Perform(width: nat, s: State, actions: seq<Action>): Option<State>
    decreases |actions|
  {
    if actions == [] then Some(s)
    else if !Shaped(width, s) || Step(width, s, actions[0]).None? then None
    else Perform(width, Step(width, s, actions[0]).value, actions[1..])
  }

  lemma PerformOne(width: nat, s: State, a: Action, rest: seq<Action>)
    requires Shaped(width, s) && Step(width, s, a).Some?
    ensures Perform(width, s, [a] + rest) == Perform(width, Step(width, s, a).value, rest)
  {
    assert ([a] + rest)[1..] == rest;
  }

  /** n loads of fields and the last load of the sequence number. */
  function Loads(n: nat): seq<Action> {
    if n == 0 then [LoadAfter] + [] else [LoadField] + Loads(n - 1)
  }

  lemma {:induction false} LoadsTheSlot(width: nat, s: State, k: nat, n: nat)
    requires Shaped(width, s) && k < CAPACITY && n <= width
    requires s.reader == Reading(k, s.slots[k].sequence, s.slots[k].fields[..width - n])
    ensures Perform(width, s, Loads(n)) == Some(s.(reader := Returned(k, s.slots[k])))
    decreases n
  {
    if n == 0 {
      PerformOne(width, s, LoadAfter, []);
      assert s.slots[k].fields[..width] == s.slots[k].fields;
    } else {
      var t := Step(width, s, LoadField).value;
      PerformOne(width, s, LoadField, Loads(n - 1));
      var fields := s.slots[k].fields;
      assert fields[..width - n] + [fields[width - n]] == fields[..width - (n - 1)];
      LoadsTheSlot(width, t, k, n - 1);
    }
  }

  /** A snapshot with no store between its loads is the slot as it stands. */
  lemma UninterruptedSnapshot(width: nat, s: State, k: nat)
    requires Shaped(width, s) && k < CAPACITY && !s.reader.Reading?
    ensures Perform(width, s, [LoadBefore(k)] + Loads(width)) == Some(s.(reader := Returned(k, s.slots[k])))
  {
    PerformOne(width, s, LoadBefore(k), Loads(width));
    assert s.slots[k].fields[..0] == [];
    LoadsTheSlot(width, Step(width, s, LoadBefore(k)).value, k, width);
  }

  /** In every run, with no writer active, it shows each of the last sixteen events under its number. */
  lemma QuietSnapshotShowsEvent(width: nat, states: seq<State>, actions: seq<Action>, i: nat, n: nat)
    requires IsRun(width, states, actions) && i < |states| && Quiet(states[i]) && !states[i].reader.Reading?
    requires 0 < n <= |states[i].events| < n + CAPACITY
    ensures var s := states[i];
            Perform(width, s, [LoadBefore(SlotOf(n))] + Loads(width)) ==
            Some(s.(reader := Returned(SlotOf(n), Slot(n, s.events[n - 1]))))
  {
    RunKeepsInv(width, states, actions, i);
    QuietRingHoldsLastEvents(width, states, actions, i, n);
    UninterruptedSnapshot(width, states[i], SlotOf(n));
  }

  function Stores(k: nat, n: nat): seq<Action> {
    if n == 0 then [] else [Store(k)] + Stores(k, n - 1)
  }

  /** The rest of a write, n stores from its end. */
  lemma {:induction false} StoresTheEvent(width: nat, s: State, k: nat, n: nat, event: seq<nat>)
    requires Shaped(width, s) && k < CAPACITY && 0 < n <= width + 1 && |event| == width
    requires s.writers[k].Writing? && s.writers[k].stores == width + 2 - n && s.slots[k].sequence == 0
    requires event == s.events[s.writers[k].number - 1]
    requires s.slots[k].fields[..width + 1 - n] == event[..width + 1 - n]
    ensures Perform(width, s, Stores(k, n)) ==
            Some(s.(slots := s.slots[k := Slot(s.writers[k].number, event)], writers := s.writers[k := Idle]))
    decreases n
  {
    var t := Step(width, s, Store(k)).value;
    PerformOne(width, s, Store(k), Stores(k, n - 1));
    if n == 1 {
      assert s.slots[k].fields[..width] == s.slots[k].fields && event[..width] == event;
    } else {
      var at := width + 1 - n;
      OneMoreField(s.slots[k].fields, event, at);
      StoresTheEvent(width, t, k, n - 1, event);
      assert t.slots[k := Slot(s.writers[k].number, event)] == s.slots[k := Slot(s.writers[k].number, event)];
      assert t.writers[k := Idle] == s.writers[k := Idle];
    }
  }

  lemma OneMoreField(fields: seq<nat>, event: seq<nat>, at: nat)
    requires at < |fields| == |event| && fields[..at] == event[..at]
    ensures fields[at := event[at]][..at + 1] == event[..at + 1]
  {
    assert fields[at := event[at]][..at] == fields[..at];
  }

  /** A writer that gets a slot for itself leaves its event there, under the next number. */
  lemma UninterruptedWrite(width: nat, s: State, event: seq<nat>)
    requires Shaped(width, s) && |event| == width && |s.events| + 1 < SEQUENCE_LIMIT
    requires s.writers[SlotOf(|s.events| + 1)].Idle?
    ensures var number, k := |s.events| + 1, SlotOf(|s.events| + 1);
            Perform(width, s, [Begin(event)] + Stores(k, width + 2)) ==
            Some(s.(events := s.events + [event], slots := s.slots[k := Slot(number, event)]))
  {
    var k := SlotOf(|s.events| + 1);
    var t := Step(width, s, Begin(event)).value;
    var u := Step(width, t, Store(k)).value;
    PerformOne(width, s, Begin(event), Stores(k, width + 2));
    PerformOne(width, t, Store(k), Stores(k, width + 1));
    StoresTheEvent(width, u, k, width + 1, event);
    assert u.writers[k := Idle] == s.writers;
    assert u.slots[k := Slot(|s.events| + 1, event)] == s.slots[k := Slot(|s.events| + 1, event)];
  }
}
