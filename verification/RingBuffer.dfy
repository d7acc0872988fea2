/** A circular buffer read as a sequence. */
module RingBuffer {
  import opened Arithmetic

  /** The `count` entries from `head` on, wrapping at the end. */
  ghost function Ring<T>(slots: seq<T>, head: nat, count: nat): (queue: seq<T>)
    requires head <= |slots| && count <= |slots|
    ensures |queue| == count
  {
    (slots[head..] + slots[..head])[..count]
  }

  lemma WrapOnce(i: nat, n: nat)
    requires i < 2 * n
    ensures i % n == if i < n then i else i - n
  {
    QuotientRemainder(i, n, if i < n then 0 else 1, if i < n then i else i - n);
  }

  /** Writing behind the last entry appends. */
  lemma RingAppend<T>(slots: seq<T>, head: nat, count: nat, x: T)
    requires head < |slots| && count < |slots|
    ensures Ring(slots[(head + count) % |slots| := x], head, count + 1) == Ring(slots, head, count) + [x]
  {
    WrapOnce(head + count, |slots|);
  }

  /** Moving the head on drops the oldest entry. */
  lemma RingTake<T>(slots: seq<T>, head: nat, count: nat)
    requires head < |slots| && 0 < count <= |slots|
    ensures Ring(slots, head, count)[0] == slots[head]
    ensures Ring(slots, (head + 1) % |slots|, count - 1) == Ring(slots, head, count)[1..]
  {
    WrapOnce(head + 1, |slots|);
    var order := slots[head..] + slots[..head];
    assert order[0] == slots[head];
    if head + 1 < |slots| {
      assert slots[head + 1..] + slots[..head + 1] == order[1..] + [slots[head]];
    } else {
      assert slots[0..] + slots[..0] == order[1..] + [slots[head]];
    }
  }
}
