/** The runtime state of the Wi-Fi framework (chips/ws63/rf/src/frw.rs): a pool of sixteen message
    nodes and a circular FIFO of node pointers. Each method is one critical section. */
module Frw {
  import opened FrwQueue
  import opened RingBuffer
  import opened Words

  const NODE_SIZE: nat := 40

  /** `bits` packs pool_used in bit 3 and pool_idx above; `rest` stands for the other fields, 0 when zeroed. */
  datatype FrwMsgNode = FrwMsgNode(bits: Byte, rest: nat)

  /** The packed byte `0x08 | (i & 0x0f) << 4`. */
  method NodeBits(i: nat) returns (bits: Byte)
    requires i < POOL_LEN
    ensures bits == 0x08 + 16 * i
  {
    assert Pow2(4) == 16;
    MaskKeeps(i, 0x0F, 4, 8);
    NibbleOr(i, 4, 8);
    bits := OrBits(0x08, AndBits(i, 0x0F, 8) * 16, 8);
  }

  lemma NibbleOr(i: nat, j: nat, n: nat)
    requires i < 16 == Pow2(j) && n == 2 * j
    ensures OrBits(0x08, i * 16, n) == 0x08 + 16 * i
  {
    OrIsSum(0x08, i, j, n - j);
  }

  /** Bit 3 says that the node is used, the high nibble which one it is. */
  predicate CarriesIndex(node: FrwMsgNode, i: nat) { node.bits % 16 == 0x08 && node.bits / 16 == i }

  class FrwState {
    const base: nat // the address of pool[0]
    const pool: array<FrwMsgNode>
    const poolUsed: array<bool>
    const fifo: array<nat>
    var fifoHead: nat
    var fifoCount: nat

    ghost predicate Valid()
      reads this, pool, poolUsed
    {
      && base > 0
      && pool.Length == poolUsed.Length == POOL_LEN
      && fifo.Length == FIFO_LEN
      && fifoHead < FIFO_LEN
      && fifoCount <= FIFO_LEN
      && forall i :: 0 <= i < POOL_LEN && poolUsed[i] ==> CarriesIndex(pool[i], i)
    }

    /** The queued node pointers, oldest first. */
    ghost function Contents(): (queue: seq<nat>)
      requires Valid()
      reads this, pool, poolUsed, fifo
      ensures |queue| == fifoCount
    {
      Ring(fifo[..], fifoHead, fifoCount)
    }

    /** The slots handed out and not returned. */
    ghost function Live(): set<nat>
      reads poolUsed
    {
      Used(poolUsed[..])
    }

    function NodeAddress(i: nat): nat { base + NODE_SIZE * i }

    constructor (base: nat)
      requires base > 0
      ensures Valid() && this.base == base && Contents() == [] && Live() == {}
      ensures fresh(pool) && fresh(poolUsed) && fresh(fifo)
    {
      this.base := base;
      pool := new FrwMsgNode[POOL_LEN](i => FrwMsgNode(0, 0));
      poolUsed := new bool[POOL_LEN](i => false);
      fifo := new nat[FIFO_LEN](i => 0);
      fifoHead, fifoCount := 0, 0;
    }

    /** `local_fetch_msg_node`: a zeroed node from the lowest free slot, null when all are used. */
    method FetchMsgNode() returns (node: nat)
      requires Valid()
      modifies pool, poolUsed
      ensures Valid() && Contents() == old(Contents())
      ensures var slot := FirstFree(old(Live()), 0);
              if slot == POOL_LEN then node == 0 && Live() == old(Live()) && pool[..] == old(pool[..])
              else && node == NodeAddress(slot)
                   && Live() == old(Live()) + {slot}
                   && pool[..] == old(pool[..])[slot := FrwMsgNode(0x08 + 16 * slot, 0)]
    {
      for i := 0 to POOL_LEN
        invariant FirstFree(Live(), 0) == FirstFree(Live(), i)
      {
        if !poolUsed[i] {
          var bits := NodeBits(i);
          TakeSlot(i, bits);
          return NodeAddress(i);
        }
      }
      return 0;
    }

    method TakeSlot(i: nat, bits: Byte)
      requires Valid() && i < POOL_LEN && bits == 0x08 + 16 * i
      modifies pool, poolUsed
      ensures Valid() && Live() == old(Live()) + {i}
      ensures pool[..] == old(pool[..])[i := FrwMsgNode(0x08 + 16 * i, 0)]
    {
      poolUsed[i] := true;
      pool[i] := FrwMsgNode(bits, 0);
      assert CarriesIndex(pool[i], i);
    }

    /** `local_free_msg_node`: a pointer that is not a node start changes nothing. */
    method FreeMsgNode(node: nat)
      requires Valid()
      modifies poolUsed
      ensures Valid() && Contents() == old(Contents())
      ensures Live() == set i | i in old(Live()) && NodeAddress(i) != node
    {
      NodeStarts(node);
      if node == 0 || node < base {
        return;
      }
      var idx := (node - base) / NODE_SIZE;
      if idx < POOL_LEN && (node - base) % NODE_SIZE == 0 {
        poolUsed[idx] := false;
      }
    }

    lemma NodeStarts(node: nat)
      ensures forall i: nat :: NodeAddress(i) == node <==>
                node >= base && (node - base) % NODE_SIZE == 0 && i == (node - base) / NODE_SIZE
    {
      forall i: nat
        ensures NodeAddress(i) == node <==>
                  node >= base && (node - base) % NODE_SIZE == 0 && i == (node - base) / NODE_SIZE
      {
        if NodeAddress(i) == node {
          assert node - base == NODE_SIZE * i;
        }
      }
    }

    /** The critical section of `post`. */
    method Enqueue(node: nat) returns (ok: bool)
      requires Valid()
      modifies `fifoCount, fifo
      ensures Valid() && Live() == old(Live())
      ensures ok <==> |old(Contents())| < FIFO_LEN
      ensures Contents() == if ok then old(Contents()) + [node] else old(Contents())
      ensures (ok, Contents()) == FrwQueue.Enqueue(old(Contents()), node)
    {
      if fifoCount >= FIFO_LEN {
        return false;
      }
      RingAppend(fifo[..], fifoHead, fifoCount, node);
      var tail := (fifoHead + fifoCount) % FIFO_LEN;
      ghost var before := fifo[..];
      fifo[tail] := node;
      assert fifo[..] == before[tail := node];
      fifoCount := fifoCount + 1;
      return true;
    }

    /** `fifo_pop`: the oldest node, null when there is none. */
    method FifoPop() returns (node: nat)
      requires Valid()
      modifies `fifoHead, `fifoCount
      ensures Valid() && Live() == old(Live())
      ensures if old(Contents()) == [] then node == 0 && Contents() == []
              else [node] + Contents() == old(Contents())
    {
      if fifoCount == 0 {
        return 0;
      }
      RingTake(fifo[..], fifoHead, fifoCount);
      node := fifo[fifoHead];
      fifoHead := (fifoHead + 1) % FIFO_LEN;
      fifoCount := fifoCount - 1;
    }
  }
}
