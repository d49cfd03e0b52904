/** The pool the records come from: a chain of ever longer chunks, never reused and drained once. */
module KvPool {
  const POOL_STARTING_LENGTH: nat := 0
  const POOL_INCREMENT_LENGTH: nat := 4

  class PoolChunk<T(0)> {
    const pool: array<T>
    const length: nat
    var next: PoolChunk?<T>

    constructor (length: nat)
      ensures next == null && this.length == length && pool.Length == length && fresh(pool)
    {
      next := null;
      pool := new T[length];
      this.length := length;
    }
  }

  /** The number of slots in the chunks before chunk k. */
  function SlotsBefore(k: nat): nat
  {
    if k == 0 then 0 else SlotsBefore(k - 1) + ChunkLength(k - 1)
  }

  function ChunkLength(k: nat): nat
  {
    POOL_STARTING_LENGTH + k * POOL_INCREMENT_LENGTH
  }

  /** A slot's number in the order of the chain. */
  function SlotNumber(k: nat, position: nat): nat
  {
    SlotsBefore(k) + position
  }

  lemma {:induction false} SlotsGrow(k: nat, j: nat)
    requires k < j
    ensures SlotsBefore(k) + ChunkLength(k) <= SlotsBefore(j)
    decreases j
  {
    if k + 1 < j {
      SlotsGrow(k, j - 1);
    }
  }

  /** Different slots have different numbers. */
  lemma SlotNumberInjective(k: nat, p: nat, j: nat, q: nat)
    requires p < ChunkLength(k) && q < ChunkLength(j) && SlotNumber(k, p) == SlotNumber(j, q)
    ensures k == j && p == q
  {
    if k < j {
      SlotsGrow(k, j);
    } else if j < k {
      SlotsGrow(j, k);
    }
  }

  class KeyValuePool<T(0)> {
    var position: nat
    var firstPool: PoolChunk?<T>
    var currentPool: PoolChunk?<T>
    /** The chain from firstPool to currentPool. */
    ghost var chunks: seq<PoolChunk<T>>

    ghost predicate Valid()
      reads this, chunks
    {
      && chunks != [] && firstPool == chunks[0] && currentPool == chunks[|chunks| - 1]
      && currentPool.next == null && position <= currentPool.length
      && (forall k | 0 <= k < |chunks| :: chunks[k].length == ChunkLength(k) && chunks[k].pool.Length == ChunkLength(k))
      && (forall k | 0 <= k < |chunks| - 1 :: chunks[k].next == chunks[k + 1])
      && (forall k, j | 0 <= k < j < |chunks| :: chunks[k] != chunks[j] && chunks[k].pool != chunks[j].pool)
    }

    /** The slots handed out so far are those with a smaller number. */
    ghost function Created(): nat
      requires Valid()
      reads this, chunks
    {
      SlotNumber(|chunks| - 1, position)
    }

    constructor ()
      ensures Valid() && fresh(chunks) && Created() == 0
    {
      position := 0;
      var first := new PoolChunk(POOL_STARTING_LENGTH);
      firstPool, currentPool := first, first;
      chunks := [first];
    }

    /** The slot handed out is the one numbered next, and stays where it is: no chunk is ever moved. */
    method Create() returns (pool: array<T>, i: nat)
      requires Valid()
      modifies this, currentPool
      ensures Valid() && Created() == old(Created()) + 1 && currentPool != null
      ensures old(chunks) <= chunks && fresh(chunks[|old(chunks)|..])
      ensures pool == chunks[|chunks| - 1].pool && i < pool.Length
      ensures SlotNumber(|chunks| - 1, i) == old(Created())
    {
      ghost var before := chunks;
      if position >= currentPool.length {
        position := 0;
        var newLength := currentPool.length + POOL_INCREMENT_LENGTH;
        var chunk := new PoolChunk(newLength);
        currentPool.next := chunk;
        currentPool := chunk;
        chunks := chunks + [chunk];
        assert chunks[|before|..] == [chunk];
      }
      pool, i := currentPool.pool, position;
      position := position + 1;
    }

    /** Visits every chunk of the chain once, and forgets them. */
    method Drain() returns (ghost freed: seq<PoolChunk<T>>)
      requires Valid()
      modifies this
      ensures freed == old(chunks) && firstPool == null && currentPool == null
    {
      var nextPool := firstPool;
      freed := [];
      while nextPool != null
        invariant |freed| <= |chunks| && freed == chunks[..|freed|] && chunks == old(chunks) && Valid()
        invariant nextPool == if |freed| < |chunks| then chunks[|freed|] else null
        decreases |chunks| - |freed|
      {
        freed := freed + [nextPool];
        nextPool := nextPool.next;
      }
      firstPool, currentPool := null, null;
    }
  }
}
