/**
The memory pool: one queue of free blocks per node and three counters. Frees on
a node the pool does not know are counted as available although the block is
gone; the ghost field `lost` counts them, and the shrink loop terminates for
every request exactly while there are none.
 */
module MemoryPools {
  import opened Basics
  import opened Field
  import opened LinearAlgebra

  type Block = seq<Byte>

  function Total(pools: seq<seq<Block>>): nat {
    if |pools| == 0 then 0 else Total(pools[..|pools| - 1]) + |pools[|pools| - 1]|
  }

  /** Every queued block is all zero and of the pool's block size. */
  ghost predicate AllZero(pools: seq<seq<Block>>, blockSize: nat) {
    forall n, i :: 0 <= n < |pools| && 0 <= i < |pools[n]| ==> pools[n][i] == Zeros(blockSize)
  }

  lemma {:induction false} TotalUpdate(pools: seq<seq<Block>>, n: nat, q: seq<Block>)
    requires n < |pools|
    ensures Total(pools[n := q]) == Total(pools) - |pools[n]| + |q|
    decreases |pools|
  {
    var m := |pools| - 1;
    var after := pools[n := q];
    if n == m {
      assert after[..m] == pools[..m];
    } else {
      assert after[..m] == pools[..m][n := q];
      TotalUpdate(pools[..m], n, q);
    }
  }

  lemma {:induction false} TotalZero(pools: seq<seq<Block>>)
    ensures Total(pools) == 0 <==> forall n :: 0 <= n < |pools| ==> pools[n] == []
    decreases |pools|
  {
    if |pools| > 0 {
      TotalZero(pools[..|pools| - 1]);
    }
  }

  lemma {:induction false} TotalAppend(pools: seq<seq<Block>>, q: seq<Block>)
    ensures Total(pools + [q]) == Total(pools) + |q|
  {
    assert (pools + [q])[..|pools|] == pools;
  }

  /** Node `n`'s share of the initial capacity. */
  function Share(capacity: nat, nodes: nat, n: nat): nat
    requires nodes > 0
  {
    capacity / nodes + if n < capacity % nodes then 1 else 0
  }

  /** Full rounds and a started one: every node has its share of all blocks dealt so far. */
  lemma ShareOfRounds(rounds: nat, nodes: nat, more: nat, n: nat)
    requires more <= nodes && n < nodes
    ensures Share(rounds * nodes + more, nodes, n) == rounds + if n < more then 1 else 0
  {
    var dealt := rounds * nodes + more;
    if more == nodes {
      QuotientOf(dealt, nodes, rounds + 1, 0);
    } else {
      QuotientOf(dealt, nodes, rounds, more);
    }
  }

  function Shares(capacity: nat, nodes: nat, n: nat): nat
    requires nodes > 0
  {
    if n == 0 then 0 else Shares(capacity, nodes, n - 1) + Share(capacity, nodes, n - 1)
  }

  lemma {:induction false} SharesSum(capacity: nat, nodes: nat, n: nat)
    requires n <= nodes && nodes > 0
    ensures Shares(capacity, nodes, n) == n * (capacity / nodes) + if n < capacity % nodes then n else capacity % nodes
  {
    if n > 0 {
      SharesSum(capacity, nodes, n - 1);
      assert n * (capacity / nodes) == (n - 1) * (capacity / nodes) + capacity / nodes;
    }
  }

  /** The shares of all nodes add up to the capacity. */
  lemma SharesComplete(capacity: nat, nodes: nat)
    requires nodes > 0
    ensures Shares(capacity, nodes, nodes) == capacity
  {
    SharesSum(capacity, nodes, nodes);
    assert capacity == nodes * (capacity / nodes) + capacity % nodes;
  }

  class MemoryPool {
    var pools: seq<seq<Block>>
    const blockSize: nat
    var capacity: nat
    var inUse: nat
    var available: nat
    ghost var lost: nat

    ghost predicate Valid()
      reads this
    {
      && |pools| > 0
      && AllZero(pools, blockSize)
      && available == Total(pools) + lost
      && available <= capacity <= inUse + available
    }

    constructor (capacity: nat, blockSize: nat, nodes: nat)
      requires nodes > 0
      ensures Valid() && lost == 0 && inUse == 0
      ensures this.capacity == capacity == available && this.blockSize == blockSize && |pools| == nodes
      ensures forall n :: 0 <= n < nodes ==> |pools[n]| == Share(capacity, nodes, n)
    {
      var queues: seq<seq<Block>> := [];
      for n := 0 to nodes
        invariant |queues| == n && AllZero(queues, blockSize)
        invariant Total(queues) == Shares(capacity, nodes, n)
        invariant forall m :: 0 <= m < n ==> |queues[m]| == Share(capacity, nodes, m)
      {
        var q: seq<Block> := [];
        for i := 0 to Share(capacity, nodes, n)
          invariant |q| == i && forall j :: 0 <= j < i ==> q[j] == Zeros(blockSize)
        {
          q := q + [Zeros(blockSize)];
        }
        TotalAppend(queues, q);
        queues := queues + [q];
      }
      SharesComplete(capacity, nodes);
      this.pools := queues;
      this.blockSize := blockSize;
      this.capacity := capacity;
      this.inUse := 0;
      this.available := capacity;
      this.lost := 0;
    }

    /** One pass over the nodes, adding a zero block to each until the capacity is reached. */
    method GrowPass(newCapacity: nat)
      requires Valid() && capacity < newCapacity
      modifies this`pools, this`available, this`capacity
      ensures Valid() && |pools| == old(|pools|)
      ensures old(capacity) < capacity <= newCapacity
      ensures available - old(available) == capacity - old(capacity)
      ensures capacity - old(capacity) <= |pools| && (capacity < newCapacity ==> capacity - old(capacity) == |pools|)
      ensures forall m :: 0 <= m < |pools| ==>
        |pools[m]| == |old(pools)[m]| + if m < capacity - old(capacity) then 1 else 0
    {
      for n := 0 to |pools|
        invariant Valid() && |pools| == old(|pools|)
        invariant old(capacity) <= capacity <= newCapacity && (n > 0 ==> old(capacity) < capacity)
        invariant available - old(available) == capacity - old(capacity) == n
        invariant forall m :: 0 <= m < |pools| ==> |pools[m]| == |old(pools)[m]| + if m < n then 1 else 0
      {
        if capacity >= newCapacity {
          break;
        }
        TotalUpdate(pools, n, pools[n] + [Zeros(blockSize)]);
        pools := pools[n := pools[n] + [Zeros(blockSize)]];
        available := available + 1;
        capacity := capacity + 1;
      }
    }

    /** Adds zero blocks, spread evenly over the nodes, until the pool has the capacity asked for. */
    method Grow(newCapacity: nat)
      requires Valid()
      modifies this`pools, this`available, this`capacity
      ensures Valid() && |pools| == old(|pools|)
      ensures capacity == if newCapacity > old(capacity) then newCapacity else old(capacity)
      ensures available - old(available) == capacity - old(capacity)
      ensures forall n :: 0 <= n < |pools| ==>
        |pools[n]| == |old(pools)[n]| + Share(capacity - old(capacity), |pools|, n)
    {
      hide Share;
      var nodes := |pools|;
      ghost var rounds: nat := 0;
      forall n | 0 <= n < nodes
        ensures Share(0, nodes, n) == 0
      {
        ShareOfRounds(0, nodes, 0, n);
      }
      while capacity < newCapacity
        invariant Valid() && |pools| == nodes
        invariant old(capacity) <= capacity && (capacity > old(capacity) ==> capacity <= newCapacity)
        invariant available - old(available) == capacity - old(capacity)
        invariant capacity < newCapacity ==> capacity - old(capacity) == rounds * nodes
        invariant forall n :: 0 <= n < nodes ==> |pools[n]| == |old(pools)[n]| + Share(capacity - old(capacity), nodes, n)
      {
        ghost var before, start := pools, capacity;
        GrowPass(newCapacity);
        forall n | 0 <= n < nodes
          ensures |pools[n]| == |old(pools)[n]| + Share(capacity - old(capacity), nodes, n)
        {
          ShareOfRounds(rounds, nodes, 0, n);
          ShareOfRounds(rounds, nodes, capacity - start, n);
        }
        rounds := rounds + 1;
      }
    }

    /** The reported fragmentation: capacity neither in use nor available. */
    method Fragmentation() returns (frag: nat)
      requires Valid()
      ensures frag == 0
    {
      frag := if capacity < inUse + available then 0 else capacity - (inUse + available);
    }

    /** Takes a block from the node's queue, or makes a new one and doubles the capacity. */
    method Alloc(node: nat) returns (block: Block)
      requires Valid()
      modifies this`pools, this`available, this`capacity, this`inUse
      ensures Valid() && |pools| == old(|pools|)
      ensures block == Zeros(blockSize)
      ensures inUse == old(inUse) + 1
      ensures if node < old(|pools|) && old(pools)[node] != []
              then capacity == old(capacity) && available == old(available) - 1
                   && pools == old(pools)[node := old(pools)[node][1..]]
              else capacity == 2 * old(capacity) && available == old(available) + old(capacity)
                   && forall n :: 0 <= n < |pools| ==> |pools[n]| == |old(pools)[n]| + Share(old(capacity), |pools|, n)
    {
      if node < |pools| {
        if pools[node] != [] {
          block := pools[node][0];
          TotalUpdate(pools, node, pools[node][1..]);
          pools := pools[node := pools[node][1..]];
          available := available - 1;
          inUse := inUse + 1;
          return;
        }
      }
      Grow(capacity * 2);
      inUse := inUse + 1;
      block := Zeros(blockSize);
    }

    /** Returns a block: zeroed, and kept while there is room. */
    method Free(block: Block, node: nat)
      requires Valid() && |block| == blockSize && inUse > 0
      modifies this`pools, this`available, this`inUse, this`lost
      ensures Valid() && |pools| == old(|pools|)
      ensures inUse == old(inUse) - 1
      ensures available == old(available) + if old(available) < capacity then 1 else 0
      ensures pools == if old(available) < capacity && node < old(|pools|)
                       then old(pools)[node := old(pools)[node] + [Zeros(blockSize)]] else old(pools)
      ensures lost == old(lost) + if old(available) < capacity && node >= old(|pools|) then 1 else 0
    {
      var zeroed := block;
      for i := 0 to |zeroed|
        invariant |zeroed| == blockSize && forall j :: 0 <= j < i ==> zeroed[j] == 0
      {
        zeroed := zeroed[i := 0];
      }
      assert zeroed == Zeros(blockSize);
      if available < capacity {
        if node < |pools| {
          TotalUpdate(pools, node, pools[node] + [zeroed]);
          pools := pools[node := pools[node] + [zeroed]];
        } else {
          lost := lost + 1;
        }
        available := available + 1;
      }
      inUse := inUse - 1;
    }

    /** One pass of the shrink loop over the nodes. */
    method ShrinkPass(diff: nat) returns (left: nat)
      requires Valid() && diff <= capacity
      modifies this`pools, this`available, this`capacity
      ensures Valid() && (pools, left) == Pass(old(pools), diff, 0)
      ensures left <= diff && capacity == old(capacity) - (diff - left)
      ensures available == old(available) - (diff - left)
    {
      left := diff;
      ghost var before := pools;
      for n := 0 to |pools|
        invariant Valid() && |pools| == |before|
        invariant left <= diff && capacity == old(capacity) - (diff - left)
        invariant available == old(available) - (diff - left)
        invariant Pass(pools, left, n) == Pass(before, diff, 0)
      {
        if left == 0 {
          break;
        }
        if pools[n] != [] {
          TotalUpdate(pools, n, pools[n][1..]);
          pools := pools[n := pools[n][1..]];
          available := available - 1;
          capacity := capacity - 1;
          left := left - 1;
        }
      }
    }

    /** Grows to the capacity, or drops queued blocks down to it as far as there are any. */
    method SetCapacity(newCapacity: nat)
      requires Valid() && ShrinkTerminates(Total(pools), available, capacity, newCapacity)
      modifies this`pools, this`available, this`capacity
      ensures Valid() && |pools| == old(|pools|)
      ensures newCapacity >= old(capacity) ==> capacity == newCapacity
      ensures newCapacity < old(capacity) ==>
        capacity == if newCapacity > old(capacity - Total(pools)) then newCapacity else old(capacity - Total(pools))
      ensures available - old(available) == capacity - old(capacity)
    {
      var current := capacity;
      if newCapacity > current {
        Grow(newCapacity);
        return;
      }
      var diff := current - newCapacity;
      while diff > 0 && available > 0
        invariant Valid() && |pools| == old(|pools|) && lost == old(lost)
        invariant newCapacity <= capacity == newCapacity + diff
        invariant Total(pools) == old(Total(pools)) - (current - capacity)
        invariant ShrinkTerminates(Total(pools), available, capacity, newCapacity)
        decreases diff
      {
        PassProgress(pools, diff);
        diff := ShrinkPass(diff);
        if diff == 0 {
          break;
        }
      }
    }
  }

  /** The shrink loop can reach its target, or the counter runs out together with the queues. */
  predicate ShrinkTerminates(queued: nat, available: nat, capacity: nat, newCapacity: nat) {
    capacity - newCapacity <= queued || available == queued
  }

  /** One pass over the queues as a function: what is left to drop, and the queues. */
  function Pass(pools: seq<seq<Block>>, diff: nat, n: nat): (seq<seq<Block>>, nat)
    requires n <= |pools|
    decreases |pools| - n
  {
    if n == |pools| || diff == 0 then (pools, diff)
    else if pools[n] == [] then Pass(pools, diff, n + 1)
    else Pass(pools[n := pools[n][1..]], diff - 1, n + 1)
  }

  lemma {:induction false} PassFacts(pools: seq<seq<Block>>, diff: nat, n: nat)
    requires n <= |pools|
    ensures
      var (after, left) := Pass(pools, diff, n);
      && |after| == |pools| && left <= diff
      && Total(after) == Total(pools) - (diff - left)
      && (left == diff ==> after == pools && (diff == 0 || forall m :: n <= m < |pools| ==> pools[m] == []))
    decreases |pools| - n
  {
    if n < |pools| && diff > 0 {
      if pools[n] == [] {
        PassFacts(pools, diff, n + 1);
      } else {
        TotalUpdate(pools, n, pools[n][1..]);
        PassFacts(pools[n := pools[n][1..]], diff - 1, n + 1);
      }
    }
  }

  /** How many of the nodes from `n` up to, but not including, `m` have a queued block. */
  function Stocked(pools: seq<seq<Block>>, n: nat, m: nat): nat
    requires n <= m <= |pools|
  {
    if m == n then 0 else Stocked(pools, n, m - 1) + if pools[m - 1] != [] then 1 else 0
  }

  lemma {:induction false} StockedStep(pools: seq<seq<Block>>, pools': seq<seq<Block>>, n: nat, m: nat)
    requires n < m <= |pools| == |pools'| && forall q :: n < q < |pools| ==> pools'[q] == pools[q]
    ensures Stocked(pools, n, m) == (if pools[n] != [] then 1 else 0) + Stocked(pools', n + 1, m)
    decreases m
  {
    if m > n + 1 {
      StockedStep(pools, pools', n, m - 1);
    }
  }

  /** A pass takes the oldest block of each stocked node in order, as long as there is something left to drop. */
  lemma {:induction false} PassTakes(pools: seq<seq<Block>>, diff: nat, n: nat, m: nat)
    requires n <= |pools| && m < |pools|
    ensures
      var after := Pass(pools, diff, n).0;
      && |after| == |pools|
      && after[m] == if n <= m && pools[m] != [] && Stocked(pools, n, m) < diff then pools[m][1..] else pools[m]
    decreases |pools| - n
  {
    if n < |pools| && diff > 0 {
      if pools[n] == [] {
        PassTakes(pools, diff, n + 1, m);
        if n < m {
          StockedStep(pools, pools, n, m);
        }
      } else {
        var pools' := pools[n := pools[n][1..]];
        PassTakes(pools', diff - 1, n + 1, m);
        if n < m {
          StockedStep(pools, pools', n, m);
        }
      }
    }
  }

  /** A pass makes progress exactly when there is something to drop and something to drop it from. */
  lemma PassProgress(pools: seq<seq<Block>>, diff: nat)
    ensures
      var (after, left) := Pass(pools, diff, 0);
      && |after| == |pools| && left <= diff
      && Total(after) == Total(pools) - (diff - left)
      && (left < diff <==> diff > 0 && Total(pools) > 0)
  {
    PassFacts(pools, diff, 0);
    TotalZero(pools);
  }

  /** The queues and the remaining excess after `passes` passes of the shrink loop. */
  function Passes(pools: seq<seq<Block>>, diff: nat, passes: nat): (seq<seq<Block>>, nat)
    decreases passes
  {
    if passes == 0 then (pools, diff) else
      var (p, d) := Pass(pools, diff, 0);
      Passes(p, d, passes - 1)
  }

  /** The loop guard is false after `passes` passes; each dropped block lowers `available` by one. */
  ghost predicate Halted(pools: seq<seq<Block>>, available: nat, diff: nat, passes: nat) {
    var left := Passes(pools, diff, passes).1;
    left == 0 || available - (diff - left) <= 0
  }

  ghost predicate EverHalts(pools: seq<seq<Block>>, available: nat, diff: nat) {
    exists passes :: Halted(pools, available, diff, passes)
  }

  lemma {:induction false} Halts(pools: seq<seq<Block>>, available: nat, diff: nat) returns (passes: nat)
    requires Total(pools) <= available && (diff <= Total(pools) || available == Total(pools))
    ensures Halted(pools, available, diff, passes)
    decreases diff
  {
    if diff == 0 || available == 0 {
      passes := 0;
    } else {
      PassProgress(pools, diff);
      var (p, d) := Pass(pools, diff, 0);
      var more := Halts(p, available - (diff - d), d);
      passes := more + 1;
    }
  }

  lemma {:induction false} NeverHalts(pools: seq<seq<Block>>, available: nat, diff: nat, passes: nat)
    requires Total(pools) < diff && Total(pools) < available
    ensures !Halted(pools, available, diff, passes)
    decreases passes
  {
    if passes > 0 {
      PassProgress(pools, diff);
      var (p, d) := Pass(pools, diff, 0);
      NeverHalts(p, available - (diff - d), d, passes - 1);
    }
  }

  /**
  The shrink loop ends exactly when the queues hold the excess or the counter
  of available blocks is right; a counter left too high by a free on an unknown
  node can make it spin forever.
   */
  lemma ShrinkHaltsIff(pools: seq<seq<Block>>, available: nat, capacity: nat, newCapacity: nat)
    requires Total(pools) <= available && newCapacity <= capacity
    ensures EverHalts(pools, available, capacity - newCapacity)
       <==> ShrinkTerminates(Total(pools), available, capacity, newCapacity)
  {
    var diff := capacity - newCapacity;
    if ShrinkTerminates(Total(pools), available, capacity, newCapacity) {
      var passes := Halts(pools, available, diff);
    } else {
      forall passes
        ensures !Halted(pools, available, diff, passes)
      {
        NeverHalts(pools, available, diff, passes);
      }
    }
  }

  /**
  One block, handed out and given back on a node the pool does not know: the
  counter says one block is available while no queue holds any, and shrinking
  to nothing never ends.
   */
  method SpinAfterUnknownNode() returns (pool: MemoryPool)
    ensures pool.Valid() && pool.capacity == 1 && pool.available == 1 && Total(pool.pools) == 0
    ensures !EverHalts(pool.pools, pool.available, pool.capacity)
  {
    pool := new MemoryPool(1, 4, 1);
    var block := pool.Alloc(0);
    pool.Free(block, 7);
    ShrinkHaltsIff(pool.pools, pool.available, pool.capacity, 0);
  }
}
