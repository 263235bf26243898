/**
The sharded buffer pool as a machine of interleaved atomic steps. A thread that
gets or drops a buffer goes through several steps, and the steps of different
threads may interleave in any order. The counter of a shard is therefore not
always the length of its queue; the invariant says what it is.
 */
module BufferPool {
  import opened Field

  /** A buffer: which one it is, what it holds, and its capacity. */
  datatype Buffer = Buffer(id: nat, content: seq<Byte>, capacity: nat)

  datatype Shard = Shard(queue: seq<Buffer>, elemCnt: int, trim: nat, max: nat)

  /** Where a thread stands in a get or a drop. */
  datatype Stage =
    | Getting(shard: nat)                  // shard chosen, queue not yet popped
    | Popped(shard: nat, buffer: Buffer)   // popped, counter not yet decremented
    | Holding(shard: nat, buffer: Buffer)  // the pooled value is in use
    | Returning(shard: nat, buffer: Buffer) // cleared and trimmed, counter not yet incremented
    | Pushing(shard: nat, buffer: Buffer)  // room was reserved, element not yet pushed
    | RollingBack(shard: nat)              // no room, counter not yet restored

  datatype Pool = Pool(shards: seq<Shard>, nextShard: nat, threads: map<nat, Stage>, nextId: nat)

  datatype Action =
    | StartGet(thread: nat)
    | Pop(thread: nat)
    | Decrement(thread: nat)
    | GetEmpty(thread: nat)
    | FromOwned(thread: nat, content: seq<Byte>, capacity: nat)
    | Use(thread: nat, content: seq<Byte>, capacity: nat)
    | Take(thread: nat)
    | StartDrop(thread: nat)
    | Reserve(thread: nat)
    | Push(thread: nat)
    | Rollback(thread: nat)

  function NewPool(shards: nat, limit: nat, trim: nat): Pool
    requires shards > 0
  {
    Pool(seq(shards, _ => Shard([], 0, trim, limit / shards)), 0, map[], 0)
  }

  /** Clears a buffer and trims its capacity; only a buffer with capacity left is worth keeping. */
  function Reused(b: Buffer, trim: nat): Buffer {
    b.(content := [], capacity := if b.capacity < trim then b.capacity else trim)
  }

  predicate Enabled(p: Pool, a: Action) {
    match a
    case StartGet(t) => t !in p.threads
    case GetEmpty(t) => t !in p.threads
    case FromOwned(t, _, _) => t !in p.threads
    case Pop(t) => t in p.threads && p.threads[t].Getting?
    case Decrement(t) => t in p.threads && p.threads[t].Popped?
    case Use(t, _, _) => t in p.threads && p.threads[t].Holding?
    case Take(t) => t in p.threads && p.threads[t].Holding?
    case StartDrop(t) => t in p.threads && p.threads[t].Holding?
    case Reserve(t) => t in p.threads && p.threads[t].Returning?
    case Push(t) => t in p.threads && p.threads[t].Pushing?
    case Rollback(t) => t in p.threads && p.threads[t].RollingBack?
  }

  ghost predicate InRange(p: Pool) {
    |p.shards| > 0 && forall t :: t in p.threads ==> p.threads[t].shard < |p.shards|
  }

  function SetShard(p: Pool, i: nat, s: Shard): Pool
    requires i < |p.shards|
  {
    p.(shards := p.shards[i := s])
  }

  function SetStage(p: Pool, t: nat, stage: Stage): Pool {
    p.(threads := p.threads[t := stage])
  }

  function Leave(p: Pool, t: nat): Pool {
    p.(threads := p.threads - {t})
  }

  /** One atomic step. */
  function Do(p: Pool, a: Action): Pool
    requires InRange(p) && Enabled(p, a)
  {
    match a
    case StartGet(t) =>
      SetStage(p, t, Getting(p.nextShard % |p.shards|)).(nextShard := p.nextShard + 1)
    case GetEmpty(t) =>
      SetStage(p, t, Holding(p.nextShard % |p.shards|, Buffer(p.nextId, [], 0))).(nextId := p.nextId + 1)
    case FromOwned(t, content, capacity) =>
      SetStage(p, t, Holding(p.nextShard % |p.shards|, Buffer(p.nextId, content, capacity)))
        .(nextShard := p.nextShard + 1, nextId := p.nextId + 1)
    case Pop(t) =>
      var i := p.threads[t].shard;
      var s := p.shards[i];
      if s.queue == [] then
        SetStage(p, t, Holding(i, Buffer(p.nextId, [], 0))).(nextId := p.nextId + 1)
      else SetStage(SetShard(p, i, s.(queue := s.queue[1..])), t, Popped(i, s.queue[0]))
    case Decrement(t) =>
      var Popped(i, b) := p.threads[t];
      SetStage(SetShard(p, i, p.shards[i].(elemCnt := p.shards[i].elemCnt - 1)), t, Holding(i, b))
    case Use(t, content, capacity) =>
      var Holding(i, b) := p.threads[t];
      SetStage(p, t, Holding(i, b.(content := content, capacity := capacity)))
    case Take(t) => Leave(p, t)
    case StartDrop(t) =>
      var Holding(i, b) := p.threads[t];
      var r := Reused(b, p.shards[i].trim);
      if r.capacity > 0 then SetStage(p, t, Returning(i, r)) else Leave(p, t)
    case Reserve(t) =>
      var Returning(i, b) := p.threads[t];
      var s := p.shards[i];
      SetStage(SetShard(p, i, s.(elemCnt := s.elemCnt + 1)), t,
               if s.elemCnt < s.max then Pushing(i, b) else RollingBack(i))
    case Push(t) =>
      var Pushing(i, b) := p.threads[t];
      Leave(SetShard(p, i, p.shards[i].(queue := p.shards[i].queue + [b])), t)
    case Rollback(t) =>
      var i := p.threads[t].shard;
      Leave(SetShard(p, i, p.shards[i].(elemCnt := p.shards[i].elemCnt - 1)), t)
  }

  // ----- The invariant -----

  /** The counter is ahead of the queue by this thread. */
  predicate Ahead(stage: Stage, i: nat) {
    stage.shard == i && (stage.Popped? || stage.Pushing? || stage.RollingBack?)
  }

  predicate Reserved(stage: Stage, i: nat) {
    stage.shard == i && stage.Pushing?
  }

  ghost function AheadOf(threads: map<nat, Stage>, i: nat): set<nat> {
    set t | t in threads && Ahead(threads[t], i)
  }

  ghost function ReservedIn(threads: map<nat, Stage>, i: nat): set<nat> {
    set t | t in threads && Reserved(threads[t], i)
  }

  predicate Clean(b: Buffer, trim: nat) {
    b.content == [] && 0 < b.capacity <= trim
  }

  ghost predicate ShardOk(s: Shard, threads: map<nat, Stage>, i: nat) {
    && s.elemCnt == |s.queue| + |AheadOf(threads, i)|
    && |s.queue| + |ReservedIn(threads, i)| <= s.max
    && forall j :: 0 <= j < |s.queue| ==> Clean(s.queue[j], s.trim)
  }

  ghost predicate StageOk(stage: Stage, shards: seq<Shard>) {
    && stage.shard < |shards|
    && (stage.Popped? || stage.Returning? || stage.Pushing? ==> Clean(stage.buffer, shards[stage.shard].trim))
  }

  ghost predicate Inv(p: Pool) {
    && |p.shards| > 0
    && (forall i :: 0 <= i < |p.shards| ==> ShardOk(p.shards[i], p.threads, i))
    && (forall t :: t in p.threads ==> StageOk(p.threads[t], p.shards))
  }

  lemma NewPoolInv(shards: nat, limit: nat, trim: nat)
    requires shards > 0
    ensures Inv(NewPool(shards, limit, trim))
  {
    var p := NewPool(shards, limit, trim);
    forall i | 0 <= i < shards
      ensures ShardOk(p.shards[i], p.threads, i)
    {
      assert AheadOf(p.threads, i) == {} && ReservedIn(p.threads, i) == {};
    }
  }

  /** Setting one thread's stage changes the sets by at most that thread. */
  lemma StageSets(threads: map<nat, Stage>, t: nat, stage: Stage, i: nat)
    ensures AheadOf(threads[t := stage], i) == AheadOf(threads, i) - {t} + if Ahead(stage, i) then {t} else {}
    ensures ReservedIn(threads[t := stage], i) == ReservedIn(threads, i) - {t} + if Reserved(stage, i) then {t} else {}
  {
  }

  lemma LeaveSets(threads: map<nat, Stage>, t: nat, i: nat)
    ensures AheadOf(threads - {t}, i) == AheadOf(threads, i) - {t}
    ensures ReservedIn(threads - {t}, i) == ReservedIn(threads, i) - {t}
  {
  }

  lemma MemberSets(threads: map<nat, Stage>, t: nat, i: nat)
    ensures t in AheadOf(threads, i) <==> t in threads && Ahead(threads[t], i)
    ensures t in ReservedIn(threads, i) <==> t in threads && Reserved(threads[t], i)
    ensures ReservedIn(threads, i) <= AheadOf(threads, i)
    ensures |ReservedIn(threads, i)| <= |AheadOf(threads, i)|
  {
    var r, a := ReservedIn(threads, i), AheadOf(threads, i);
    assert r <= a;
    assert a == r + (a - r);
    assert |a| == |r| + |a - r|;
  }

  /** A step that changes one thread's stage and, at most, that thread's shard. */
  lemma StageStep(p: Pool, t: nat, stage: Stage, s: Shard, i: nat)
    requires Inv(p) && i < |p.shards| && stage.shard == i && StageOk(stage, p.shards)
    requires t in p.threads ==> p.threads[t].shard == i
    requires s.trim == p.shards[i].trim && ShardOk(s, p.threads[t := stage], i)
    ensures Inv(SetStage(SetShard(p, i, s), t, stage))
  {
    hide ShardOk;
    var q := SetStage(SetShard(p, i, s), t, stage);
    forall j | 0 <= j < |q.shards|
      ensures ShardOk(q.shards[j], q.threads, j)
    {
      if j != i {
        OtherShard(p.shards[j], p.threads, t, stage, i, j);
      }
    }
  }

  lemma OtherShard(s: Shard, threads: map<nat, Stage>, t: nat, stage: Stage, i: nat, j: nat)
    requires i != j && stage.shard == i && (t in threads ==> threads[t].shard == i) && ShardOk(s, threads, j)
    ensures ShardOk(s, threads[t := stage], j)
  {
    hide AheadOf, ReservedIn, Clean;
    StageSets(threads, t, stage, j);
    MemberSets(threads, t, j);
    assert AheadOf(threads[t := stage], j) == AheadOf(threads, j);
    assert ReservedIn(threads[t := stage], j) == ReservedIn(threads, j);
  }

  lemma LeaveStep(p: Pool, t: nat, s: Shard, i: nat)
    requires Inv(p) && i < |p.shards| && t in p.threads && p.threads[t].shard == i
    requires s.trim == p.shards[i].trim && ShardOk(s, p.threads - {t}, i)
    ensures Inv(Leave(SetShard(p, i, s), t))
  {
    hide ShardOk;
    var q := Leave(SetShard(p, i, s), t);
    forall j | 0 <= j < |q.shards|
      ensures ShardOk(q.shards[j], q.threads, j)
    {
      if j != i {
        OtherShardLeave(p.shards[j], p.threads, t, i, j);
      }
    }
  }

  lemma OtherShardLeave(s: Shard, threads: map<nat, Stage>, t: nat, i: nat, j: nat)
    requires i != j && t in threads && threads[t].shard == i && ShardOk(s, threads, j)
    ensures ShardOk(s, threads - {t}, j)
  {
    hide AheadOf;
    hide ReservedIn;
    LeaveSets(threads, t, j);
    MemberSets(threads, t, j);
    assert AheadOf(threads - {t}, j) == AheadOf(threads, j);
    assert ReservedIn(threads - {t}, j) == ReservedIn(threads, j);
  }

  // ----- Every step keeps the invariant -----

  /** A stage that is not ahead replaces one that is not ahead. */
  lemma PlainStage(s: Shard, threads: map<nat, Stage>, t: nat, stage: Stage, i: nat)
    requires ShardOk(s, threads, i) && !Ahead(stage, i) && (t in threads ==> !Ahead(threads[t], i))
    ensures ShardOk(s, threads[t := stage], i)
  {
    hide AheadOf;
    hide ReservedIn;
    StageSets(threads, t, stage, i);
    MemberSets(threads, t, i);
    assert AheadOf(threads[t := stage], i) == AheadOf(threads, i);
    assert ReservedIn(threads[t := stage], i) == ReservedIn(threads, i);
  }

  lemma PopStep(s: Shard, threads: map<nat, Stage>, t: nat, i: nat)
    requires ShardOk(s, threads, i) && t in threads && threads[t] == Getting(i) && s.queue != []
    ensures ShardOk(s.(queue := s.queue[1..]), threads[t := Popped(i, s.queue[0])], i)
    ensures Clean(s.queue[0], s.trim)
  {
    hide AheadOf;
    hide ReservedIn;
    var stage := Popped(i, s.queue[0]);
    StageSets(threads, t, stage, i);
    MemberSets(threads, t, i);
    assert ReservedIn(threads[t := stage], i) == ReservedIn(threads, i);
  }

  /** The counter is positive whenever a step decrements it. */
  lemma DecrementStep(s: Shard, threads: map<nat, Stage>, t: nat, i: nat)
    requires ShardOk(s, threads, i) && t in threads && threads[t].Popped? && threads[t].shard == i
    ensures s.elemCnt > 0
    ensures ShardOk(s.(elemCnt := s.elemCnt - 1), threads[t := Holding(i, threads[t].buffer)], i)
  {
    hide AheadOf;
    hide ReservedIn;
    var stage := Holding(i, threads[t].buffer);
    StageSets(threads, t, stage, i);
    MemberSets(threads, t, i);
    assert AheadOf(threads[t := stage], i) == AheadOf(threads, i) - {t};
    assert ReservedIn(threads[t := stage], i) == ReservedIn(threads, i);
  }

  lemma ReserveStep(s: Shard, threads: map<nat, Stage>, t: nat, i: nat)
    requires ShardOk(s, threads, i) && t in threads && threads[t].Returning? && threads[t].shard == i
    ensures ShardOk(s.(elemCnt := s.elemCnt + 1),
                    threads[t := if s.elemCnt < s.max then Pushing(i, threads[t].buffer) else RollingBack(i)], i)
  {
    hide AheadOf;
    hide ReservedIn;
    var stage := if s.elemCnt < s.max then Pushing(i, threads[t].buffer) else RollingBack(i);
    StageSets(threads, t, stage, i);
    MemberSets(threads, t, i);
    assert AheadOf(threads[t := stage], i) == AheadOf(threads, i) + {t};
    if s.elemCnt < s.max {
      assert ReservedIn(threads[t := stage], i) == ReservedIn(threads, i) + {t};
    } else {
      assert ReservedIn(threads[t := stage], i) == ReservedIn(threads, i);
    }
  }

  lemma PushStep(s: Shard, threads: map<nat, Stage>, t: nat, i: nat)
    requires ShardOk(s, threads, i) && t in threads && threads[t].Pushing? && threads[t].shard == i
    requires Clean(threads[t].buffer, s.trim)
    ensures ShardOk(s.(queue := s.queue + [threads[t].buffer]), threads - {t}, i)
  {
    hide AheadOf;
    hide ReservedIn;
    LeaveSets(threads, t, i);
    MemberSets(threads, t, i);
  }

  lemma RollbackStep(s: Shard, threads: map<nat, Stage>, t: nat, i: nat)
    requires ShardOk(s, threads, i) && t in threads && threads[t] == RollingBack(i)
    ensures s.elemCnt > 0
    ensures ShardOk(s.(elemCnt := s.elemCnt - 1), threads - {t}, i)
  {
    hide AheadOf;
    hide ReservedIn;
    LeaveSets(threads, t, i);
    MemberSets(threads, t, i);
    assert ReservedIn(threads - {t}, i) == ReservedIn(threads, i);
  }

  lemma HoldingLeaves(s: Shard, threads: map<nat, Stage>, t: nat, i: nat)
    requires ShardOk(s, threads, i) && t in threads && threads[t].Holding?
    ensures ShardOk(s, threads - {t}, i)
  {
    hide AheadOf;
    hide ReservedIn;
    LeaveSets(threads, t, i);
    MemberSets(threads, t, i);
    assert AheadOf(threads - {t}, i) == AheadOf(threads, i);
    assert ReservedIn(threads - {t}, i) == ReservedIn(threads, i);
  }

  /** A thread moves to a stage that does not touch the shard. */
  lemma MoveKeepsInv(p: Pool, t: nat, stage: Stage)
    requires Inv(p) && StageOk(stage, p.shards) && !Ahead(stage, stage.shard)
    requires t in p.threads ==> p.threads[t].shard == stage.shard && !Ahead(p.threads[t], stage.shard)
    ensures Inv(SetStage(p, t, stage))
  {
    hide ShardOk;
    var i := stage.shard;
    PlainStage(p.shards[i], p.threads, t, stage, i);
    StageStep(p, t, stage, p.shards[i], i);
    assert p.shards[i := p.shards[i]] == p.shards;
  }

  lemma LeaveKeepsInv(p: Pool, t: nat)
    requires Inv(p) && t in p.threads && p.threads[t].Holding?
    ensures Inv(Leave(p, t))
  {
    hide ShardOk;
    var i := p.threads[t].shard;
    assert StageOk(p.threads[t], p.shards);
    HoldingLeaves(p.shards[i], p.threads, t, i);
    LeaveStep(p, t, p.shards[i], i);
    assert p.shards[i := p.shards[i]] == p.shards;
  }

  lemma InvInRange(p: Pool)
    requires Inv(p)
    ensures InRange(p)
  {
    hide ShardOk;
    forall t | t in p.threads
      ensures p.threads[t].shard < |p.shards|
    {
      assert StageOk(p.threads[t], p.shards);
    }
  }

  lemma StepKeepsInv(p: Pool, a: Action)
    requires Inv(p) && InRange(p) && Enabled(p, a)
    ensures Inv(Do(p, a))
  {
    hide ShardOk;
    hide StageOk;
    hide SetShard;
    match a
    case StartGet(t) =>
      FreshStages(p);
      MoveKeepsInv(p, t, Getting(p.nextShard % |p.shards|));
    case GetEmpty(t) =>
      FreshStages(p);
      MoveKeepsInv(p, t, Holding(p.nextShard % |p.shards|, Buffer(p.nextId, [], 0)));
    case FromOwned(t, content, capacity) =>
      FreshStages(p);
      MoveKeepsInv(p, t, Holding(p.nextShard % |p.shards|, Buffer(p.nextId, content, capacity)));
    case Pop(t) =>
      PopKeepsInv(p, t);
    case Decrement(t) =>
      DecrementKeepsInv(p, t);
    case Use(t, content, capacity) =>
      var Holding(i, b) := p.threads[t];
      HoldingOk(p, i, b.(content := content, capacity := capacity));
      MoveKeepsInv(p, t, Holding(i, b.(content := content, capacity := capacity)));
    case Take(t) =>
      LeaveKeepsInv(p, t);
    case StartDrop(t) =>
      DropKeepsInv(p, t);
    case Reserve(t) =>
      ReserveKeepsInv(p, t);
    case Push(t) =>
      PushKeepsInv(p, t);
    case Rollback(t) =>
      RollbackKeepsInv(p, t);
  }

  lemma FreshStages(p: Pool)
    requires |p.shards| > 0
    ensures StageOk(Getting(p.nextShard % |p.shards|), p.shards)
    ensures forall b :: StageOk(Holding(p.nextShard % |p.shards|, b), p.shards)
  {
  }

  lemma HoldingOk(p: Pool, i: nat, b: Buffer)
    requires i < |p.shards|
    ensures StageOk(Holding(i, b), p.shards)
  {
  }

  lemma PopKeepsInv(p: Pool, t: nat)
    requires Inv(p) && InRange(p) && Enabled(p, Pop(t))
    ensures Inv(Do(p, Pop(t)))
  {
    hide ShardOk;
    var i := p.threads[t].shard;
    var s := p.shards[i];
    if s.queue == [] {
      MoveKeepsInv(p, t, Holding(i, Buffer(p.nextId, [], 0)));
    } else {
      PopStep(s, p.threads, t, i);
      StageStep(p, t, Popped(i, s.queue[0]), s.(queue := s.queue[1..]), i);
    }
  }

  lemma DecrementKeepsInv(p: Pool, t: nat)
    requires Inv(p) && InRange(p) && Enabled(p, Decrement(t))
    ensures Inv(Do(p, Decrement(t)))
    ensures p.shards[p.threads[t].shard].elemCnt > 0
    ensures p.threads[t].buffer.content == []
  {
    hide ShardOk;
    var Popped(i, b) := p.threads[t];
    assert StageOk(p.threads[t], p.shards);
    DecrementStep(p.shards[i], p.threads, t, i);
    StageStep(p, t, Holding(i, b), p.shards[i].(elemCnt := p.shards[i].elemCnt - 1), i);
  }

  lemma DropKeepsInv(p: Pool, t: nat)
    requires Inv(p) && InRange(p) && Enabled(p, StartDrop(t))
    ensures Inv(Do(p, StartDrop(t)))
  {
    hide ShardOk;
    var Holding(i, b) := p.threads[t];
    var r := Reused(b, p.shards[i].trim);
    if r.capacity > 0 {
      MoveKeepsInv(p, t, Returning(i, r));
    } else {
      LeaveKeepsInv(p, t);
    }
  }

  lemma ReserveKeepsInv(p: Pool, t: nat)
    requires Inv(p) && InRange(p) && Enabled(p, Reserve(t))
    ensures Inv(Do(p, Reserve(t)))
  {
    hide ShardOk;
    var Returning(i, b) := p.threads[t];
    var s := p.shards[i];
    assert StageOk(p.threads[t], p.shards);
    ReserveStep(s, p.threads, t, i);
    var stage := if s.elemCnt < s.max then Pushing(i, b) else RollingBack(i);
    StageStep(p, t, stage, s.(elemCnt := s.elemCnt + 1), i);
  }

  lemma PushKeepsInv(p: Pool, t: nat)
    requires Inv(p) && InRange(p) && Enabled(p, Push(t))
    ensures Inv(Do(p, Push(t)))
  {
    hide ShardOk;
    var Pushing(i, b) := p.threads[t];
    assert StageOk(p.threads[t], p.shards);
    PushStep(p.shards[i], p.threads, t, i);
    LeaveStep(p, t, p.shards[i].(queue := p.shards[i].queue + [b]), i);
  }

  lemma RollbackKeepsInv(p: Pool, t: nat)
    requires Inv(p) && InRange(p) && Enabled(p, Rollback(t))
    ensures Inv(Do(p, Rollback(t)))
    ensures p.shards[p.threads[t].shard].elemCnt > 0
  {
    hide ShardOk;
    var i := p.threads[t].shard;
    RollbackStep(p.shards[i], p.threads, t, i);
    LeaveStep(p, t, p.shards[i].(elemCnt := p.shards[i].elemCnt - 1), i);
  }

  // ----- Runs -----

  /** The pool after a list of actions, if each was possible when it was taken. */
  ghost function RunActions(p: Pool, actions: seq<Action>): (q: Pool)
    requires Inv(p)
    ensures Inv(q)
    decreases |actions|
  {
    if |actions| == 0 then p else
      var n := |actions| - 1;
      var before := RunActions(p, actions[..n]);
      InvInRange(before);
      if Enabled(before, actions[n]) then
        StepKeepsInv(before, actions[n]);
        Do(before, actions[n])
      else before
  }

  /** No thread is between the steps of a get or a drop on the shard. */
  ghost predicate Quiet(p: Pool, i: nat) {
    forall t :: t in p.threads ==> !Ahead(p.threads[t], i)
  }

  /**
  In every interleaving: queued and reserved elements never exceed the shard's
  bound, the counter is never negative and never below the queue length, it is
  exactly the queue length when no operation is in flight, and queued buffers
  are empty.
   */
  lemma PoolSafety(shards: nat, limit: nat, trim: nat, actions: seq<Action>, i: nat)
    requires 0 < shards && i < shards
    ensures Inv(NewPool(shards, limit, trim))
    ensures
      var p := RunActions(NewPool(shards, limit, trim), actions);
      && |p.shards| == shards
      && var s := p.shards[i];
      && |s.queue| + |ReservedIn(p.threads, i)| <= s.max == limit / shards
      && 0 <= |s.queue| <= s.elemCnt
      && (Quiet(p, i) ==> s.elemCnt == |s.queue|)
      && forall j :: 0 <= j < |s.queue| ==> s.queue[j].content == [] && s.queue[j].capacity <= trim
  {
    NewPoolInv(shards, limit, trim);
    var p0 := NewPool(shards, limit, trim);
    var p := RunActions(p0, actions);
    BoundsFixed(p0, actions, i);
    hide RunActions;
    assert ShardOk(p.shards[i], p.threads, i);
    if Quiet(p, i) {
      assert AheadOf(p.threads, i) == {};
    }
  }

  lemma {:induction false} BoundsFixed(p: Pool, actions: seq<Action>, i: nat)
    requires Inv(p) && i < |p.shards|
    ensures
      var q := RunActions(p, actions);
      |q.shards| == |p.shards| && q.shards[i].max == p.shards[i].max && q.shards[i].trim == p.shards[i].trim
    decreases |actions|
  {
    hide Inv;
    if |actions| > 0 {
      var n := |actions| - 1;
      BoundsFixed(p, actions[..n], i);
      var before := RunActions(p, actions[..n]);
      InvInRange(before);
      if Enabled(before, actions[n]) {
        BoundsStep(before, actions[n], i);
      }
    }
  }

  lemma BoundsStep(p: Pool, a: Action, i: nat)
    requires InRange(p) && Enabled(p, a) && i < |p.shards|
    ensures
      var q := Do(p, a);
      |q.shards| == |p.shards| && q.shards[i].max == p.shards[i].max && q.shards[i].trim == p.shards[i].trim
  {
  }

  function Queued(shards: seq<Shard>): nat {
    if |shards| == 0 then 0 else Queued(shards[..|shards| - 1]) + |shards[|shards| - 1].queue|
  }

  lemma {:induction false} QueuedBound(shards: seq<Shard>, max: nat)
    requires forall i :: 0 <= i < |shards| ==> |shards[i].queue| <= max
    ensures Queued(shards) <= |shards| * max
  {
    if |shards| > 0 {
      QueuedBound(shards[..|shards| - 1], max);
      assert |shards| * max == (|shards| - 1) * max + max;
    }
  }

  /** The pool as a whole never keeps more than `limit` buffers. */
  lemma PoolLimit(shards: nat, limit: nat, trim: nat, actions: seq<Action>)
    requires 0 < shards
    ensures Inv(NewPool(shards, limit, trim))
    ensures Queued(RunActions(NewPool(shards, limit, trim), actions).shards) <= limit
  {
    NewPoolInv(shards, limit, trim);
    var p := RunActions(NewPool(shards, limit, trim), actions);
    assert |p.shards| == shards by {
      PoolSafety(shards, limit, trim, actions, 0);
    }
    forall i | 0 <= i < shards
      ensures |p.shards[i].queue| <= limit / shards
    {
      PoolSafety(shards, limit, trim, actions, i);
    }
    QueuedBound(p.shards, limit / shards);
    ShareOfLimit(limit, shards);
  }

  lemma ShareOfLimit(limit: nat, shards: nat)
    requires shards > 0
    ensures shards * (limit / shards) <= limit
  {
  }

  // ----- What a get returns and a drop keeps -----

  function ThreadOf(a: Action): nat {
    a.thread
  }

  /** Steps of other threads do not move a thread. */
  lemma {:induction false} OthersLeaveAlone(p: Pool, actions: seq<Action>, t: nat)
    requires Inv(p) && t in p.threads && forall i :: 0 <= i < |actions| ==> ThreadOf(actions[i]) != t
    ensures
      var q := RunActions(p, actions);
      t in q.threads && q.threads[t] == p.threads[t]
    decreases |actions|
  {
    hide Inv;
    if |actions| > 0 {
      var n := |actions| - 1;
      OthersLeaveAlone(p, actions[..n], t);
      var before := RunActions(p, actions[..n]);
      InvInRange(before);
      assert ThreadOf(actions[n]) != t;
      if Enabled(before, actions[n]) {
        OtherStep(before, actions[n], t);
      }
    }
  }

  lemma OtherStep(p: Pool, a: Action, t: nat)
    requires InRange(p) && Enabled(p, a) && t in p.threads && ThreadOf(a) != t
    ensures t in Do(p, a).threads && Do(p, a).threads[t] == p.threads[t]
  {
  }

  /**
  The step in which a get takes its buffer: the front of the queue, and only
  that one, if there is one; a new empty buffer exactly if there is none.
   */
  lemma PopTakesFront(p: Pool, t: nat)
    requires InRange(p) && Enabled(p, Pop(t))
    ensures
      var i, q := p.threads[t].shard, Do(p, Pop(t));
      var queue := p.shards[i].queue;
      && t in q.threads && |q.shards| == |p.shards|
      && (forall j :: 0 <= j < |p.shards| && j != i ==> q.shards[j] == p.shards[j])
      && q.shards[i].elemCnt == p.shards[i].elemCnt
      && (queue != [] ==>
            q.threads[t] == Popped(i, queue[0]) && [queue[0]] + q.shards[i].queue == queue && q.nextId == p.nextId)
      && (queue == [] ==>
            q.threads[t].Holding? && q.threads[t].buffer.id == p.nextId && q.threads[t].buffer.content == []
            && q.nextId == p.nextId + 1 && q.shards[i].queue == [])
  {
  }

  lemma DecrementKeepsBuffer(p: Pool, t: nat)
    requires InRange(p) && Enabled(p, Decrement(t))
    ensures
      var i, q := p.threads[t].shard, Do(p, Decrement(t));
      && t in q.threads && q.threads[t] == Holding(i, p.threads[t].buffer)
      && |q.shards| == |p.shards| && q.shards[i].queue == p.shards[i].queue
      && q.shards[i].elemCnt == p.shards[i].elemCnt - 1
      && forall j :: 0 <= j < |p.shards| && j != i ==> q.shards[j] == p.shards[j]
  {
  }

  /**
  A get that finds a queue with buffers ends with the one that was at the front
  when it popped, whatever other threads do before its counter step.
   */
  lemma GetReturnsFront(p: Pool, t: nat, others: seq<Action>)
    requires Inv(p) && InRange(p) && Enabled(p, Pop(t)) && p.shards[p.threads[t].shard].queue != []
    requires forall i :: 0 <= i < |others| ==> ThreadOf(others[i]) != t
    ensures Inv(Do(p, Pop(t)))
    ensures
      var front := p.shards[p.threads[t].shard].queue[0];
      var q := RunActions(Do(p, Pop(t)), others);
      && InRange(q) && Enabled(q, Decrement(t))
      && t in Do(q, Decrement(t)).threads
      && Do(q, Decrement(t)).threads[t] == Holding(p.threads[t].shard, front)
  {
    hide Inv, RunActions;
    PopKeepsInv(p, t);
    PopTakesFront(p, t);
    var r := Do(p, Pop(t));
    OthersLeaveAlone(r, others, t);
    var q := RunActions(r, others);
    InvInRange(q);
    DecrementKeepsBuffer(q, t);
  }

  /** A drop without interference, of a buffer with capacity left, when the shard has room: it is queued last. */
  lemma DropKeepsBuffer(p: Pool, t: nat)
    requires Inv(p) && InRange(p) && Enabled(p, StartDrop(t))
    requires
      var Holding(i, b) := p.threads[t];
      Reused(b, p.shards[i].trim).capacity > 0 && p.shards[i].elemCnt < p.shards[i].max
    ensures
      var Holding(i, b) := p.threads[t];
      var q1 := Do(p, StartDrop(t));
      && InRange(q1) && Enabled(q1, Reserve(t))
      && var q2 := Do(q1, Reserve(t));
      && InRange(q2) && Enabled(q2, Push(t))
      && var q := Do(q2, Push(t));
      && Inv(q) && q.threads == p.threads - {t} && q.nextShard == p.nextShard && |q.shards| == |p.shards|
      && q.shards[i].queue == p.shards[i].queue + [Reused(b, p.shards[i].trim)]
      && q.shards[i].elemCnt == p.shards[i].elemCnt + 1
      && forall j :: 0 <= j < |p.shards| && j != i ==> q.shards[j] == p.shards[j]
  {
    hide Inv;
    DropKeepsInv(p, t);
    var q1 := Do(p, StartDrop(t));
    InvInRange(q1);
    ReserveKeepsInv(q1, t);
    InvInRange(Do(q1, Reserve(t)));
    PushKeepsInv(Do(q1, Reserve(t)), t);
    assert Do(Do(q1, Reserve(t)), Push(t)).threads == p.threads - {t};
  }

  /** What is kept of a dropped buffer: the same buffer, emptied, with its capacity cut to the trim. */
  lemma ReusedIs(b: Buffer, trim: nat)
    ensures
      var r := Reused(b, trim);
      r.id == b.id && r.content == [] && r.capacity <= b.capacity && r.capacity <= trim
      && (r.capacity == b.capacity || r.capacity == trim)
  {
  }

  /** A drop when the shard is full leaves the queue and the counter as they were. */
  lemma DropWithoutRoom(p: Pool, t: nat)
    requires Inv(p) && InRange(p) && Enabled(p, StartDrop(t))
    requires
      var Holding(i, b) := p.threads[t];
      Reused(b, p.shards[i].trim).capacity > 0 && p.shards[i].elemCnt >= p.shards[i].max
    ensures
      var q1 := Do(p, StartDrop(t));
      && InRange(q1) && Enabled(q1, Reserve(t))
      && var q2 := Do(q1, Reserve(t));
      && InRange(q2) && Enabled(q2, Rollback(t))
      && var q := Do(q2, Rollback(t));
      t !in q.threads && q.shards == p.shards
  {
    hide Inv;
    DropKeepsInv(p, t);
    var q1 := Do(p, StartDrop(t));
    InvInRange(q1);
    ReserveKeepsInv(q1, t);
    InvInRange(Do(q1, Reserve(t)));
  }

  /** Handles that do not come from a queue: they leave the queues and counters alone. */
  lemma NewHandles(p: Pool, t: nat, content: seq<Byte>, capacity: nat)
    requires InRange(p) && t !in p.threads
    ensures
      var e, o := Do(p, GetEmpty(t)), Do(p, FromOwned(t, content, capacity));
      var i := p.nextShard % |p.shards|;
      && e.shards == p.shards && e.nextShard == p.nextShard && t in e.threads
      && e.threads[t] == Holding(i, Buffer(p.nextId, [], 0))
      && o.shards == p.shards && o.nextShard == p.nextShard + 1 && t in o.threads
      && o.threads[t] == Holding(i, Buffer(p.nextId, content, capacity))
  {
  }

  /** A buffer without capacity, or one that is taken out of its handle, does not come back to the pool. */
  lemma NotReturned(p: Pool, t: nat)
    requires InRange(p) && Enabled(p, StartDrop(t))
    ensures Do(p, Take(t)).shards == p.shards && t !in Do(p, Take(t)).threads
    ensures
      var Holding(i, b) := p.threads[t];
      b.capacity == 0 || p.shards[i].trim == 0 ==>
        Do(p, StartDrop(t)).shards == p.shards && t !in Do(p, StartDrop(t)).threads
  {
  }

  /** A get without interference, on the shard whose turn it is. */
  ghost predicate Gets(p: Pool, t: nat, b: Buffer, queue: seq<Buffer>)
    requires InRange(p) && t !in p.threads
  {
    var i := p.nextShard % |p.shards|;
    var q1 := Do(p, StartGet(t));
    && InRange(q1) && Enabled(q1, Pop(t))
    && var q2 := Do(q1, Pop(t));
    && InRange(q2) && Enabled(q2, Decrement(t))
    && var q := Do(q2, Decrement(t));
    && t in q.threads && q.threads[t] == Holding(i, b) && |q.shards| == |p.shards|
    && q.shards[i].queue == queue && q.shards[i].elemCnt == p.shards[i].elemCnt - 1
  }

  /** Without interference a get returns the oldest buffer dropped into its shard. */
  lemma GetIsOldest(p: Pool, t: nat)
    requires Inv(p) && InRange(p) && t !in p.threads && p.shards[p.nextShard % |p.shards|].queue != []
    ensures
      var queue := p.shards[p.nextShard % |p.shards|].queue;
      Gets(p, t, queue[0], queue[1..])
  {
    hide Inv;
    StepKeepsInv(p, StartGet(t));
    var q1 := Do(p, StartGet(t));
    InvInRange(q1);
    PopKeepsInv(q1, t);
    PopTakesFront(q1, t);
    var q2 := Do(q1, Pop(t));
    InvInRange(q2);
    DecrementKeepsBuffer(q2, t);
  }

  /** The actions of one get per thread, up to the choice of the shard. */
  function StartGets(threads: seq<nat>): seq<Action> {
    seq(|threads|, i requires 0 <= i < |threads| => StartGet(threads[i]))
  }

  /** The shard whose turn it is. */
  function Turn(n: nat, shards: nat): nat
    requires shards > 0
  {
    n % shards
  }

  /** The threads have each chosen a shard, in turn; nothing else has moved. */
  ghost predicate GoneRound(p: Pool, threads: seq<nat>, q: Pool)
    requires |p.shards| > 0
  {
    && q.shards == p.shards && q.nextShard == p.nextShard + |threads|
    && (forall j :: 0 <= j < |threads| ==>
          threads[j] in q.threads && q.threads[threads[j]] == Getting(Turn(p.nextShard + j, |p.shards|)))
    && forall t :: t in q.threads ==> t in p.threads || t in threads
  }

  lemma OneMoreGet(p: Pool, threads: seq<nat>, q: Pool, t: nat)
    requires InRange(q) && |p.shards| > 0 && GoneRound(p, threads, q) && t !in q.threads
    ensures GoneRound(p, threads + [t], Do(q, StartGet(t)))
  {
    hide Turn, Do;
    StartGetStep(q, t);
  }

  /** Different threads, none of them in the middle of anything. */
  ghost predicate Idle(p: Pool, threads: seq<nat>) {
    && (forall i :: 0 <= i < |threads| ==> threads[i] !in p.threads)
    && (forall i, l :: 0 <= i < l < |threads| ==> threads[i] != threads[l])
  }

  /** Gets go round the shards in turn. */
  lemma {:induction false} GetsGoRound(p: Pool, threads: seq<nat>)
    requires Inv(p) && Idle(p, threads)
    ensures GoneRound(p, threads, RunActions(p, StartGets(threads)))
    decreases |threads|
  {
    hide Inv, RunActions, Do, Idle, GoneRound, StartGets;
    InvInRange(p);
    if |threads| == 0 {
      NoneGone(p);
    } else {
      var n := |threads| - 1;
      var rest, last := threads[..n], threads[n];
      IdleSplit(p, threads);
      GetsGoRound(p, rest);
      var before := RunActions(p, StartGets(rest));
      LastStillIdle(p, threads, before);
      RunLast(p, StartGets(rest), StartGet(last));
      OneMoreGet(p, rest, before, last);
    }
  }

  lemma NoneGone(p: Pool)
    requires Inv(p)
    ensures GoneRound(p, [], RunActions(p, StartGets([])))
  {
    hide Inv;
    assert StartGets([]) == [];
  }

  lemma IdleSplit(p: Pool, threads: seq<nat>)
    requires Idle(p, threads) && |threads| > 0
    ensures
      var n := |threads| - 1;
      && Idle(p, threads[..n]) && threads == threads[..n] + [threads[n]]
      && StartGets(threads) == StartGets(threads[..n]) + [StartGet(threads[n])]
  {
  }

  lemma LastStillIdle(p: Pool, threads: seq<nat>, q: Pool)
    requires |p.shards| > 0 && Idle(p, threads) && |threads| > 0 && GoneRound(p, threads[..|threads| - 1], q)
    ensures threads[|threads| - 1] !in q.threads
  {
  }

  lemma StartGetStep(p: Pool, t: nat)
    requires InRange(p) && Enabled(p, StartGet(t))
    ensures
      var q := Do(p, StartGet(t));
      && q.threads == p.threads[t := Getting(Turn(p.nextShard, |p.shards|))]
      && q.nextShard == p.nextShard + 1 && q.shards == p.shards
  {
  }

  lemma RunLast(p: Pool, actions: seq<Action>, a: Action)
    requires Inv(p)
    ensures
      var before := RunActions(p, actions);
      && InRange(before)
      && RunActions(p, actions + [a]) == if Enabled(before, a) then Do(before, a) else before
  {
    hide Inv, Do;
    assert (actions + [a])[..|actions|] == actions;
    InvInRange(RunActions(p, actions));
  }

  /** A buffer dropped into an empty shard with room is what the next get on that shard returns. */
  lemma DropThenGet(p: Pool, t: nat, u: nat)
    requires Inv(p) && InRange(p) && Enabled(p, StartDrop(t)) && u !in p.threads
    requires
      var Holding(i, b) := p.threads[t];
      && Reused(b, p.shards[i].trim).capacity > 0 && p.shards[i].queue == [] && p.shards[i].elemCnt < p.shards[i].max
      && i == p.nextShard % |p.shards|
    ensures
      var Holding(i, b) := p.threads[t];
      var q1 := Do(p, StartDrop(t));
      && InRange(q1) && Enabled(q1, Reserve(t))
      && var q2 := Do(q1, Reserve(t));
      && InRange(q2) && Enabled(q2, Push(t))
      && var q := Do(q2, Push(t));
      && InRange(q) && u !in q.threads && Gets(q, u, Reused(b, p.shards[i].trim), [])
  {
    hide Inv, Gets, Do, Reused;
    DropKeepsBuffer(p, t);
    var q := Do(Do(Do(p, StartDrop(t)), Reserve(t)), Push(t));
    InvInRange(q);
    var kept := Reused(p.threads[t].buffer, p.shards[p.threads[t].shard].trim);
    assert q.shards[p.threads[t].shard].queue == [kept] && [kept][1..] == [];
    GetIsOldest(q, u);
  }

  // ----- No buffer is in two places -----

  predicate HasBuffer(stage: Stage) {
    stage.Popped? || stage.Holding? || stage.Returning? || stage.Pushing?
  }

  ghost predicate ThreadIds(threads: map<nat, Stage>, nextId: nat) {
    && (forall t :: t in threads && HasBuffer(threads[t]) ==> threads[t].buffer.id < nextId)
    && (forall t, u :: t in threads && u in threads && t != u && HasBuffer(threads[t]) && HasBuffer(threads[u]) ==>
          threads[t].buffer.id != threads[u].buffer.id)
  }

  ghost predicate QueueIds(shards: seq<Shard>, nextId: nat) {
    && (forall i, j :: 0 <= i < |shards| && 0 <= j < |shards[i].queue| ==> shards[i].queue[j].id < nextId)
    && (forall i, j, k :: 0 <= i < |shards| && 0 <= j < k < |shards[i].queue| ==>
          shards[i].queue[j].id != shards[i].queue[k].id)
    && (forall i, j, k, l :: 0 <= i < k < |shards| && 0 <= j < |shards[i].queue| && 0 <= l < |shards[k].queue| ==>
          shards[i].queue[j].id != shards[k].queue[l].id)
  }

  ghost predicate Apart(threads: map<nat, Stage>, shards: seq<Shard>) {
    forall t, i, j :: t in threads && HasBuffer(threads[t]) && 0 <= i < |shards| && 0 <= j < |shards[i].queue| ==>
      threads[t].buffer.id != shards[i].queue[j].id
  }

  ghost predicate Unique(p: Pool) {
    ThreadIds(p.threads, p.nextId) && QueueIds(p.shards, p.nextId) && Apart(p.threads, p.shards)
  }

  /** A thread takes a stage with the buffer it had, with none, or with a brand-new one. */
  lemma UniqueStage(p: Pool, t: nat, stage: Stage, nextId: nat)
    requires Unique(p) && p.nextId <= nextId
    requires HasBuffer(stage) ==>
      || (t in p.threads && HasBuffer(p.threads[t]) && stage.buffer.id == p.threads[t].buffer.id)
      || (stage.buffer.id == p.nextId && p.nextId < nextId)
    ensures ThreadIds(p.threads[t := stage], nextId) && QueueIds(p.shards, nextId)
    ensures Apart(p.threads[t := stage], p.shards)
  {
  }

  lemma UniqueShard(p: Pool, i: nat, s: Shard)
    requires Unique(p) && i < |p.shards| && s.queue == p.shards[i].queue
    ensures Unique(SetShard(p, i, s))
  {
    var q := SetShard(p, i, s);
    assert forall k :: 0 <= k < |q.shards| ==> q.shards[k].queue == p.shards[k].queue;
  }

  lemma UniqueLeave(p: Pool, t: nat)
    requires Unique(p)
    ensures Unique(Leave(p, t))
  {
  }

  lemma UniquePop(p: Pool, t: nat, i: nat)
    requires Unique(p) && i < |p.shards| && t in p.threads && p.threads[t].Getting? && p.shards[i].queue != []
    ensures
      var s := p.shards[i];
      Unique(SetStage(SetShard(p, i, s.(queue := s.queue[1..])), t, Popped(i, s.queue[0])))
  {
    var s := p.shards[i];
    var shards := p.shards[i := s.(queue := s.queue[1..])];
    assert forall k, j :: 0 <= k < |shards| && 0 <= j < |shards[k].queue| ==>
      shards[k].queue[j] == p.shards[k].queue[if k == i then j + 1 else j];
    var stage := Popped(i, s.queue[0]);
    var threads := p.threads[t := stage];
    assert ThreadIds(threads, p.nextId);
    assert QueueIds(shards, p.nextId);
    assert Apart(threads, shards);
  }

  lemma UniquePush(p: Pool, t: nat, i: nat)
    requires Unique(p) && i < |p.shards| && t in p.threads && HasBuffer(p.threads[t])
    ensures
      var s := p.shards[i];
      Unique(Leave(SetShard(p, i, s.(queue := s.queue + [p.threads[t].buffer])), t))
  {
    var s, b := p.shards[i], p.threads[t].buffer;
    var shards := p.shards[i := s.(queue := s.queue + [b])];
    assert forall k, j :: 0 <= k < |shards| && 0 <= j < |shards[k].queue| ==>
      shards[k].queue[j] == if k == i && j == |s.queue| then b else p.shards[k].queue[j];
    assert QueueIds(shards, p.nextId);
    assert Apart(p.threads - {t}, shards);
  }

  lemma StepKeepsUnique(p: Pool, a: Action)
    requires Unique(p) && InRange(p) && Enabled(p, a)
    ensures Unique(Do(p, a))
  {
    hide ThreadIds;
    hide QueueIds;
    hide Apart;
    match a
    case StartGet(t) =>
      UniqueStage(p, t, Getting(p.nextShard % |p.shards|), p.nextId);
    case GetEmpty(t) =>
      UniqueStage(p, t, Holding(p.nextShard % |p.shards|, Buffer(p.nextId, [], 0)), p.nextId + 1);
    case FromOwned(t, content, capacity) =>
      UniqueStage(p, t, Holding(p.nextShard % |p.shards|, Buffer(p.nextId, content, capacity)), p.nextId + 1);
    case Pop(t) =>
      var i := p.threads[t].shard;
      if p.shards[i].queue == [] {
        UniqueStage(p, t, Holding(i, Buffer(p.nextId, [], 0)), p.nextId + 1);
      } else {
        UniquePop(p, t, i);
      }
    case Decrement(t) =>
      var Popped(i, b) := p.threads[t];
      var s := p.shards[i].(elemCnt := p.shards[i].elemCnt - 1);
      UniqueShard(p, i, s);
      UniqueStage(SetShard(p, i, s), t, Holding(i, b), p.nextId);
    case Use(t, content, capacity) =>
      var Holding(i, b) := p.threads[t];
      UniqueStage(p, t, Holding(i, b.(content := content, capacity := capacity)), p.nextId);
    case Take(t) =>
      UniqueLeave(p, t);
    case StartDrop(t) =>
      var Holding(i, b) := p.threads[t];
      UniqueStage(p, t, Returning(i, Reused(b, p.shards[i].trim)), p.nextId);
      UniqueLeave(p, t);
    case Reserve(t) =>
      var Returning(i, b) := p.threads[t];
      var s := p.shards[i];
      var s' := s.(elemCnt := s.elemCnt + 1);
      UniqueShard(p, i, s');
      UniqueStage(SetShard(p, i, s'), t, if s.elemCnt < s.max then Pushing(i, b) else RollingBack(i), p.nextId);
    case Push(t) =>
      UniquePush(p, t, p.threads[t].shard);
    case Rollback(t) =>
      var i := p.threads[t].shard;
      var s := p.shards[i].(elemCnt := p.shards[i].elemCnt - 1);
      UniqueShard(p, i, s);
      UniqueLeave(SetShard(p, i, s), t);
  }

  /** In every interleaving each buffer is queued once or in one thread's hands, never both or twice. */
  lemma {:induction false} BuffersUnique(shards: nat, limit: nat, trim: nat, actions: seq<Action>)
    requires shards > 0
    ensures Inv(NewPool(shards, limit, trim))
    ensures Unique(RunActions(NewPool(shards, limit, trim), actions))
    decreases |actions|
  {
    NewPoolInv(shards, limit, trim);
    var p := NewPool(shards, limit, trim);
    if |actions| > 0 {
      hide Inv;
      hide Unique;
      var n := |actions| - 1;
      BuffersUnique(shards, limit, trim, actions[..n]);
      var before := RunActions(p, actions[..n]);
      InvInRange(before);
      if Enabled(before, actions[n]) {
        StepKeepsUnique(before, actions[n]);
      }
    }
  }
}
