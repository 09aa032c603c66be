/**
 What each critical section of the process pool does, slot by slot, said without the functions that
 define it.
 */
module PoolEffects {
  import opened Basics
  import opened PoolModel
  import opened PoolInvariant

  /** Slot i changes to this state and worker, and no other one changes. */
  ghost predicate OnlySlot(p: Pool, q: Pool, i: nat, state: WorkerState, worker: Handle)
    requires |p.state| == |p.worker| == p.max
  {
    && i < p.max == q.max == |q.state| == |q.worker|
    && q.state[i] == state && q.worker[i] == worker
    && forall k :: 0 <= k < p.max && k != i ==> q.state[k] == p.state[k] && q.worker[k] == p.worker[k]
  }

  /** A stopped slot gets the new worker, which is free and announced on the semaphore. */
  ghost predicate OneStarted(p: Pool, q: Pool, id: nat)
    requires |p.state| == |p.worker| == p.max
  {
    && (exists i :: 0 <= i < p.max && p.state[i] == STOPPED && OnlySlot(p, q, i, IDLE, Worker(id)))
    && q.running == p.running + 1 && q.sem == p.sem + 1 && q.next == p.next && q.stop == p.stop
  }

  /** The worker that was busy is free again; the semaphore is left to the caller. */
  ghost predicate OneReturned(p: Pool, q: Pool, w: nat)
    requires |p.state| == |p.worker| == p.max
  {
    && (exists i :: 0 <= i < p.max && p.worker[i] == Worker(w) && OnlySlot(p, q, i, IDLE, Worker(w)))
    && q.running == p.running && q.sem == p.sem && q.next == p.next && q.stop == p.stop
  }

  /** The worker has left its slot, which can be used for a new one; nothing is posted. */
  ghost predicate OneRetired(p: Pool, q: Pool, w: nat)
    requires |p.state| == |p.worker| == p.max
  {
    && (exists i :: 0 <= i < p.max && p.worker[i] == Worker(w) && OnlySlot(p, q, i, STOPPED, Null))
    && q.running == p.running - 1 && q.sem == p.sem && q.next == p.next && q.stop == p.stop
  }

  /** A free worker has become busy, and the next search starts one slot further on. */
  ghost predicate OneTaken(p: Pool, q: Pool, w: Handle)
    requires |p.state| == |p.worker| == p.max
  {
    && (exists i :: 0 <= i < p.max && p.state[i] == IDLE && p.worker[i] == w && OnlySlot(p, q, i, BUSY, w))
    && q.running == p.running && q.sem == p.sem && q.stop == p.stop
    && q.next == if p.next + 1 == p.max then 0 else p.next + 1
  }

  /**
   A worker is started if and only if its process can be, fewer run than may, and the pool has not been
   stopped; otherwise nothing changes.
   */
  lemma StartEffect(p: Pool, dealloc: bool, freed: seq<nat>, nextId: nat, ok: bool)
    requires PoolInv(p, dealloc, freed, nextId)
    ensures if ok && p.running < p.max && !p.stop then OneStarted(p, Start(p, nextId, ok), nextId)
            else Start(p, nextId, ok) == p
  {
    CountAll(p.state, IsRunning);
    assert p.running < p.max ==> exists i :: 0 <= i < p.max && p.state[i] == STOPPED;
    var i := Find(p.state, STOPPED);
    if ok && p.running < p.max && !p.stop { assert OnlySlot(p, Start(p, nextId, ok), i, IDLE, Worker(nextId)); }
  }

  /** The slot in question. */
  lemma StartedSlot(p: Pool, q: Pool, id: nat) returns (slot: nat)
    requires |p.state| == |p.worker| == p.max && OneStarted(p, q, id)
    ensures slot < p.max && OnlySlot(p, q, slot, IDLE, Worker(id))
    ensures slot < q.max == |q.state| == |q.worker| && q.state[slot] == IDLE && q.worker[slot] == Worker(id)
  {
    slot :| 0 <= slot < p.max && p.state[slot] == STOPPED && OnlySlot(p, q, slot, IDLE, Worker(id));
  }

  lemma ReturnEffect(p: Pool, w: nat)
    requires |p.state| == |p.worker| == p.max && Find(p.worker, Worker(w)) < p.max
    ensures OneReturned(p, Return(p, w), w)
  {
    assert OnlySlot(p, Return(p, w), Find(p.worker, Worker(w)), IDLE, Worker(w));
  }

  lemma RetireEffect(p: Pool, w: nat)
    requires |p.state| == |p.worker| == p.max && Find(p.worker, Worker(w)) < p.max
    ensures OneRetired(p, Retire(p, w), w)
  {
    assert OnlySlot(p, Retire(p, w), Find(p.worker, Worker(w)), STOPPED, Null);
  }

  lemma AssignEffect(p: Pool, j: nat)
    requires PoolOk(p) && IdleAt(p, j)
    ensures OneTaken(p, Assign(p, j), p.worker[j])
  {
    OneFurther(p.next, p.max);
    assert OnlySlot(p, Assign(p, j), j, BUSY, p.worker[j]);
  }

  lemma OneFurther(a: nat, n: nat)
    requires a < n
    ensures (a + 1) % n == if a + 1 == n then 0 else a + 1
  {}

  // ---------- which worker is chosen ----------

  /** The slot that is looked at after i others. */
  function SlotAfter(p: Pool, i: nat): nat
    requires i < p.max && p.next < p.max
  {
    if p.next + i < p.max then p.next + i else p.next + i - p.max
  }

  /** Without scores the first free worker is chosen, counted from the slot whose turn it is. */
  lemma FirstFreeIsChosen(p: Pool, j: nat)
    requires PoolOk(p)
    ensures Chosen(p, NoCallback, j) <==>
            exists i :: 0 <= i < p.max && j == SlotAfter(p, i) && IdleAt(p, j)
                        && forall k :: 0 <= k < i ==> !IdleAt(p, SlotAfter(p, k))
  {
    if Chosen(p, NoCallback, j) {
      var i := Turn(p, j);
      assert j == SlotAfter(p, i);
      forall k | 0 <= k < i ensures !IdleAt(p, SlotAfter(p, k)) {
        assert Turn(p, SlotAfter(p, k)) == k;
      }
    }
    if i :| 0 <= i < p.max && j == SlotAfter(p, i) && IdleAt(p, j)
            && forall k :: 0 <= k < i ==> !IdleAt(p, SlotAfter(p, k)) {
      forall k | 0 <= k < p.max && IdleAt(p, k) ensures NoBetter(p, NoCallback, k, j) {
        assert SlotAfter(p, Turn(p, k)) == k;
      }
    }
  }

  /** With scores no free worker has a higher one, and those with the same one come later. */
  lemma HighestScoreIsChosen(p: Pool, score: nat -> nat, j: nat)
    requires PoolOk(p)
    ensures Chosen(p, Score(score), j) <==>
            && IdleAt(p, j)
            && (forall k :: 0 <= k < p.max && IdleAt(p, k) ==> score(p.worker[k].id) <= score(p.worker[j].id))
            && forall i, k :: 0 <= i < p.max && j == SlotAfter(p, i) && 0 <= k < i && IdleAt(p, SlotAfter(p, k)) ==>
                 score(p.worker[SlotAfter(p, k)].id) < score(p.worker[j].id)
  {
    forall k | 0 <= k < p.max ensures 0 <= Turn(p, k) < p.max && SlotAfter(p, Turn(p, k)) == k {}
    forall i | 0 <= i < p.max ensures Turn(p, SlotAfter(p, i)) == i {}
  }
}
