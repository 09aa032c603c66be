/**
 The critical sections of the process pool on its arrays (src/util/process_pool.c), proved equal to
 those of the state machine.
 */
module ProcessPool {
  import opened PoolModel
  import opened PoolInvariant
  import opened PoolEffects

  /** The slot that is considered in turn i. */
  lemma SlotOfTurn(p: Pool, i: nat, j: nat)
    requires i < p.max && p.next < p.max && j == (i + p.next) % p.max
    ensures j == if i + p.next < p.max then i + p.next else i + p.next - p.max
    ensures Turn(p, j) == i && forall k :: 0 <= k < p.max && Turn(p, k) == i ==> k == j
  {
    if i + p.next >= p.max { WrapOnce(i + p.next, p.max); }
  }

  lemma WrapOnce(a: nat, n: nat)
    requires 0 < n <= a < 2 * n
    ensures a % n == a - n
  {
    assert (a - n + n) % n == (a - n) % n;
  }

  /** No idle slot has had its turn before turn n, or `high` is the best of those, with this score. */
  ghost predicate BestSoFar(p: Pool, cb: Callback, high: int, value: int, n: nat)
    requires |p.state| == |p.worker| == p.max
  {
    if high < 0 then value == -1 && forall k :: 0 <= k < p.max && Turn(p, k) < n ==> !IdleAt(p, k)
    else
      && IdleAt(p, high) && Turn(p, high) < n
      && (cb.Score? ==> value == cb.score(p.worker[high].id))
      && forall k :: 0 <= k < p.max && Turn(p, k) < n && IdleAt(p, k) ==> NoBetter(p, cb, k, high)
  }

  /** Slot j has its turn: it becomes the best if it is idle and its score is higher than the best so far. */
  lemma NextTurn(p: Pool, cb: Callback, high: int, value: int, i: nat, j: nat, high': int, value': int)
    requires |p.state| == |p.worker| == p.max && i < p.max && p.next < p.max && j == (i + p.next) % p.max
    requires BestSoFar(p, cb, high, value, i) && (cb.NoCallback? ==> high < 0)
    requires if !IdleAt(p, j) then high' == high && value' == value
             else if cb.NoCallback? then high' == j
             else if cb.score(p.worker[j].id) > value then high' == j && value' == cb.score(p.worker[j].id)
             else high' == high && value' == value
    ensures BestSoFar(p, cb, high', value', i + 1)
  {
    SlotOfTurn(p, i, j);
    assert forall k :: 0 <= k < p.max && Turn(p, k) < i + 1 && k != j ==> Turn(p, k) < i;
  }

  /** Without scores the first idle slot is the one to use. */
  lemma FirstIsBest(p: Pool, j: nat, value: int, n: nat)
    requires |p.state| == |p.worker| == p.max && BestSoFar(p, NoCallback, j, value, n)
    ensures Chosen(p, NoCallback, j)
  {}

  lemma AfterAllTurns(p: Pool, cb: Callback, high: int, value: int)
    requires |p.state| == |p.worker| == p.max && (p.max > 0 ==> p.next < p.max) && BestSoFar(p, cb, high, value, p.max)
    ensures high < 0 ==> forall k :: 0 <= k < p.max ==> !IdleAt(p, k)
    ensures high >= 0 ==> Chosen(p, cb, high)
  {
    assert forall k :: 0 <= k < p.max ==> Turn(p, k) < p.max;
  }

  class ProcessPool {
    const maxNrProcesses: nat
    const worker: array<Handle>
    const workerState: array<WorkerState>
    var nrProcessesRunning: int
    var sem: nat
    var next: nat
    var stop: bool

    /** process_pool_new: all slots are empty. */
    constructor (maxNrProcesses: nat)
      ensures this.maxNrProcesses == maxNrProcesses && fresh(worker) && fresh(workerState) && ArraysOk()
      ensures View() == Pool(maxNrProcesses, seq(maxNrProcesses, _ => Null), seq(maxNrProcesses, _ => STOPPED),
                             0, 0, 0, false)
    {
      this.maxNrProcesses := maxNrProcesses;
      worker := new Handle[maxNrProcesses](_ => Null);
      workerState := new WorkerState[maxNrProcesses](_ => STOPPED);
      nrProcessesRunning, sem, next, stop := 0, 0, 0, false;
      new;
      assert worker[..] == seq(maxNrProcesses, _ => Null);
      assert workerState[..] == seq(maxNrProcesses, _ => STOPPED);
    }

    ghost predicate ArraysOk() {
      worker.Length == workerState.Length == maxNrProcesses
    }

    ghost function View(): Pool
      reads this, worker, workerState
    {
      Pool(maxNrProcesses, worker[..], workerState[..], nrProcessesRunning, sem, next, stop)
    }

    ghost predicate Valid(dealloc: bool, freed: seq<nat>, nextId: nat)
      reads this, worker, workerState
    {
      ArraysOk() && PoolInv(View(), dealloc, freed, nextId)
    }

    /** The first slot whose worker is stopped. */
    method FindStopped() returns (i: nat)
      requires ArraysOk()
      ensures i == Find(workerState[..], STOPPED)
    {
      i := 0;
      while i < maxNrProcesses
        invariant 0 <= i <= maxNrProcesses
        invariant forall j :: 0 <= j < i ==> workerState[j] != STOPPED
      {
        if workerState[i] == STOPPED { break; }
        i := i + 1;
      }
      FindIs(workerState[..], STOPPED, i);
    }

    /** process_pool_start_worker. `spawned` says whether the new process could be started. */
    method StartWorker(id: nat, spawned: bool, ghost dealloc: bool, ghost freed: seq<nat>) returns (nrRunning: int)
      requires Valid(dealloc, freed, id)
      modifies this, worker, workerState
      ensures View() == Start(old(View()), id, spawned) && nrRunning == nrProcessesRunning
      ensures if spawned && old(nrProcessesRunning) < maxNrProcesses && !old(stop)
              then OneStarted(old(View()), View(), id)
              else View() == old(View())
      ensures Valid(dealloc, freed, id + 1)
    {
      StartEffect(View(), dealloc, freed, id, spawned);
      StartPool(View(), dealloc, freed, id, spawned);
      if nrProcessesRunning < maxNrProcesses && !stop {
        var i := FindStopped();
        if i < maxNrProcesses {
          if spawned {
            worker[i] := Worker(id);
            workerState[i] := IDLE;
            nrProcessesRunning := nrProcessesRunning + 1;
            assert nrProcessesRunning <= maxNrProcesses;
            sem := sem + 1;
          } else {
            workerState[i] := STOPPED;
          }
        }
      }
      nrRunning := nrProcessesRunning;
    }

    /** The slot whose turn it is: taken if it is idle, and without scores or with the highest one so far. */
    method Consider(cb: Callback, i: nat, best: int, bestValue: int) returns (high: int, value: int)
      requires ArraysOk() && i < maxNrProcesses && next < maxNrProcesses
      requires forall k :: 0 <= k < maxNrProcesses && workerState[k] == IDLE ==> worker[k].Worker?
      requires BestSoFar(View(), cb, best, bestValue, i) && (cb.NoCallback? ==> best < 0)
      ensures BestSoFar(View(), cb, high, value, i + 1)
    {
      var j := (i + next) % maxNrProcesses;
      high, value := best, bestValue;
      if workerState[j] == IDLE {
        assert worker[j].Worker?;
        match cb
        case NoCallback =>
          high := j;
        case Score(f) =>
          var score := f(worker[j].id);
          assert score >= 0;
          if score > bestValue {
            value := score;
            high := j;
          }
      }
      NextTurn(View(), cb, best, bestValue, i, j, high, value);
    }

    /** The search for the best free worker, or -1 if there is none. */
    method FindBest(cb: Callback) returns (high: int)
      requires ArraysOk() && (maxNrProcesses > 0 ==> next < maxNrProcesses)
      requires forall k :: 0 <= k < maxNrProcesses && workerState[k] == IDLE ==> worker[k].Worker?
      ensures high < 0 <==> forall k :: 0 <= k < maxNrProcesses ==> workerState[k] != IDLE
      ensures high >= 0 ==> Chosen(View(), cb, high)
    {
      high := -1;
      var value: int := -1;
      var i := 0;
      while i < maxNrProcesses
        invariant 0 <= i <= maxNrProcesses
        invariant BestSoFar(View(), cb, high, value, i) && (cb.NoCallback? ==> high < 0)
      {
        high, value := Consider(cb, i, high, value);
        if cb.NoCallback? && high >= 0 {
          FirstIsBest(View(), high, value, i + 1);
          return high;
        }
        i := i + 1;
      }
      AfterAllTurns(View(), cb, high, value);
      assert forall k :: 0 <= k < maxNrProcesses ==> (workerState[k] == IDLE <==> IdleAt(View(), k));
    }

    /**
     The part of try_process_pool_get_worker_by_score under the lock: the best free worker becomes
     busy. After the stop, or without a free worker, what was taken from the semaphore goes back.
     */
    method TakeWorker(cb: Callback, ghost dealloc: bool, ghost freed: seq<nat>, ghost nextId: nat)
      returns (w: Handle, ghost slot: nat)
      requires Valid(dealloc, freed, nextId) && (dealloc ==> stop)
      modifies this`sem, this`next, workerState
      ensures Valid(dealloc, freed, nextId)
      ensures w == Null <==> old(stop) || forall k :: 0 <= k < maxNrProcesses ==> old(workerState[k]) != IDLE
      ensures w == Null ==> View() == Post(old(View()))
      ensures w != Null ==> Chosen(old(View()), cb, slot) && w == worker[slot] && View() == Assign(old(View()), slot)
      ensures w != Null ==> OneTaken(old(View()), View(), w)
    {
      if stop {
        sem := sem + 1;
        return Null, 0;
      }
      var high := FindBest(cb);
      if high < 0 {
        w, slot := Null, 0;
      } else {
        AssignPool(View(), dealloc, freed, nextId, high);
        AssignEffect(View(), high);
        slot := high;
        w := Occupy(high);
      }
      if w == Null { sem := sem + 1; }
    }

    /** The worker of this slot is handed out. */
    method Occupy(i: nat) returns (w: Handle)
      requires ArraysOk() && i < maxNrProcesses
      modifies this`next, workerState
      ensures w == worker[i] && View() == Assign(old(View()), i)
    {
      w := worker[i];
      workerState[i] := BUSY;
      next := (next + 1) % maxNrProcesses;
    }

    /** Clears a slot whose worker died. */
    method Clear(i: nat)
      requires ArraysOk() && i < maxNrProcesses
      modifies this`nrProcessesRunning, worker, workerState
      ensures worker[..] == old(worker[..])[i := Null] && workerState[..] == old(workerState[..])[i := STOPPED]
      ensures nrProcessesRunning == old(nrProcessesRunning) - 1
    {
      workerState[i] := STOPPED;
      worker[i] := Null;
      nrProcessesRunning := nrProcessesRunning - 1;
    }

    /** Removes a worker that was found dead: every slot is compared with it. */
    method MarkDead(w: nat, ghost dealloc: bool, ghost freed: seq<nat>, ghost nextId: nat)
      requires Valid(dealloc, freed, nextId)
      requires Find(worker[..], Worker(w)) < maxNrProcesses && workerState[Find(worker[..], Worker(w))] == BUSY
      modifies this`nrProcessesRunning, worker, workerState
      ensures View() == Retire(old(View()), w) && OneRetired(old(View()), View(), w)
      ensures Valid(dealloc, freed + [w], nextId)
    {
      ghost var slot := Find(worker[..], Worker(w));
      RetireEffect(View(), w);
      RetirePool(View(), dealloc, freed, nextId, w);
      OnlyAt(worker[..], slot);
      var j := 0;
      while j < maxNrProcesses
        invariant 0 <= j <= maxNrProcesses
        invariant View() == if j <= slot then old(View()) else Retire(old(View()), w)
      {
        if worker[j] == Worker(w) {
          Clear(j);
        }
        j := j + 1;
      }
    }

    /** process_pool_release_worker. The semaphore is posted afterwards, if the worker is still running. */
    method ReleaseWorker(w: nat, alive: bool, ghost dealloc: bool, ghost freed: seq<nat>, ghost nextId: nat)
      returns (running: bool)
      requires Valid(dealloc, freed, nextId)
      requires Find(worker[..], Worker(w)) < maxNrProcesses && workerState[Find(worker[..], Worker(w))] == BUSY
      modifies this`nrProcessesRunning, worker, workerState
      ensures running <==> alive
      ensures View() == if alive then Return(old(View()), w) else Retire(old(View()), w)
      ensures if alive then OneReturned(old(View()), View(), w) else OneRetired(old(View()), View(), w)
      ensures Valid(dealloc, if alive then freed else freed + [w], nextId)
    {
      ghost var slot := Find(worker[..], Worker(w));
      RetirePool(View(), dealloc, freed, nextId, w);
      ReturnPool(View(), dealloc, freed, nextId, w);
      ReturnEffect(View(), w);
      RetireEffect(View(), w);
      running := false;
      var i := 0;
      while i < maxNrProcesses && worker[i] != Worker(w)
        invariant 0 <= i <= slot
      {
        i := i + 1;
      }
      if i < maxNrProcesses {
        if alive {
          workerState[i] := IDLE;
          running := true;
        } else {
          Clear(i);
        }
      }
    }

    /** The first part of process_pool_free: no more processes are started and nobody is left to wait. */
    method Shutdown() returns (killed: set<nat>)
      requires ArraysOk()
      modifies this`stop, this`sem
      ensures View() == Post(old(View()).(stop := true))
      ensures killed
           == set i | 0 <= i < maxNrProcesses && worker[i].Worker? && workerState[i] != STOPPED :: worker[i].id
    {
      stop := true;
      killed := {};
      var i := 0;
      while i < maxNrProcesses
        invariant 0 <= i <= maxNrProcesses && stop
        invariant killed == set j | 0 <= j < i && worker[j].Worker? && workerState[j] != STOPPED :: worker[j].id
      {
        if worker[i].Worker? && workerState[i] != STOPPED {
          killed := killed + {worker[i].id};
        }
        i := i + 1;
      }
      sem := sem + 1;
    }

    method CountBusy() returns (n: nat)
      requires ArraysOk()
      ensures n == 0 <==> NoneBusy(View())
    {
      n := 0;
      var i := 0;
      while i < maxNrProcesses
        invariant 0 <= i <= maxNrProcesses
        invariant n == 0 <==> forall j :: 0 <= j < i ==> workerState[j] != BUSY
      {
        if workerState[i] == BUSY { n := n + 1; }
        i := i + 1;
      }
    }

    /** One round of the wait for all workers to be released: nothing, or the deallocation. */
    method TryToFree(ghost freed: seq<nat>, ghost nextId: nat) returns (idle: bool, now: seq<nat>)
      requires Valid(false, freed, nextId) && stop
      modifies worker
      ensures idle <==> old(NoneBusy(View()))
      ensures workerState[..] == old(workerState[..])
      ensures if idle then Valid(true, freed + now, nextId) && ClearedTo(worker[..], maxNrProcesses)
              else Valid(false, freed, nextId) && worker[..] == old(worker[..]) && now == []
      ensures idle ==> forall k :: 0 <= k < maxNrProcesses && old(worker[k]).Worker? ==> old(worker[k]).id in now
    {
      var nrBusy := CountBusy();
      idle, now := nrBusy == 0, [];
      if idle { now := FreeWorkers(freed, nextId); }
    }

    /** The last part of process_pool_free: the workers that are left are freed, each one once. */
    method FreeWorkers(ghost freed: seq<nat>, ghost nextId: nat) returns (now: seq<nat>)
      requires Valid(true, freed, nextId) && NoneBusy(View())
      modifies worker
      ensures Valid(true, freed + now, nextId) && ClearedTo(worker[..], maxNrProcesses)
      ensures forall k :: 0 <= k < maxNrProcesses && old(worker[k]).Worker? ==> old(worker[k]).id in now
      ensures workerState[..] == old(workerState[..])
    {
      now := [];
      var i := 0;
      while i < maxNrProcesses
        invariant 0 <= i <= maxNrProcesses
        invariant Valid(true, freed + now, nextId) && ClearedTo(worker[..], i)
        invariant forall k :: i <= k < maxNrProcesses ==> worker[k] == old(worker[k])
        invariant forall k :: 0 <= k < i && old(worker[k]).Worker? ==> old(worker[k]).id in now
        invariant workerState[..] == old(workerState[..])
      {
        if worker[i].Worker? {
          OnlyAt(worker[..], i);
          assert freed + (now + [worker[i].id]) == (freed + now) + [worker[i].id];
          now := now + [worker[i].id];
          worker[i] := Null;
        }
        i := i + 1;
      }
    }
  }

  lemma FindIs<T>(s: seq<T>, x: T, i: nat)
    requires i <= |s| && (i < |s| ==> s[i] == x) && forall j :: 0 <= j < i ==> s[j] != x
    ensures Find(s, x) == i
  {}
}
