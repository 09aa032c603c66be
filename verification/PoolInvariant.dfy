/** What every step of the process pool keeps. */
module PoolInvariant {
  import opened Basics
  import opened PoolModel

  // ---------- the invariant ----------

  /** The worker a thread holds, if any. */
  function Hold(pc: Pc): Handle {
    match pc
    case Checking(w, _) => Worker(w)
    case Reaping(w, _) => Worker(w)
    case Using(w) => Worker(w)
    case _ => Null
  }

  /** The thread has taken from the semaphore, or not yet given to it, what is accounted to a free worker. */
  predicate HasToken(pc: Pc) {
    pc.Reserved? || pc.Posting?
  }

  predicate IsIdle(x: WorkerState) {
    x == IDLE
  }

  predicate IsRunning(x: WorkerState) {
    x != STOPPED
  }

  ghost predicate PoolOk(p: Pool) {
    && |p.state| == |p.worker| == p.max
    && (p.max > 0 ==> p.next < p.max)
    && p.running == Count(p.state, IsRunning)
  }

  /** A slot without a running worker is empty; all others hold one until the pool is deallocated. */
  ghost predicate SlotsOk(p: Pool, dealloc: bool)
    requires |p.state| == |p.worker| == p.max
  {
    forall i :: 0 <= i < p.max ==>
      && (p.state[i] == STOPPED ==> p.worker[i] == Null)
      && (p.state[i] == BUSY ==> p.worker[i].Worker?)
      && (p.state[i] == IDLE && !dealloc ==> p.worker[i].Worker?)
  }

  /** No worker is in two slots or has been freed, and all of them have been started. */
  ghost predicate WorkersOk(worker: seq<Handle>, freed: seq<nat>, nextId: nat) {
    && (forall i, j :: 0 <= i < j < |worker| && worker[i].Worker? ==> worker[i] != worker[j])
    && (forall i :: 0 <= i < |worker| && worker[i].Worker? ==> worker[i].id < nextId && worker[i].id !in freed)
  }

  ghost predicate FreedOnce(freed: seq<nat>, nextId: nat) {
    && (forall i, j :: 0 <= i < j < |freed| ==> freed[i] != freed[j])
    && (forall w :: w in freed ==> w < nextId)
  }

  /** Every held worker is in a slot that is marked busy. */
  ghost predicate HeldAreBusy(p: Pool, threads: seq<Pc>)
    requires |p.state| == |p.worker| == p.max
  {
    forall t :: 0 <= t < |threads| && Hold(threads[t]).Worker? ==>
      Find(p.worker, Hold(threads[t])) < p.max && p.state[Find(p.worker, Hold(threads[t]))] == BUSY
  }

  ghost predicate OneHolder(threads: seq<Pc>) {
    forall t, u :: 0 <= t < u < |threads| && Hold(threads[t]).Worker? ==> Hold(threads[t]) != Hold(threads[u])
  }

  ghost predicate HeldBy(h: Handle, threads: seq<Pc>) {
    exists t :: 0 <= t < |threads| && Hold(threads[t]) == h
  }

  /** Every busy worker is held by a thread. */
  ghost predicate BusyAreHeld(p: Pool, threads: seq<Pc>)
    requires |p.state| == |p.worker| == p.max
  {
    forall i :: 0 <= i < p.max && p.state[i] == BUSY ==> HeldBy(p.worker[i], threads)
  }

  ghost predicate PcOk(pc: Pc, p: Pool, dealloc: bool) {
    && (pc.Looking? || pc.Starting? || pc.Waiting? || pc.Reserved? || pc.Checking? || pc.Reaping? ==> pc.tries <= p.max)
    && (pc.Stopping? || pc.Freeing? ==> p.stop)
    && (pc.Freeing? ==> dealloc && ClearedTo(p.worker, pc.slot))
  }

  /** The slots before n are empty. */
  ghost predicate ClearedTo(worker: seq<Handle>, n: nat) {
    forall k :: 0 <= k < |worker| && k < n ==> worker[k] == Null
  }

  ghost predicate PhaseOk(p: Pool, threads: seq<Pc>, dealloc: bool) {
    && (forall t :: 0 <= t < |threads| ==> PcOk(threads[t], p, dealloc))
    && (dealloc ==> p.stop && NoneBusy(p))
  }

  /** What can be taken from the semaphore: one for each free worker, and one more after the stop. */
  ghost predicate TokensOk(p: Pool, threads: seq<Pc>) {
    p.sem + Count(threads, HasToken) == Count(p.state, IsIdle) + Bit(p.stop)
  }

  ghost predicate PoolInv(p: Pool, dealloc: bool, freed: seq<nat>, nextId: nat) {
    PoolOk(p) && SlotsOk(p, dealloc) && WorkersOk(p.worker, freed, nextId) && FreedOnce(freed, nextId)
  }

  ghost predicate HoldersOk(p: Pool, threads: seq<Pc>)
    requires |p.state| == |p.worker| == p.max
  {
    HeldAreBusy(p, threads) && OneHolder(threads) && BusyAreHeld(p, threads)
  }

  ghost predicate Inv(s: System) {
    && PoolInv(s.pool, s.dealloc, s.freed, s.nextId) && HoldersOk(s.pool, s.threads)
    && PhaseOk(s.pool, s.threads, s.dealloc) && TokensOk(s.pool, s.threads)
  }

  lemma Unique(worker: seq<Handle>, i: nat)
    requires i < |worker| && worker[i].Worker?
    requires forall j, k :: 0 <= j < k < |worker| && worker[j].Worker? ==> worker[j] != worker[k]
    ensures Find(worker, worker[i]) == i
  {}

  // ---------- the phase of a thread ----------

  ghost predicate StaysEmpty(worker: seq<Handle>, worker': seq<Handle>) {
    |worker| == |worker'| && forall k :: 0 <= k < |worker| && worker[k] == Null ==> worker'[k] == Null
  }

  /** One thread moves, the pool keeps its size, and the stop flag is never taken back. */
  lemma PhaseKept(p: Pool, q: Pool, threads: seq<Pc>, t: nat, pc: Pc, dealloc: bool, dealloc': bool)
    requires PhaseOk(p, threads, dealloc) && t < |threads| && p.max == q.max
    requires (p.stop ==> q.stop) && (dealloc ==> dealloc') && PcOk(pc, q, dealloc')
    requires dealloc' ==> q.stop && NoneBusy(q)
    requires p.stop ==> StaysEmpty(p.worker, q.worker)
    ensures PhaseOk(q, threads[t := pc], dealloc')
  {
    var threads' := threads[t := pc];
    forall u | 0 <= u < |threads'| ensures PcOk(threads'[u], q, dealloc') {
      assert PcOk(threads[u], p, dealloc);
    }
  }

  // ---------- steps that leave the slots alone ----------

  /** Only the semaphore, the stop flag and the position of one thread change. */
  lemma MoveKeeps(s: System, t: nat, p: Pool, pc: Pc, dealloc: bool)
    requires Inv(s) && t < |s.threads| && p == s.pool.(sem := p.sem, stop := p.stop)
    requires Hold(pc) == Hold(s.threads[t])
    requires s.pool.stop ==> p.stop
    requires PcOk(pc, p, dealloc) && (s.dealloc ==> dealloc) && (dealloc ==> p.stop && NoneBusy(p))
    requires p.sem + Bit(HasToken(pc)) + Bit(s.pool.stop) == s.pool.sem + Bit(HasToken(s.threads[t])) + Bit(p.stop)
    ensures Inv(Go(s, t, p, pc).(dealloc := dealloc))
  {
    CountUpdate(s.threads, HasToken, t, pc);
    PhaseKept(s.pool, p, s.threads, t, pc, s.dealloc, dealloc);
    SameHolders(s.pool, p, s.threads, t, pc);
  }

  lemma SameHolders(p: Pool, q: Pool, threads: seq<Pc>, t: nat, pc: Pc)
    requires |p.state| == |p.worker| == p.max && HoldersOk(p, threads) && t < |threads|
    requires q.max == p.max && q.worker == p.worker && q.state == p.state && Hold(pc) == Hold(threads[t])
    ensures HoldersOk(q, threads[t := pc])
  {
    var threads' := threads[t := pc];
    forall i | 0 <= i < p.max && p.state[i] == BUSY ensures HeldBy(p.worker[i], threads') {
      var u :| 0 <= u < |threads| && Hold(threads[u]) == p.worker[i];
      assert Hold(threads'[u]) == p.worker[i];
    }
  }

  // ---------- starting a worker ----------

  lemma StartPool(p: Pool, dealloc: bool, freed: seq<nat>, nextId: nat, ok: bool)
    requires PoolInv(p, dealloc, freed, nextId)
    ensures var q := Start(p, nextId, ok);
            && PoolInv(q, dealloc, freed, nextId + 1)
            && q.sem + Count(p.state, IsIdle) == p.sem + Count(q.state, IsIdle)
            && SameBusy(p, q)
  {
    var i := Find(p.state, STOPPED);
    if i < p.max {
      CountUpdate(p.state, IsIdle, i, IDLE);
      CountUpdate(p.state, IsRunning, i, IDLE);
    }
  }

  /** The same slots are busy, with the same workers. */
  ghost predicate SameBusy(p: Pool, q: Pool)
    requires |p.state| == |p.worker| == p.max
  {
    && |q.state| == |q.worker| == q.max == p.max
    && (forall i :: 0 <= i < p.max ==> (p.state[i] == BUSY <==> q.state[i] == BUSY))
    && (forall i :: 0 <= i < p.max && p.state[i] == BUSY ==> p.worker[i] == q.worker[i])
  }

  lemma StartKeeps(s: System, s': System, t: nat)
    requires Inv(s) && t < |s.threads| && s.threads[t].Starting? && StartStep(s, s', t)
    ensures Inv(s')
  {
    var ok: bool :| var p := Start(s.pool, s.nextId, ok);
      s' == Go(s, t, p, if p.running == 0 then Outside else Waiting(s.threads[t].tries))
            .(alive := s.alive + {s.nextId}, nextId := s.nextId + 1);
    StartPool(s.pool, s.dealloc, s.freed, s.nextId, ok);
    CountUpdate(s.threads, HasToken, t, s'.threads[t]);
    PhaseKept(s.pool, s'.pool, s.threads, t, s'.threads[t], s.dealloc, s.dealloc);
    HoldersKept(s.pool, s'.pool, s.threads, t, s'.threads[t]);
  }

  /** The busy slots stay as they are, and the thread neither held nor holds a worker. */
  lemma HoldersKept(p: Pool, q: Pool, threads: seq<Pc>, t: nat, pc: Pc)
    requires |p.state| == |p.worker| == p.max && HoldersOk(p, threads) && t < |threads| && SameBusy(p, q)
    requires Hold(threads[t]) == Null == Hold(pc)
    requires forall i, j :: 0 <= i < j < |q.worker| && q.worker[i].Worker? ==> q.worker[i] != q.worker[j]
    ensures HoldersOk(q, threads[t := pc])
  {
    var threads' := threads[t := pc];
    forall u | 0 <= u < |threads'| && Hold(threads'[u]).Worker?
      ensures Find(q.worker, Hold(threads'[u])) < q.max && q.state[Find(q.worker, Hold(threads'[u]))] == BUSY {
      assert threads'[u] == threads[u];
      Unique(q.worker, Find(p.worker, Hold(threads[u])));
    }
    forall i | 0 <= i < q.max && q.state[i] == BUSY ensures HeldBy(q.worker[i], threads') {
      var u :| 0 <= u < |threads| && Hold(threads[u]) == p.worker[i];
      assert Hold(threads'[u]) == q.worker[i];
    }
  }

  // ---------- assigning a worker ----------

  lemma AssignPool(p: Pool, dealloc: bool, freed: seq<nat>, nextId: nat, j: nat)
    requires PoolInv(p, dealloc, freed, nextId) && IdleAt(p, j)
    ensures PoolInv(Assign(p, j), dealloc, freed, nextId)
    ensures Count(Assign(p, j).state, IsIdle) + 1 == Count(p.state, IsIdle)
  {
    CountUpdate(p.state, IsIdle, j, BUSY);
    CountUpdate(p.state, IsRunning, j, BUSY);
    assert 0 <= (p.next + 1) % p.max < p.max;
  }

  /** The assigned worker was free, so no other thread holds it. */
  lemma AssignHolders(p: Pool, threads: seq<Pc>, t: nat, j: nat, pc: Pc)
    requires PoolOk(p) && HoldersOk(p, threads) && t < |threads| && IdleAt(p, j)
    requires forall i :: 0 <= i < p.max && p.state[i] == BUSY ==> p.worker[i].Worker?
    requires forall i, k :: 0 <= i < k < |p.worker| && p.worker[i].Worker? ==> p.worker[i] != p.worker[k]
    requires Hold(threads[t]) == Null && Hold(pc) == p.worker[j]
    ensures HoldersOk(Assign(p, j), threads[t := pc])
  {
    var q, threads' := Assign(p, j), threads[t := pc];
    Unique(p.worker, j);
    assert forall u :: 0 <= u < |threads| ==> Hold(threads[u]) != p.worker[j];
    forall i | 0 <= i < q.max && q.state[i] == BUSY ensures HeldBy(q.worker[i], threads') {
      if i == j {
        assert Hold(threads'[t]) == p.worker[j];
      } else {
        var u :| 0 <= u < |threads| && Hold(threads[u]) == p.worker[i];
        assert Hold(threads'[u]) == p.worker[i];
      }
    }
  }

  lemma ChooseKeeps(s: System, s': System, t: nat)
    requires Inv(s) && t < |s.threads| && s.threads[t].Reserved? && ChooseStep(s, s', t)
    ensures Inv(s')
  {
    assert PcOk(s.threads[t], s.pool, s.dealloc);
    if s.pool.stop || forall j :: 0 <= j < s.pool.max ==> s.pool.state[j] != IDLE {
      MoveKeeps(s, t, Post(s.pool), Outside, s.dealloc);
    } else {
      var cb, j: nat :| Chosen(s.pool, cb, j)
        && s' == Go(s, t, Assign(s.pool, j), Checking(s.pool.worker[j].id, s.threads[t].tries));
      AssignKeeps(s, t, j);
    }
  }

  lemma AssignKeeps(s: System, t: nat, j: nat)
    requires Inv(s) && t < |s.threads| && s.threads[t].Reserved? && IdleAt(s.pool, j) && !s.pool.stop
    ensures Inv(Go(s, t, Assign(s.pool, j), Checking(s.pool.worker[j].id, s.threads[t].tries)))
  {
    assert PcOk(s.threads[t], s.pool, s.dealloc);
    var pc := Checking(s.pool.worker[j].id, s.threads[t].tries);
    AssignPool(s.pool, s.dealloc, s.freed, s.nextId, j);
    AssignHolders(s.pool, s.threads, t, j, pc);
    CountUpdate(s.threads, HasToken, t, pc);
    PhaseKept(s.pool, Assign(s.pool, j), s.threads, t, pc, s.dealloc, s.dealloc);
  }

  // ---------- giving a worker back, dead or alive ----------

  lemma RetirePool(p: Pool, dealloc: bool, freed: seq<nat>, nextId: nat, w: nat)
    requires PoolInv(p, dealloc, freed, nextId)
    requires Find(p.worker, Worker(w)) < p.max && p.state[Find(p.worker, Worker(w))] == BUSY
    ensures PoolInv(Retire(p, w), dealloc, freed + [w], nextId)
    ensures Count(Retire(p, w).state, IsIdle) == Count(p.state, IsIdle)
  {
    var i := Find(p.worker, Worker(w));
    CountUpdate(p.state, IsIdle, i, STOPPED);
    CountUpdate(p.state, IsRunning, i, STOPPED);
    OnlyAt(p.worker, i);
  }

  lemma OnlyAt(worker: seq<Handle>, i: nat)
    requires i < |worker| && worker[i].Worker?
    requires forall j, k :: 0 <= j < k < |worker| && worker[j].Worker? ==> worker[j] != worker[k]
    ensures forall k :: 0 <= k < |worker| && k != i ==> worker[k] != worker[i]
  {
    forall k | 0 <= k < |worker| && k != i ensures worker[k] != worker[i] {
      assert k < i ==> (worker[k].Worker? ==> worker[k] != worker[i]);
    }
  }

  lemma ReturnPool(p: Pool, dealloc: bool, freed: seq<nat>, nextId: nat, w: nat)
    requires PoolInv(p, dealloc, freed, nextId)
    requires Find(p.worker, Worker(w)) < p.max && p.state[Find(p.worker, Worker(w))] == BUSY
    ensures PoolInv(Return(p, w), dealloc, freed, nextId)
    ensures Count(Return(p, w).state, IsIdle) == Count(p.state, IsIdle) + 1
  {
    var i := Find(p.worker, Worker(w));
    CountUpdate(p.state, IsIdle, i, IDLE);
    CountUpdate(p.state, IsRunning, i, IDLE);
  }

  /** One thread gives up its worker, whose slot is no longer busy; everything else stays. */
  lemma GiveUp(p: Pool, q: Pool, threads: seq<Pc>, t: nat, pc: Pc, i: nat)
    requires |p.state| == |p.worker| == p.max && HoldersOk(p, threads) && t < |threads| && i < p.max
    requires |q.state| == |q.worker| == q.max == p.max && q.state[i] != BUSY && Hold(pc) == Null
    requires Hold(threads[t]) == p.worker[i] && p.worker[i].Worker?
    requires forall k :: 0 <= k < p.max && k != i ==>
               q.state[k] == p.state[k] && q.worker[k] == p.worker[k] != p.worker[i]
    requires forall j, k :: 0 <= j < k < |q.worker| && q.worker[j].Worker? ==> q.worker[j] != q.worker[k]
    ensures HoldersOk(q, threads[t := pc])
  {
    var threads' := threads[t := pc];
    forall u | 0 <= u < |threads'| && Hold(threads'[u]).Worker?
      ensures Find(q.worker, Hold(threads'[u])) < q.max && q.state[Find(q.worker, Hold(threads'[u]))] == BUSY {
      assert u != t && threads'[u] == threads[u];
      assert Hold(threads[u]) != Hold(threads[t]);
      var k := Find(p.worker, Hold(threads[u]));
      Unique(q.worker, k);
    }
    forall k | 0 <= k < q.max && q.state[k] == BUSY ensures HeldBy(q.worker[k], threads') {
      var u :| 0 <= u < |threads| && Hold(threads[u]) == p.worker[k];
      assert Hold(threads'[u]) == q.worker[k];
    }
  }

  /** A dead worker is removed by the thread that holds it. */
  lemma RetireKeeps(s: System, t: nat, w: nat, pc: Pc)
    requires Inv(s) && t < |s.threads| && Hold(s.threads[t]) == Worker(w) && Hold(pc) == Null && !HasToken(pc)
    requires PcOk(pc, s.pool, s.dealloc)
    ensures Inv(Go(s, t, Retire(s.pool, w), pc).(freed := s.freed + [w]))
  {
    var i := Find(s.pool.worker, Worker(w));
    RetirePool(s.pool, s.dealloc, s.freed, s.nextId, w);
    OnlyAt(s.pool.worker, i);
    GiveUp(s.pool, Retire(s.pool, w), s.threads, t, pc, i);
    CountUpdate(s.threads, HasToken, t, pc);
    PhaseKept(s.pool, Retire(s.pool, w), s.threads, t, pc, s.dealloc, s.dealloc);
  }

  lemma ReturnKeeps(s: System, t: nat, w: nat)
    requires Inv(s) && t < |s.threads| && Hold(s.threads[t]) == Worker(w) && !HasToken(s.threads[t])
    ensures Inv(Go(s, t, Return(s.pool, w), Posting))
  {
    var i := Find(s.pool.worker, Worker(w));
    ReturnPool(s.pool, s.dealloc, s.freed, s.nextId, w);
    OnlyAt(s.pool.worker, i);
    GiveUp(s.pool, Return(s.pool, w), s.threads, t, Posting, i);
    CountUpdate(s.threads, HasToken, t, Posting);
    PhaseKept(s.pool, Return(s.pool, w), s.threads, t, Posting, s.dealloc, s.dealloc);
  }

  lemma ReapKeeps(s: System, s': System, t: nat)
    requires Inv(s) && t < |s.threads| && s.threads[t].Reaping? && ReapStep(s, s', t)
    ensures Inv(s')
  {
    assert PcOk(s.threads[t], s.pool, s.dealloc);
    RetireKeeps(s, t, s.threads[t].w, s'.threads[t]);
  }

  lemma ReleaseKeeps(s: System, s': System, t: nat)
    requires Inv(s) && t < |s.threads| && s.threads[t].Using? && ReleaseStep(s, s', t)
    ensures Inv(s')
  {
    var w := s.threads[t].w;
    if w in s.alive { ReturnKeeps(s, t, w); } else { RetireKeeps(s, t, w, Outside); }
  }

  // ---------- deallocation ----------

  lemma FreeKeeps(s: System, s': System, t: nat)
    requires Inv(s) && t < |s.threads| && s.threads[t].Freeing? && FreeStep(s, s', t)
    ensures Inv(s')
  {
    assert PcOk(s.threads[t], s.pool, s.dealloc);
    var i, pc := s.threads[t].slot, s'.threads[t];
    if i >= s.pool.max || s.pool.worker[i].Null? {
      MoveKeeps(s, t, s.pool, pc, s.dealloc);
    } else {
      OnlyAt(s.pool.worker, i);
      CountUpdate(s.threads, HasToken, t, pc);
      HoldersKept(s.pool, s'.pool, s.threads, t, pc);
      PhaseKept(s.pool, s'.pool, s.threads, t, pc, s.dealloc, s.dealloc);
    }
  }

  // ---------- all steps ----------

  /** Steps that neither change a slot nor wait for anything in one. */
  predicate Plain(pc: Pc) {
    pc.Outside? || pc.Looking? || pc.Waiting? || pc.Checking? || pc.Posting? || pc.Stopping?
  }

  lemma PlainKeeps(s: System, s': System, t: nat)
    requires Inv(s) && t < |s.threads| && Plain(s.threads[t]) && ThreadStep(s, s', t)
    ensures Inv(s')
  {
    assert PcOk(s.threads[t], s.pool, s.dealloc);
    if s' != s {
      assert s' == Go(s, t, s'.pool, s'.threads[t]).(dealloc := s'.dealloc);
      MoveKeeps(s, t, s'.pool, s'.threads[t], s'.dealloc);
    }
  }

  lemma ThreadKeeps(s: System, s': System, t: nat)
    requires Inv(s) && t < |s.threads| && ThreadStep(s, s', t)
    ensures Inv(s')
  {
    match s.threads[t]
    case Starting(k) => { StartKeeps(s, s', t); }
    case Reserved(k) => { ChooseKeeps(s, s', t); }
    case Reaping(w, k) => { ReapKeeps(s, s', t); }
    case Using(w) => { ReleaseKeeps(s, s', t); }
    case Freeing(i) => { FreeKeeps(s, s', t); }
    case _ => { PlainKeeps(s, s', t); }
  }

  lemma InitialInv(s: System)
    requires Initial(s)
    ensures Inv(s)
  {
    CountSome(s.pool.state, IsRunning);
    CountSome(s.pool.state, IsIdle);
    CountSome(s.threads, HasToken);
  }

  lemma {:induction false} RunKeepsInv(r: seq<System>, i: nat)
    requires Run(r) && i < |r|
    ensures Inv(r[i])
  {
    if i == 0 {
      InitialInv(r[0]);
    } else {
      RunKeepsInv(r, i - 1);
      var s, s' := r[i - 1], r[i];
      assert StepAt(r, i - 1);
      if !Death(s, s') {
        var t :| 0 <= t < |s.threads| && ThreadStep(s, s', t);
        ThreadKeeps(s, s', t);
      }
    }
  }
}
