/**
 The process pool (src/util/process_pool.c) as a state machine. Any number of threads take and
 return workers; each step is one critical section, one operation on the semaphore or one look at
 a worker. Workers may die at any time, and one thread may shut the pool down.
 */
module PoolModel {
  import opened Basics

  datatype WorkerState = IDLE | BUSY | STOPPED

  /** An entry of the array of worker pointers. Workers are numbered in the order they are started. */
  datatype Handle = Null | Worker(id: nat)

  datatype Pool = Pool(max: nat, worker: seq<Handle>, state: seq<WorkerState>, running: int, sem: nat, next: nat,
                       stop: bool)

  /** Where a thread is. `tries` counts the dead workers it has met in this call. */
  datatype Pc =
    | Outside
    | Looking(tries: nat)
    | Starting(tries: nat)
    | Waiting(tries: nat)
    | Reserved(tries: nat)
    | Checking(w: nat, tries: nat)
    | Reaping(w: nat, tries: nat)
    | Using(w: nat)
    | Posting
    | Stopping
    | Freeing(slot: nat)

  /** `freed` lists the workers whose resources have been freed, in order. */
  datatype System = System(pool: Pool, threads: seq<Pc>, alive: set<nat>, freed: seq<nat>, nextId: nat, dealloc: bool)

  datatype Callback = NoCallback | Score(score: nat -> nat)

  // ---------- counting ----------

  function Count<T>(s: seq<T>, p: T -> bool): (n: nat)
    ensures n <= |s|
  {
    if s == [] then 0 else (if p(s[0]) then 1 else 0) + Count(s[1..], p)
  }

  lemma {:induction false} CountUpdate<T>(s: seq<T>, p: T -> bool, i: nat, x: T)
    requires i < |s|
    ensures Count(s[i := x], p) == Count(s, p) - Bit(p(s[i])) + Bit(p(x))
  {
    if i == 0 {
      assert s[0 := x][1..] == s[1..];
    } else {
      assert s[i := x][1..] == s[1..][i - 1 := x];
      CountUpdate(s[1..], p, i - 1, x);
    }
  }

  lemma {:induction false} CountSome<T>(s: seq<T>, p: T -> bool)
    ensures Count(s, p) == 0 <==> forall i :: 0 <= i < |s| ==> !p(s[i])
  {
    if s != [] {
      CountSome(s[1..], p);
      assert forall i :: 0 <= i < |s[1..]| ==> s[1..][i] == s[i + 1];
      assert forall i :: 1 <= i < |s| ==> s[i] == s[1..][i - 1];
    }
  }

  lemma {:induction false} CountAll<T>(s: seq<T>, p: T -> bool)
    ensures Count(s, p) == |s| <==> forall i :: 0 <= i < |s| ==> p(s[i])
  {
    if s != [] {
      CountAll(s[1..], p);
      assert forall i :: 0 <= i < |s[1..]| ==> s[1..][i] == s[i + 1];
      assert forall i :: 1 <= i < |s| ==> s[i] == s[1..][i - 1];
    }
  }

  // ---------- the critical sections ----------

  /** The first slot that holds x, or the number of slots. */
  function Find<T(==)>(s: seq<T>, x: T): (i: nat)
    ensures i <= |s| && (i < |s| ==> s[i] == x)
    ensures forall j :: 0 <= j < i ==> s[j] != x
  {
    if s == [] || s[0] == x then 0 else 1 + Find(s[1..], x)
  }

  /** Starting a worker under the lock: refused if the pool is full or has been stopped. */
  function Start(p: Pool, id: nat, ok: bool): Pool
    requires |p.state| == |p.worker| == p.max
  {
    var i := Find(p.state, STOPPED);
    if p.running < p.max && !p.stop && i < p.max && ok
    then p.(worker := p.worker[i := Worker(id)], state := p.state[i := IDLE],
            running := p.running + 1, sem := p.sem + 1)
    else p
  }

  /** Position of slot j in the order in which free workers are considered. */
  function Turn(p: Pool, j: nat): int {
    if j >= p.next then j - p.next else j - p.next + p.max
  }

  predicate IdleAt(p: Pool, j: nat)
    requires |p.state| == |p.worker| == p.max
  {
    j < p.max && p.state[j] == IDLE && p.worker[j].Worker?
  }

  /** Slot k is not better than slot j: it has a lower score, or the same one and a later turn. */
  predicate NoBetter(p: Pool, cb: Callback, k: nat, j: nat)
    requires |p.state| == |p.worker| == p.max && IdleAt(p, k) && IdleAt(p, j)
  {
    match cb
    case NoCallback => Turn(p, k) >= Turn(p, j)
    case Score(f) =>
      f(p.worker[k].id) < f(p.worker[j].id)
      || (f(p.worker[k].id) == f(p.worker[j].id) && Turn(p, k) >= Turn(p, j))
  }

  /** The worker to use: the best free one. */
  ghost predicate Chosen(p: Pool, cb: Callback, j: nat)
    requires |p.state| == |p.worker| == p.max
  {
    IdleAt(p, j) && forall k :: 0 <= k < p.max && IdleAt(p, k) ==> NoBetter(p, cb, k, j)
  }

  function Assign(p: Pool, j: nat): Pool
    requires |p.state| == |p.worker| == p.max && j < p.max
  {
    p.(state := p.state[j := BUSY], next := (p.next + 1) % p.max)
  }

  /** A dead worker is removed from its slot. Nothing is posted. */
  function Retire(p: Pool, w: nat): Pool
    requires |p.state| == |p.worker| == p.max
  {
    var i := Find(p.worker, Worker(w));
    if i < p.max then p.(worker := p.worker[i := Null], state := p.state[i := STOPPED], running := p.running - 1) else p
  }

  /** A worker that is still alive becomes free again. */
  function Return(p: Pool, w: nat): Pool
    requires |p.state| == |p.worker| == p.max
  {
    var i := Find(p.worker, Worker(w));
    if i < p.max then p.(state := p.state[i := IDLE]) else p
  }

  function Post(p: Pool): Pool {
    p.(sem := p.sem + 1)
  }

  // ---------- the steps ----------

  ghost predicate SizesOk(s: System) {
    |s.pool.state| == |s.pool.worker| == s.pool.max
  }

  function Go(s: System, t: nat, p: Pool, pc: Pc): System
    requires t < |s.threads|
  {
    s.(pool := p, threads := s.threads[t := pc])
  }

  predicate NoneBusy(p: Pool) {
    forall i :: 0 <= i < |p.state| ==> p.state[i] != BUSY
  }

  ghost predicate StartStep(s: System, s': System, t: nat)
    requires SizesOk(s) && t < |s.threads| && s.threads[t].Starting?
  {
    exists ok: bool ::
      var p := Start(s.pool, s.nextId, ok);
      s' == Go(s, t, p, if p.running == 0 then Outside else Waiting(s.threads[t].tries))
            .(alive := s.alive + {s.nextId}, nextId := s.nextId + 1)
  }

  ghost predicate ChooseStep(s: System, s': System, t: nat)
    requires SizesOk(s) && t < |s.threads| && s.threads[t].Reserved?
  {
    if s.pool.stop then s' == Go(s, t, Post(s.pool), Outside)
    else if forall j :: 0 <= j < s.pool.max ==> s.pool.state[j] != IDLE then s' == Go(s, t, Post(s.pool), Outside)
    else exists cb, j: nat :: Chosen(s.pool, cb, j)
           && s' == Go(s, t, Assign(s.pool, j), Checking(s.pool.worker[j].id, s.threads[t].tries))
  }

  ghost predicate ReapStep(s: System, s': System, t: nat)
    requires SizesOk(s) && t < |s.threads| && s.threads[t].Reaping?
  {
    var w, tries := s.threads[t].w, s.threads[t].tries;
    var next := if tries < s.pool.max then Looking(tries + 1) else Outside;
    s' == Go(s, t, Retire(s.pool, w), next).(freed := s.freed + [w])
  }

  ghost predicate ReleaseStep(s: System, s': System, t: nat)
    requires SizesOk(s) && t < |s.threads| && s.threads[t].Using?
  {
    var w := s.threads[t].w;
    if w in s.alive then s' == Go(s, t, Return(s.pool, w), Posting)
    else s' == Go(s, t, Retire(s.pool, w), Outside).(freed := s.freed + [w])
  }

  ghost predicate FreeStep(s: System, s': System, t: nat)
    requires SizesOk(s) && t < |s.threads| && s.threads[t].Freeing?
  {
    var i := s.threads[t].slot;
    if i >= s.pool.max then s' == Go(s, t, s.pool, Outside)
    else if s.pool.worker[i].Null? then s' == Go(s, t, s.pool, Freeing(i + 1))
    else s' == Go(s, t, s.pool.(worker := s.pool.worker[i := Null]), Freeing(i + 1))
               .(freed := s.freed + [s.pool.worker[i].id])
  }

  ghost predicate ThreadStep(s: System, s': System, t: nat)
    requires SizesOk(s) && t < |s.threads|
  {
    match s.threads[t]
    case Outside =>
      || s' == Go(s, t, s.pool, Looking(0))
      || (!s.pool.stop && s' == Go(s, t, Post(s.pool.(stop := true)), Stopping))
    case Looking(k) => s' == Go(s, t, s.pool, if s.pool.sem > 0 then Waiting(k) else Starting(k))
    case Starting(k) => StartStep(s, s', t)
    case Waiting(k) => s.pool.sem > 0 && s' == Go(s, t, s.pool.(sem := s.pool.sem - 1), Reserved(k))
    case Reserved(k) => ChooseStep(s, s', t)
    case Checking(w, k) => s' == Go(s, t, s.pool, if w in s.alive then Using(w) else Reaping(w, k))
    case Reaping(w, k) => ReapStep(s, s', t)
    case Using(w) => ReleaseStep(s, s', t)
    case Posting => s' == Go(s, t, Post(s.pool), Outside)
    case Stopping => s' == if NoneBusy(s.pool) then Go(s, t, s.pool, Freeing(0)).(dealloc := true) else s
    case Freeing(i) => FreeStep(s, s', t)
  }

  ghost predicate Death(s: System, s': System) {
    exists w :: w in s.alive && s' == s.(alive := s.alive - {w})
  }

  ghost predicate Next(s: System, s': System)
    requires SizesOk(s)
  {
    Death(s, s') || exists t :: 0 <= t < |s.threads| && ThreadStep(s, s', t)
  }

  ghost predicate Initial(s: System) {
    && s.pool == Pool(s.pool.max, seq(s.pool.max, _ => Null), seq(s.pool.max, _ => STOPPED), 0, 0, 0, false)
    && (forall t :: 0 <= t < |s.threads| ==> s.threads[t] == Outside)
    && s.freed == [] && !s.dealloc
  }

  ghost predicate StepAt(r: seq<System>, i: nat)
    requires i < |r| - 1
  {
    SizesOk(r[i]) && Next(r[i], r[i + 1])
  }

  ghost predicate Run(r: seq<System>) {
    && r != [] && Initial(r[0])
    && forall i :: 0 <= i < |r| - 1 ==> StepAt(r, i)
  }
}
