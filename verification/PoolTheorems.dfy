/** What the process pool guarantees in every reachable state, and what it does not. */
module PoolTheorems {
  import opened Basics
  import opened PoolModel
  import opened PoolInvariant
  import opened PoolEffects

  // ---------- taking a worker ----------

  lemma TokenCounted(threads: seq<Pc>, t: nat)
    requires t < |threads| && HasToken(threads[t])
    ensures Count(threads, HasToken) > 0
  {
    CountSome(threads, HasToken);
  }

  /** A slot is at least as good as all idle slots below n. */
  ghost predicate BestBelow(p: Pool, cb: Callback, n: nat, j: nat)
    requires |p.state| == |p.worker| == p.max
  {
    IdleAt(p, j) && forall k :: 0 <= k < n && IdleAt(p, k) ==> NoBetter(p, cb, k, j)
  }

  lemma {:induction false} SomeBest(p: Pool, cb: Callback, n: nat, i: nat) returns (j: nat)
    requires |p.state| == |p.worker| == p.max && i < n <= p.max && IdleAt(p, i)
    ensures BestBelow(p, cb, n, j)
  {
    if i == n - 1 && forall k :: 0 <= k < n - 1 ==> !IdleAt(p, k) {
      j := i;
    } else {
      var k :| 0 <= k < n - 1 && IdleAt(p, k);
      j := SomeBest(p, cb, n - 1, k);
      if IdleAt(p, n - 1) && !NoBetter(p, cb, n - 1, j) {
        j := n - 1;
      }
    }
  }

  /**
   A thread that got past the semaphore finds a free worker, unless the pool has been stopped: the
   case that should not happen does not. There is exactly one best worker, whatever the scores are.
   */
  lemma ReservedFindsOne(r: seq<System>, i: nat, t: nat, cb: Callback) returns (j: nat)
    requires Run(r) && i < |r| && t < |r[i].threads| && r[i].threads[t].Reserved? && !r[i].pool.stop
    ensures |r[i].pool.state| == |r[i].pool.worker| == r[i].pool.max && Chosen(r[i].pool, cb, j)
    ensures forall k: nat :: Chosen(r[i].pool, cb, k) ==> k == j
  {
    RunKeepsInv(r, i);
    var p := r[i].pool;
    TokenCounted(r[i].threads, t);
    CountSome(p.state, IsIdle);
    var k :| 0 <= k < p.max && p.state[k] == IDLE;
    assert IdleAt(p, k);
    j := SomeBest(p, cb, p.max, k);
    forall l: nat | Chosen(p, cb, l) ensures l == j {
      assert NoBetter(p, cb, l, j) && NoBetter(p, cb, j, l);
    }
  }

  /** No worker is held by two threads, and a held worker is marked busy and has not been freed. */
  lemma HeldByOne(r: seq<System>, i: nat, t: nat, u: nat)
    requires Run(r) && i < |r| && t < |r[i].threads| && u < |r[i].threads| && Hold(r[i].threads[t]).Worker?
    ensures Hold(r[i].threads[u]) == Hold(r[i].threads[t]) ==> t == u
    ensures Hold(r[i].threads[t]).id !in r[i].freed
    ensures exists k :: 0 <= k < |r[i].pool.worker| == |r[i].pool.state|
              && r[i].pool.worker[k] == Hold(r[i].threads[t]) && r[i].pool.state[k] == BUSY
  {
    RunKeepsInv(r, i);
    var s := r[i];
    assert t < u ==> (Hold(s.threads[t]) != Hold(s.threads[u]));
    assert u < t && Hold(s.threads[u]).Worker? ==> (Hold(s.threads[t]) != Hold(s.threads[u]));
    var k := Find(s.pool.worker, Hold(s.threads[t]));
    assert s.pool.worker[k] == Hold(s.threads[t]);
  }

  /** The number of running workers is right and within the limit; if there is room, there is a free slot. */
  lemma RunningWithinLimit(r: seq<System>, i: nat)
    requires Run(r) && i < |r|
    ensures r[i].pool.running == Count(r[i].pool.state, IsRunning) <= r[i].pool.max
    ensures r[i].pool.running < r[i].pool.max <==> Find(r[i].pool.state, STOPPED) < r[i].pool.max
  {
    RunKeepsInv(r, i);
    CountAll(r[i].pool.state, IsRunning);
    var n := Find(r[i].pool.state, STOPPED);
    assert n < r[i].pool.max ==> !IsRunning(r[i].pool.state[n]);
  }

  /**
   Conservation: semaphore, threads past the semaphore and threads about to post account for exactly
   the free workers, and one more after the stop.
   */
  lemma TokensConserved(r: seq<System>, i: nat)
    requires Run(r) && i < |r|
    ensures r[i].pool.sem + Count(r[i].threads, HasToken) == Count(r[i].pool.state, IsIdle) + Bit(r[i].pool.stop)
  {
    RunKeepsInv(r, i);
  }

  // ---------- shutting down ----------

  /** Nothing is taken from the pool and the stop is final. */
  ghost predicate OnlyGivenBack(p: Pool, q: Pool)
    requires |p.state| == |p.worker| == p.max
  {
    && q.stop && q.max == p.max == |q.state| == |q.worker|
    && (forall k :: 0 <= k < p.max && q.state[k] == BUSY ==> p.state[k] == BUSY)
    && (forall k :: 0 <= k < p.max && q.worker[k].Worker? ==> p.worker[k] == q.worker[k])
  }

  lemma GivesBack(s: System, s': System, t: nat)
    requires SizesOk(s) && s.pool.stop && t < |s.threads| && ThreadStep(s, s', t)
    ensures OnlyGivenBack(s.pool, s'.pool)
  {
    match s.threads[t]
    case Starting(k) => { assert s'.pool == s.pool; }
    case Reaping(w, k) => { assert s'.pool == Retire(s.pool, w); }
    case Using(w) => { assert s'.pool == Retire(s.pool, w) || s'.pool == Return(s.pool, w); }
    case Freeing(i) => { assert s'.pool.state == s.pool.state; }
    case _ => { assert s'.pool.state == s.pool.state && s'.pool.worker == s.pool.worker; }
  }

  /** After the stop no step makes a worker busy or starts one, and the stop is final. */
  lemma NoneTakenAfterStop(s: System, s': System)
    requires SizesOk(s) && Next(s, s') && s.pool.stop
    ensures OnlyGivenBack(s.pool, s'.pool)
  {
    if !Death(s, s') {
      var t :| 0 <= t < |s.threads| && ThreadStep(s, s', t);
      GivesBack(s, s', t);
    }
  }

  /** After the stop, as long as a thread waits, the semaphore is open or some thread is about to post. */
  lemma WaitersAreReleased(r: seq<System>, i: nat, t: nat)
    requires Run(r) && i < |r| && t < |r[i].threads| && r[i].threads[t].Waiting? && r[i].pool.stop
    ensures r[i].pool.sem > 0 || exists u :: 0 <= u < |r[i].threads| && HasToken(r[i].threads[u])
  {
    RunKeepsInv(r, i);
    CountSome(r[i].threads, HasToken);
  }

  /** ... and the next step of such a thread does post, and ends its call. */
  lemma TokenIsPosted(s: System, s': System, u: nat)
    requires Inv(s) && u < |s.threads| && HasToken(s.threads[u]) && s.pool.stop && ThreadStep(s, s', u)
    ensures s'.pool.sem == s.pool.sem + 1 && s'.threads[u] == Outside
  {}

  /** The workers that have been started: those in a slot and those freed. */
  ghost predicate Started(s: System, w: nat) {
    Worker(w) in s.pool.worker || w in s.freed
  }

  lemma {:induction false} FreedOnlyGrows(r: seq<System>, i: nat, j: nat, w: nat)
    requires Run(r) && i <= j < |r| && Started(r[i], w)
    ensures Started(r[j], w) && (w in r[i].freed ==> w in r[j].freed)
  {
    if i < j {
      FreedOnlyGrows(r, i, j - 1, w);
      NoneLostAt(r, j - 1, w);
    }
  }

  lemma NoneLostAt(r: seq<System>, i: nat, w: nat)
    requires Run(r) && i + 1 < |r| && Started(r[i], w)
    ensures Started(r[i + 1], w) && (w in r[i].freed ==> w in r[i + 1].freed)
  {
    RunKeepsInv(r, i);
    assert StepAt(r, i);
    NoneLost(r[i], r[i + 1], w);
  }

  lemma NoneLost(s: System, s': System, w: nat)
    requires Inv(s) && Next(s, s') && Started(s, w)
    ensures Started(s', w) && (w in s.freed ==> w in s'.freed)
  {
    if !Death(s, s') {
      var t :| 0 <= t < |s.threads| && ThreadStep(s, s', t);
      ThreadLosesNone(s, s', t, w);
    }
  }

  lemma RetireLosesNone(p: Pool, w: nat, v: nat)
    requires |p.state| == |p.worker| == p.max && Worker(v) in p.worker
    ensures v == w || Worker(v) in Retire(p, w).worker
  {
    var k :| 0 <= k < p.max && p.worker[k] == Worker(v);
    assert v != w ==> Retire(p, w).worker[k] == Worker(v);
  }

  lemma StartLosesNone(p: Pool, id: nat, ok: bool, v: nat, dealloc: bool)
    requires |p.state| == |p.worker| == p.max && SlotsOk(p, dealloc) && Worker(v) in p.worker
    ensures Worker(v) in Start(p, id, ok).worker
  {
    var k :| 0 <= k < p.max && p.worker[k] == Worker(v);
    assert p.state[k] != STOPPED;
    assert Start(p, id, ok).worker[k] == Worker(v);
  }

  lemma FreeLosesNone(worker: seq<Handle>, i: nat, v: nat)
    requires i < |worker| && Worker(v) in worker
    ensures worker[i] == Worker(v) || Worker(v) in worker[i := Null]
  {
    var k :| 0 <= k < |worker| && worker[k] == Worker(v);
    assert k != i ==> worker[i := Null][k] == Worker(v);
  }

  lemma ThreadLosesNone(s: System, s': System, t: nat, w: nat)
    requires Inv(s) && t < |s.threads| && ThreadStep(s, s', t) && Started(s, w)
    ensures Started(s', w) && (w in s.freed ==> w in s'.freed)
  {
    if w !in s.freed {
      match s.threads[t]
      case Starting(k) => {
        StartLosesNone(s.pool, s.nextId, true, w, s.dealloc);
        StartLosesNone(s.pool, s.nextId, false, w, s.dealloc);
      }
      case Reaping(v, k) => { RetireLosesNone(s.pool, v, w); }
      case Using(v) => { RetireLosesNone(s.pool, v, w); }
      case Freeing(i) => { if i < s.pool.max { FreeLosesNone(s.pool.worker, i, w); } }
      case _ => { assert s'.pool.worker == s.pool.worker; }
    }
  }

  /** When the deallocation is complete, every worker ever started has been freed exactly once. */
  lemma AllFreedOnce(r: seq<System>, i: nat, j: nat, t: nat, w: nat)
    requires Run(r) && i <= j < |r| && Started(r[i], w)
    requires t < |r[j].threads| && r[j].threads[t].Freeing? && r[j].threads[t].slot >= r[j].pool.max
    ensures exists k :: 0 <= k < |r[j].freed| && r[j].freed[k] == w
                        && forall l :: 0 <= l < |r[j].freed| && l != k ==> r[j].freed[l] != w
  {
    FreedOnlyGrows(r, i, j, w);
    RunKeepsInv(r, j);
    var s := r[j];
    assert PcOk(s.threads[t], s.pool, s.dealloc);
    assert Worker(w) !in s.pool.worker;
    var k :| 0 <= k < |s.freed| && s.freed[k] == w;
    forall l | 0 <= l < |s.freed| && l != k ensures s.freed[l] != w {
      assert l < k ==> (s.freed[l] != s.freed[k]);
      assert k < l ==> (s.freed[k] != s.freed[l]);
    }
  }

  /** Nothing is freed by the deallocation while a thread holds it: then no thread holds anything. */
  lemma NothingHeldAtDeallocation(r: seq<System>, i: nat, t: nat)
    requires Run(r) && i < |r| && r[i].dealloc && t < |r[i].threads|
    ensures Hold(r[i].threads[t]) == Null
  {
    RunKeepsInv(r, i);
  }

  // ---------- what is not guaranteed ----------

  /** Nobody is inside the pool except to wait, and nobody holds a worker. */
  ghost predicate Quiet(s: System) {
    forall t :: 0 <= t < |s.threads| ==> s.threads[t].Outside? || s.threads[t].Waiting?
  }

  /** In such a state the semaphore is closed exactly if no worker runs and the pool has not been stopped. */
  lemma QuietSemaphore(r: seq<System>, i: nat)
    requires Run(r) && i < |r| && Quiet(r[i])
    ensures r[i].pool.sem == 0 <==> r[i].pool.running == 0 && !r[i].pool.stop
  {
    RunKeepsInv(r, i);
    var s := r[i];
    CountSome(s.threads, HasToken);
    CountSome(s.pool.state, IsIdle);
    CountSome(s.pool.state, IsRunning);
    forall k | 0 <= k < s.pool.max ensures s.pool.state[k] != BUSY {
      assert s.pool.state[k] == BUSY ==> HeldBy(s.pool.worker[k], s.threads);
    }
    assert forall k :: 0 <= k < s.pool.max ==> (IsRunning(s.pool.state[k]) <==> IsIdle(s.pool.state[k]));
  }

  /** No thread outside the pool enters it, or stops it, in step j. */
  ghost predicate NobodyEnters(r: seq<System>, j: nat)
    requires j < |r| - 1
  {
    |r[j + 1].threads| == |r[j].threads|
    && forall t :: 0 <= t < |r[j].threads| && r[j].threads[t] == Outside ==> r[j + 1].threads[t] == Outside
  }

  ghost predicate Continues(r: seq<System>, q: seq<System>, i: nat)
    requires i < |r|
  {
    Run(q) && i < |q| && q[..i + 1] == r[..i + 1] && forall j :: i <= j < |q| - 1 ==> NobodyEnters(q, j)
  }

  /** The last state still has thread t waiting. */
  ghost predicate StillWaits(q: seq<System>, t: nat) {
    q != [] && t < |q[|q| - 1].threads| && q[|q| - 1].threads[t].Waiting?
  }

  /** Whatever happens after state i, as long as nobody enters the pool: thread t still waits. */
  ghost predicate WaitsForEver(r: seq<System>, i: nat, t: nat)
    requires i < |r|
  {
    forall q :: Continues(r, q, i) ==> StillWaits(q, t)
  }

  /** While the semaphore is closed and nobody enters, workers may die, but nothing else happens. */
  lemma {:induction false} NothingMoves(q: seq<System>, i: nat, j: nat)
    requires Run(q) && i <= j < |q| && Quiet(q[i]) && q[i].pool.sem == 0
    requires forall k :: i <= k < |q| - 1 ==> NobodyEnters(q, k)
    ensures q[j].threads == q[i].threads && q[j].pool == q[i].pool
    decreases j - i
  {
    if i < j {
      NothingMoves(q, i, j - 1);
      var s, s' := q[j - 1], q[j];
      assert StepAt(q, j - 1) && NobodyEnters(q, j - 1);
      forall t | 0 <= t < |s.threads| ensures ThreadStep(s, s', t) ==> s'.pool == s.pool && s'.threads == s.threads {}
    }
  }

  /**
   Releasing a dead worker posts nothing. If nobody is inside the pool except to wait, a waiting thread
   waits for ever, until another one enters or stops the pool, exactly if no worker is running and the
   pool has not been stopped.
   */
  lemma WaitersStuckIff(r: seq<System>, i: nat, t: nat)
    requires Run(r) && i < |r| && Quiet(r[i]) && t < |r[i].threads| && r[i].threads[t].Waiting?
    ensures WaitsForEver(r, i, t) <==> r[i].pool.running == 0 && !r[i].pool.stop
  {
    QuietSemaphore(r, i);
    if r[i].pool.sem == 0 {
      forall q | Continues(r, q, i) ensures StillWaits(q, t) {
        assert q[i] == q[..i + 1][i] == r[..i + 1][i] == r[i];
        NothingMoves(q, i, |q| - 1);
      }
    } else {
      GoesOn(r, i, t);
    }
  }

  /** With the semaphore open, the thread's next step takes from it. */
  lemma GoesOn(r: seq<System>, i: nat, t: nat)
    requires Run(r) && i < |r| && t < |r[i].threads| && r[i].threads[t].Waiting? && r[i].pool.sem > 0
    ensures !WaitsForEver(r, i, t)
  {
    RunKeepsInv(r, i);
    var s := r[i];
    var p, s' := r[..i + 1], Go(s, t, s.pool.(sem := s.pool.sem - 1), Reserved(s.threads[t].tries));
    assert p[i] == s;
    forall j | 0 <= j < |p| - 1 ensures StepAt(p, j) { assert StepAt(r, j); }
    assert Run(p) && ThreadStep(s, s', t);
    var q := Move(p, t, s');
    assert q[..i + 1] == p;
    forall j | i <= j < |q| - 1 ensures NobodyEnters(q, j) { assert q[j] == s && q[j + 1] == s'; }
    assert Continues(r, q, i) && q[|q| - 1] == s';
  }

  lemma Extend(r: seq<System>, s: System)
    requires Run(r) && SizesOk(r[|r| - 1]) && Next(r[|r| - 1], s)
    ensures Run(r + [s])
  {
    var r' := r + [s];
    forall i | 0 <= i < |r'| - 1 ensures StepAt(r', i) {
      assert i < |r| - 1 ==> StepAt(r, i);
    }
  }

  /** The next state of the run, by a step of thread t. */
  lemma Move(r: seq<System>, t: nat, s: System) returns (r': seq<System>)
    requires Run(r) && SizesOk(r[|r| - 1]) && t < |r[|r| - 1].threads| && ThreadStep(r[|r| - 1], s, t)
    ensures Run(r') && r' == r + [s]
  {
    r' := r + [s];
    Extend(r, s);
  }

  // ---------- trying again ----------

  predicate Trying(pc: Pc) {
    pc.Looking? || pc.Starting? || pc.Waiting? || pc.Reserved? || pc.Checking? || pc.Reaping?
  }

  predicate TryingAt(s: System, t: nat) {
    t < |s.threads| && Trying(s.threads[t])
  }

  /** How many dead workers the thread has removed since it asked for a worker. */
  function Removed(r: seq<System>, i: nat, t: nat): nat
    requires i < |r|
  {
    if i == 0 || !TryingAt(r[i], t) || !TryingAt(r[i - 1], t) then 0
    else
      Removed(r, i - 1, t)
      + if r[i - 1].threads[t].Reaping? && r[i].threads[t] != r[i - 1].threads[t] then 1 else 0
  }

  /** What one step means for a thread that is trying. */
  ghost predicate Counts(s: System, s': System, t: nat)
    requires t < |s.threads| == |s'.threads|
  {
    var pc, pc' := s.threads[t], s'.threads[t];
    && (Trying(pc') && Trying(pc) ==> pc'.tries == pc.tries + if pc.Reaping? && pc' != pc then 1 else 0)
    && (Trying(pc') && Trying(pc) && pc'.tries != pc.tries ==> pc.tries < s.pool.max)
    && (Trying(pc') && !Trying(pc) ==> pc'.tries == 0)
  }

  lemma OwnStep(s: System, s': System, t: nat)
    requires SizesOk(s) && t < |s.threads| && ThreadStep(s, s', t)
    ensures |s'.threads| == |s.threads| && Counts(s, s', t)
  {}

  lemma AnyStep(s: System, s': System, u: nat)
    requires SizesOk(s) && u < |s.threads| && ThreadStep(s, s', u)
    ensures s'.pool.max == s.pool.max && |s'.threads| == |s.threads|
    ensures forall t :: 0 <= t < |s.threads| && t != u ==> s'.threads[t] == s.threads[t]
  {}

  lemma TryingStep(s: System, s': System, t: nat)
    requires SizesOk(s) && Next(s, s') && t < |s.threads|
    ensures |s'.threads| == |s.threads| && s'.pool.max == s.pool.max && Counts(s, s', t)
  {
    if !Death(s, s') {
      var u :| 0 <= u < |s.threads| && ThreadStep(s, s', u);
      AnyStep(s, s', u);
      if u == t { OwnStep(s, s', t); }
    }
  }

  lemma {:induction false} TriesAreRemoved(r: seq<System>, i: nat, t: nat)
    requires Run(r) && i < |r| && TryingAt(r[i], t)
    ensures r[i].threads[t].tries == Removed(r, i, t) <= r[i].pool.max
  {
    if i > 0 {
      assert StepAt(r, i - 1);
      SameThreads(r, i);
      TryingStep(r[i - 1], r[i], t);
      if TryingAt(r[i - 1], t) { TriesAreRemoved(r, i - 1, t); }
    }
  }

  lemma SameThreads(r: seq<System>, i: nat)
    requires Run(r) && 0 < i < |r|
    ensures |r[i].threads| == |r[i - 1].threads|
  {
    assert StepAt(r, i - 1);
    if !Death(r[i - 1], r[i]) {
      var u :| 0 <= u < |r[i - 1].threads| && ThreadStep(r[i - 1], r[i], u);
      AnyStep(r[i - 1], r[i], u);
    }
  }

  /**
   In every run a thread that asks for a worker goes away without one only if the pool has been stopped,
   or no worker runs although it has tried to start one, or it removes its dead worker number max + 1.
   */
  lemma GivesUpOnlyIf(r: seq<System>, i: nat, t: nat)
    requires Run(r) && i < |r| - 1 && TryingAt(r[i], t)
    requires t < |r[i + 1].threads| && r[i + 1].threads[t] == Outside
    ensures r[i].pool.stop || (r[i].threads[t].Starting? && r[i + 1].pool.running == 0)
            || (r[i].threads[t].Reaping? && Removed(r, i, t) == r[i].pool.max)
  {
    RunKeepsInv(r, i);
    TriesAreRemoved(r, i, t);
    assert StepAt(r, i);
    var u :| 0 <= u < |r[i].threads| && ThreadStep(r[i], r[i + 1], u);
    AnyStep(r[i], r[i + 1], u);
    if u == t && r[i].threads[t].Reserved? && !r[i].pool.stop {
      var j := ReservedFindsOne(r, i, t, NoCallback);
    }
  }

  // ---------- below the limit ----------

  /**
   In every reachable state below the limit: a thread that has found no free worker can start one, so
   that there is one more, announced on the semaphore.
   */
  lemma StarterCanStart(r: seq<System>, i: nat, t: nat) returns (q: seq<System>)
    requires Run(r) && i < |r| && t < |r[i].threads| && r[i].threads[t].Starting?
    requires r[i].pool.running < r[i].pool.max && !r[i].pool.stop
    ensures Run(q) && |q| == i + 2 && q[..i + 1] == r[..i + 1]
    ensures SizesOk(r[i]) && OneStarted(r[i].pool, q[i + 1].pool, r[i].nextId)
    ensures Count(q[i + 1].pool.state, IsIdle) == Count(r[i].pool.state, IsIdle) + 1
    ensures q[i + 1].threads == r[i].threads[t := Waiting(r[i].threads[t].tries)] && r[i].nextId in q[i + 1].alive
  {
    RunKeepsInv(r, i);
    var s := r[i];
    StartEffect(s.pool, s.dealloc, s.freed, s.nextId, true);
    var p := Start(s.pool, s.nextId, true);
    var s' := Go(s, t, p, Waiting(s.threads[t].tries)).(alive := s.alive + {s.nextId}, nextId := s.nextId + 1);
    StartPool(s.pool, s.dealloc, s.freed, s.nextId, true);
    CountSome(s.pool.state, IsRunning);
    assert p.running > 0;
    assert StartStep(s, s', t) && ThreadStep(s, s', t);
    Prefix(r, i);
    q := Move(r[..i + 1], t, s');
  }

  lemma Prefix(r: seq<System>, i: nat)
    requires Run(r) && i < |r|
    ensures Run(r[..i + 1]) && r[..i + 1][i] == r[i]
  {
    var p := r[..i + 1];
    forall j | 0 <= j < |p| - 1 ensures StepAt(p, j) { assert StepAt(r, j); }
  }

  /** ... and if no other thread is faster, it gets the worker that it has started. */
  lemma StarterGetsWorker(r: seq<System>, i: nat, t: nat) returns (q: seq<System>)
    requires Run(r) && i < |r| && t < |r[i].threads| && r[i].threads[t].Starting?
    requires r[i].pool.running < r[i].pool.max && !r[i].pool.stop
    ensures Run(q) && |q| == i + 5 && q[..i + 1] == r[..i + 1]
    ensures q[i + 4].threads == r[i].threads[t := Using(r[i].nextId)]
  {
    q := StarterCanStart(r, i, t);
    var id := r[i].nextId;
    var p, last := q, q[i + 1];
    assert p[|p| - 1] == last && last.threads[t].Waiting?;
    var slot := StartedSlot(r[i].pool, last.pool, id);
    q := WaiterGets(p, t, slot, id);
    assert q[..i + 1] == p[..i + 1];
  }

  /** A thread that comes while no worker is free can have a new one, in every state below the limit. */
  lemma NewcomerGetsWorker(r: seq<System>, i: nat, t: nat) returns (q: seq<System>)
    requires Run(r) && i < |r| && t < |r[i].threads| && r[i].threads[t] == Outside
    requires r[i].pool.running < r[i].pool.max && !r[i].pool.stop && r[i].pool.sem == 0
    ensures Run(q) && |q| == i + 7 && q[..i + 1] == r[..i + 1]
    ensures q[i + 6].threads == r[i].threads[t := Using(r[i].nextId)]
  {
    RunKeepsInv(r, i);
    Prefix(r, i);
    var p := Move(r[..i + 1], t, Go(r[i], t, r[i].pool, Looking(0)));
    p := Move(p, t, Go(p[i + 1], t, r[i].pool, Starting(0)));
    q := StarterGetsWorker(p, i + 2, t);
    assert q[..i + 1] == q[..i + 3][..i + 1] == p[..i + 1];
  }

  /** A thread that waits while the semaphore is open can get any live worker that is free. */
  lemma WaiterGets(r: seq<System>, t: nat, slot: nat, id: nat) returns (q: seq<System>)
    requires Run(r) && t < |r[|r| - 1].threads| && r[|r| - 1].threads[t].Waiting?
    requires var s := r[|r| - 1];
             && s.pool.sem > 0 && !s.pool.stop && slot < s.pool.max && id in s.alive
             && |s.pool.state| == |s.pool.worker| == s.pool.max
             && s.pool.state[slot] == IDLE && s.pool.worker[slot] == Worker(id)
    ensures Run(q) && |q| == |r| + 3 && r <= q
    ensures q[|r| + 2].threads == r[|r| - 1].threads[t := Using(id)]
  {
    RunKeepsInv(r, |r| - 1);
    var s1 := r[|r| - 1];
    var k := s1.threads[t].tries;
    var s2 := Go(s1, t, s1.pool.(sem := s1.pool.sem - 1), Reserved(k));
    var s3 := Go(s2, t, Assign(s2.pool, slot), Checking(id, k));
    var s4 := Go(s3, t, s3.pool, Using(id));
    var cb := Score((w: nat) => if w == id then 1 else 0);
    OnlyNewScores(s2.pool, slot, id);
    assert ThreadStep(s1, s2, t);
    q := Move(r, t, s2);
    assert Chosen(s2.pool, cb, slot) && ChooseStep(s2, s3, t);
    q := Move(q, t, s3);
    q := Move(q, t, s4);
  }

  lemma OnlyNewScores(p: Pool, slot: nat, id: nat)
    requires |p.state| == |p.worker| == p.max && slot < p.max && p.state[slot] == IDLE && p.worker[slot] == Worker(id)
    requires forall i, j :: 0 <= i < j < |p.worker| && p.worker[i].Worker? ==> p.worker[i] != p.worker[j]
    ensures Chosen(p, Score((w: nat) => if w == id then 1 else 0), slot)
  {
    forall k | 0 <= k < p.max && IdleAt(p, k)
      ensures NoBetter(p, Score((w: nat) => if w == id then 1 else 0), k, slot)
    {
      if k != slot { assert p.worker[k] != p.worker[slot]; }
    }
  }

  const Empty: Pool := Pool(1, [Null], [STOPPED], 0, 0, 0, false)
  const Busy: Pool := Pool(1, [Worker(0)], [BUSY], 1, 0, 0, false)

  const Idle: Pool := Pool(1, [Worker(0)], [IDLE], 1, 1, 0, false)

  /** The first thread starts the only worker. */
  lemma FirstThreadStartsIt() returns (r: seq<System>)
    ensures Run(r) && r[|r| - 1] == System(Idle, [Waiting(0), Outside], {0}, [], 1, false)
  {
    r := [System(Empty, [Outside, Outside], {}, [], 0, false)];
    assert Empty.worker == seq(1, _ => Null) && Empty.state == seq(1, _ => STOPPED);
    r := Move(r, 0, System(Empty, [Looking(0), Outside], {}, [], 0, false));
    r := Move(r, 0, System(Empty, [Starting(0), Outside], {}, [], 0, false));
    assert Start(Empty, 0, true) == Idle;
    r := Move(r, 0, System(Idle, [Waiting(0), Outside], {0}, [], 1, false));
  }

  /** ... and takes it. */
  lemma FirstThreadTakesIt() returns (r: seq<System>)
    ensures Run(r) && r[|r| - 1] == System(Busy, [Using(0), Outside], {0}, [], 1, false)
  {
    r := FirstThreadStartsIt();
    r := Move(r, 0, System(Idle.(sem := 0), [Reserved(0), Outside], {0}, [], 1, false));
    assert Idle.(sem := 0).state[0] == IDLE && Chosen(Idle.(sem := 0), NoCallback, 0);
    assert Assign(Idle.(sem := 0), 0) == Busy;
    r := Move(r, 0, System(Busy, [Checking(0, 0), Outside], {0}, [], 1, false));
    r := Move(r, 0, System(Busy, [Using(0), Outside], {0}, [], 1, false));
  }

  /** The second thread cannot start another one, and waits. */
  lemma SecondThreadWaits() returns (r: seq<System>)
    ensures Run(r) && r[|r| - 1] == System(Busy, [Using(0), Waiting(0)], {0, 1}, [], 2, false)
  {
    r := FirstThreadTakesIt();
    r := Move(r, 1, System(Busy, [Using(0), Looking(0)], {0}, [], 1, false));
    r := Move(r, 1, System(Busy, [Using(0), Starting(0)], {0}, [], 1, false));
    assert Start(Busy, 1, true) == Busy;
    r := Move(r, 1, System(Busy, [Using(0), Waiting(0)], {0, 1}, [], 2, false));
  }

  /** It does happen: one worker, two threads, and the worker dies while the second thread waits for it. */
  lemma StrandedWaiter() returns (r: seq<System>)
    ensures Run(r) && Quiet(r[|r| - 1]) && r[|r| - 1].pool.sem == 0
    ensures r[|r| - 1] == System(Empty, [Outside, Waiting(0)], {1}, [0], 2, false)
    ensures WaitsForEver(r, |r| - 1, 1)
  {
    r := SecondThreadWaits();
    var s, s' := r[|r| - 1], System(Busy, [Using(0), Waiting(0)], {1}, [], 2, false);
    assert 0 in s.alive && s' == s.(alive := s.alive - {0});
    Extend(r, s');
    r := r + [s'];
    assert Retire(Busy, 0) == Empty;
    r := Move(r, 0, System(Empty, [Outside, Waiting(0)], {1}, [0], 2, false));
    WaitersStuckIff(r, |r| - 1, 1);
  }

  /** A thread that comes later can start a new worker, and so release the stranded one. */
  lemma NewcomerReleases() returns (r: seq<System>, i: nat)
    ensures Run(r) && i < |r| && Quiet(r[i]) && WaitsForEver(r, i, 1)
    ensures |r[|r| - 1].threads| == 2 && r[|r| - 1].threads[1].Reserved?
  {
    var before := StrandedWaiter();
    i := |before| - 1;
    var fresh' := Pool(1, [Worker(2)], [IDLE], 1, 1, 0, false);
    r := NewcomerStarts(before, fresh');
    r := Move(r, 1, System(fresh'.(sem := 0), [Waiting(0), Reserved(0)], {1, 2}, [0], 3, false));
    SamePast(before, r, i, 1);
  }

  lemma NewcomerStarts(before: seq<System>, pool: Pool) returns (r: seq<System>)
    requires Run(before) && before[|before| - 1] == System(Empty, [Outside, Waiting(0)], {1}, [0], 2, false)
    requires pool == Pool(1, [Worker(2)], [IDLE], 1, 1, 0, false)
    ensures Run(r) && before <= r
    ensures r[|r| - 1] == System(pool, [Waiting(0), Waiting(0)], {1, 2}, [0], 3, false)
  {
    r := Move(before, 0, System(Empty, [Looking(0), Waiting(0)], {1}, [0], 2, false));
    r := Move(r, 0, System(Empty, [Starting(0), Waiting(0)], {1}, [0], 2, false));
    assert Start(Empty, 2, true) == pool;
    r := Move(r, 0, System(pool, [Waiting(0), Waiting(0)], {1, 2}, [0], 3, false));
  }

  lemma SamePast(r: seq<System>, q: seq<System>, i: nat, t: nat)
    requires i < |r| <= |q| && q[..|r|] == r && WaitsForEver(r, i, t)
    ensures q[i] == r[i] && WaitsForEver(q, i, t)
  {
    assert q[..i + 1] == q[..|r|][..i + 1] == r[..i + 1];
    assert q[i] == q[..|r|][i];
    forall p | Continues(q, p, i) ensures StillWaits(p, t) {
      assert Continues(r, p, i);
    }
  }
}
