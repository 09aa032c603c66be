/** What the ring guarantees, in every reachable state and over whole runs. */
module RingTheorems {
  import opened Basics
  import opened SharedData
  import opened Ring
  import opened RingInvariant

  // ---------- reachability ----------

  lemma LiveEnds(s: State)
    requires Live(s) && s.r.ended && s.w.pc.Done?
    ensures Rest(s)
  {
    forall i | 0 <= i < |s.sh.buffer| ensures s.sh.buffer[i].readyForWrite <= 1 {
      assert BufferInv(s, s.sh.buffer[i], PosIn(s, i));
    }
    var first := s.r.nextBuffer;
    assert BufferInv(s, s.sh.buffer[first], 0);
    assert Flatten(Blocks(s)) == [] by {
      QueueHead(s.sh, first, 1);
      assert Block(s.sh, first) == [];
    }
    assert s.h.delivered + s.h.dropped == s.h.accepted;
    if !s.w.failed {
      assert Left(s.w.pc) + Flatten(s.w.script) == [];
    }
  }

  lemma RequestGoesLive(s: State, t: State, q: Request)
    requires Rest(s) && Opens(s, t, q)
    ensures Live(t)
  {
    RearmedKeepsLayout(s.sh);
    LayoutIgnoresStatus(Rearmed(s.sh), STATUS_OK);
    assert forall i :: 0 <= i < |t.sh.buffer| ==> BufferInv(t, t.sh.buffer[i], PosIn(t, i));
    assert Blocks(t) == [];
    assert [] + ([] + Flatten(q.script)) == Flatten(q.script);
  }

  lemma NextKeepsInv(s: State, t: State)
    requires Inv(s) && Next(s, t)
    ensures Inv(t)
  {
    if s.r.ended && s.w.pc.Done? {
      if Live(s) { LiveEnds(s); }
      if q :| Opens(s, t, q) {
        RequestGoesLive(s, t, q);
      } else if Quiescent(s) && t == FailedOpen(s) {
        RearmedKeepsLayout(s.sh);
        LayoutIgnoresStatus(Rearmed(s.sh), STATUS_OK);
      }
    } else {
      LiveStep(s, t);
    }
  }

  /** Every state of every run satisfies the invariant, through any number of requests. */
  lemma {:induction false} RunKeepsInv(run: seq<State>, i: nat)
    requires Run(run) && i < |run|
    ensures Inv(run[i])
  {
    if i > 0 {
      RunKeepsInv(run, i - 1);
      NextKeepsInv(run[i - 1], run[i]);
    }
  }

  // ---------- safety ----------

  /** A request is being served, or its stream has ended because the worker died. */
  predicate Serving(s: State) {
    !(s.r.ended && s.w.pc.Done?)
  }

  predicate WriterHas(s: State, b: nat) {
    Holds(s) && s.w.bufferNr == b
  }

  predicate ReaderHas(s: State, b: int) {
    s.r.nextBuffer == b && (s.r.pc.Own? || s.r.pc.PostWrite?)
  }

  /** Every buffer has exactly one owner: a semaphore token, or one of the two processes. */
  lemma OneOwner(run: seq<State>, i: nat, b: nat)
    requires Run(run) && i < |run| && Serving(run[i]) && b < |run[i].sh.buffer|
    ensures
      var s := run[i];
      && s.sh.buffer[b].readyForWrite + s.sh.buffer[b].readyForRead
         + Bit(WriterHas(s, b)) + Bit(ReaderHas(s, b)) == 1
      && WellLaid(s.sh)
      && s.sh.buffer[b].used <= s.sh.bufferSize
  {
    RunKeepsInv(run, i);
    assert BufferInv(run[i], run[i].sh.buffer[b], PosIn(run[i], b));
  }

  /** The buffers in flight are exactly those marked readable, plus the one being read. */
  lemma InFlightIsReadable(run: seq<State>, i: nat, b: nat)
    requires Run(run) && i < |run| && Serving(run[i]) && b < |run[i].sh.buffer|
    ensures
      var s := run[i];
      PosIn(s, b) < s.h.inFlight <==> s.sh.buffer[b].readyForRead == 1 || ReaderHas(s, b)
  {
    RunKeepsInv(run, i);
    assert BufferInv(run[i], run[i].sh.buffer[b], PosIn(run[i], b));
  }

  lemma DeliveredIsPrefix(s: State)
    requires Live(s)
    ensures s.h.delivered <= s.h.accepted <= s.h.requested
  {
    assert s.h.accepted == s.h.delivered + (Flatten(Blocks(s)) + (Partial(s) + s.h.dropped));
  }

  /** The ring is a queue: bytes arrive in order, none lost, duplicated or invented. */
  lemma FifoDelivery(run: seq<State>, i: nat)
    requires Run(run) && i < |run| && Serving(run[i])
    ensures
      var s := run[i];
      && s.h.delivered + Flatten(Blocks(s)) + Partial(s) + s.h.dropped == s.h.accepted
      && s.h.delivered <= s.h.accepted <= s.h.requested
      && (s.h.dropped != [] ==> s.r.closing)
  {
    RunKeepsInv(run, i);
    var s := run[i];
    assert s.h.delivered + Flatten(Blocks(s)) + Partial(s) + s.h.dropped == Sent(s) + (Partial(s) + s.h.dropped);
    DeliveredIsPrefix(s);
  }

  /** A block in flight is empty only if it is the end block, which is always the last. */
  lemma OneEndBlock(run: seq<State>, i: nat, p: nat)
    requires Run(run) && i < |run| && Serving(run[i]) && p < run[i].h.inFlight
    requires !run[i].r.pc.PostWrite? || p > 0
    ensures Blocks(run[i])[p] == [] <==> run[i].w.pc.Done? && p == run[i].h.inFlight - 1
  {
    RunKeepsInv(run, i);
    var s := run[i];
    var b := SlotIn(s, p);
    assert BufferInv(s, s.sh.buffer[b], PosIn(s, b));
    assert InBounds(s.sh, b);
  }

  /**
   When the end block has been read, a caller that did not cancel has every byte of every write
   call, and the code destroy was given. A caller that cancelled has a prefix, and has read at
   most NR_BUFFERS non-empty blocks since.
   */
  lemma StreamOutcome(run: seq<State>, i: nat)
    requires Run(run) && i < |run| && run[i].r.ended && run[i].w.pc.Done?
    ensures Outcome(run[i])
  {
    RunKeepsInv(run, i);
    if Live(run[i]) { LiveEnds(run[i]); }
  }

  /** The cancel bound also holds while the stream is still being drained. */
  lemma CancelIsPrompt(run: seq<State>, i: nat)
    requires Run(run) && i < |run| && run[i].r.closing
    ensures run[i].h.sinceCancel <= |run[i].sh.buffer|
  {
    RunKeepsInv(run, i);
    if Live(run[i]) && run[i].w.pc.Done? && !run[i].r.ended {
      var s := run[i];
      assert BufferInv(s, s.sh.buffer[s.r.nextBuffer], 0);
    }
  }

  /** Re-arming restores one and the same state of the semaphores, whatever the last request did. */
  lemma RearmRestores(run: seq<State>, i: nat, b: nat)
    requires Run(run) && i < |run| && Quiescent(run[i]) && b < |run[i].sh.buffer|
    ensures Rearmed(run[i].sh).buffer[b]
         == Buffer(run[i].sh.buffer[b].offset, 0, 1, 0, run[i].sh.buffer[b].status)
  {
    RunKeepsInv(run, i);
    if Live(run[i]) { LiveEnds(run[i]); }
  }

  // ---------- what the caller can tell ----------

  lemma StepKeepsRequest(s: State, t: State)
    requires Live(s) && !s.r.ended && Step(s, t)
    ensures t.h.requested == s.h.requested && t.w.okCode == s.w.okCode
    ensures t.r.ended && !t.w.pc.Done? ==> t.r.result == STATUS_ERROR
  {
    LiveIsDefined(s);
    assert BufferInv(s, s.sh.buffer[s.r.nextBuffer], PosIn(s, s.r.nextBuffer));
  }

  /** A stream that ends without the end block is reported as an error. */
  lemma {:induction false} NoEndBlockIsError(run: seq<State>, i: nat)
    requires Run(run) && i < |run| && run[i].r.ended && !run[i].w.pc.Done?
    ensures run[i].r.result == STATUS_ERROR
  {
    assert i > 0;
    var s, t := run[i - 1], run[i];
    assert Next(s, t);
    RunKeepsInv(run, i - 1);
    if !s.r.ended {
      StepKeepsRequest(s, t);
    } else if Live(s) {
      LiveIsDefined(s);
    }
  }

  /**
   From the code alone: a caller that did not cancel, and is told that all went well, has every byte,
   in every run. Whatever it is told, if it is not the error code the worker ended the stream, and the
   code is the one that it passed to destroy.
   */
  lemma SuccessMeansAll(run: seq<State>, i: nat)
    requires Run(run) && i < |run| && run[i].r.ended && !run[i].r.closing
    ensures run[i].r.result == STATUS_OK ==> run[i].h.delivered == run[i].h.requested
    ensures run[i].r.result != STATUS_ERROR ==>
              run[i].w.pc.Done? && run[i].h.delivered == run[i].h.requested && run[i].r.result == run[i].w.okCode
  {
    if run[i].w.pc.Done? { StreamOutcome(run, i); } else { NoEndBlockIsError(run, i); }
  }

  // ---------- how full the blocks are ----------

  /** Between writes less than half of the writer's buffer is in use, and what a write posts is half full. */
  predicate HalfFree(s: State) {
    0 <= s.w.bufferNr < |s.sh.buffer| ==>
      && (s.w.pc.Ready? || s.w.pc.Copy? ==> Buf(s).used == 0 || Buf(s).used < s.w.bufferSize / 2)
      && ((s.w.pc.Check? || s.w.pc.Post?) && s.w.pc.k.Writing? ==> Buf(s).used >= s.w.bufferSize / 2)
  }

  lemma WriterKeepsHalfFree(s: State)
    requires RingInv(s) && WriterDefined(s) && WriterEnabled(s) && HalfFree(s)
    ensures HalfFree(WriterStep(s))
  {
    if s.w.bufferNr >= 0 { assert BufferInv(s, Buf(s), PosIn(s, s.w.bufferNr)); }
  }

  lemma ReaderKeepsHalfFree(s: State)
    requires RingInv(s) && ReaderDefined(s) && ReaderEnabled(s) && HalfFree(s)
    ensures HalfFree(ReaderStep(s))
  {
    if s.w.bufferNr >= 0 {
      assert BufferInv(s, Buf(s), PosIn(s, s.w.bufferNr));
      assert BufferInv(s, s.sh.buffer[s.r.nextBuffer], PosIn(s, s.r.nextBuffer));
    }
  }

  lemma StepKeepsHalfFree(s: State, t: State)
    requires Live(s) && Step(s, t) && HalfFree(s)
    ensures HalfFree(t)
  {
    LiveIsDefined(s);
    if WriterEnabled(s) && t == WriterStep(s) {
      WriterKeepsHalfFree(s);
    } else if ReaderEnabled(s) && t == ReaderStep(s) {
      ReaderKeepsHalfFree(s);
    } else if CloseEnabled(s) && t == CloseStep(s) {
      assert t.w == s.w && t.sh.buffer == s.sh.buffer;
    }
  }

  lemma {:induction false} RunKeepsHalfFree(run: seq<State>, i: nat)
    requires Run(run) && i < |run|
    ensures HalfFree(run[i])
  {
    if i > 0 {
      RunKeepsHalfFree(run, i - 1);
      RunKeepsInv(run, i - 1);
      if !(run[i - 1].r.ended && run[i - 1].w.pc.Done?) { StepKeepsHalfFree(run[i - 1], run[i]); }
    }
  }

  /**
   In every run: whenever the writer is between two writes it can write half a buffer without waiting,
   and a block that it posts during a write is at least half full, and not empty.
   */
  lemma HalfABufferIsFree(run: seq<State>, i: nat)
    requires Run(run) && i < |run| && Serving(run[i])
    ensures var s := run[i];
            s.w.pc.Ready? && s.w.bufferNr >= 0 ==>
              s.w.bufferNr < |s.sh.buffer| && s.w.bufferSize - Buf(s).used >= s.w.bufferSize / 2
    ensures var s := run[i];
            s.w.pc.Post? ==>
              && 0 <= s.w.bufferNr < |s.sh.buffer| && Buf(s).used > 0
              && (s.w.pc.k.Writing? ==> Buf(s).used >= s.w.bufferSize / 2)
  {
    RunKeepsHalfFree(run, i);
    RunKeepsInv(run, i);
    if run[i].w.bufferNr >= 0 { assert BufferInv(run[i], Buf(run[i]), PosIn(run[i], run[i].w.bufferNr)); }
  }

  // ---------- progress ----------

  /** While a stream is open and the worker alive, the two sides are never both blocked. */
  lemma NeverBothBlocked(run: seq<State>, i: nat)
    requires Run(run) && i < |run| && !run[i].r.ended
    ensures
      var s := run[i];
      && WriterDefined(s) && ReaderDefined(s)
      && (WriterEnabled(s) || ReaderEnabled(s))
  {
    RunKeepsInv(run, i);
    LiveIsNotStuck(run[i]);
  }

  lemma LiveIsNotStuck(s: State)
    requires Live(s) && !s.r.ended
    ensures WriterDefined(s) && ReaderDefined(s)
    ensures WriterEnabled(s) || ReaderEnabled(s)
  {
    LiveIsDefined(s);
    assert BufferInv(s, s.sh.buffer[s.r.nextBuffer], 0);
    if s.w.bufferNr >= 0 {
      assert BufferInv(s, Buf(s), PosIn(s, s.w.bufferNr));
    }
  }

  function TotalLength(script: seq<seq<byte>>): nat {
    if script == [] then 0 else |script[0]| + TotalLength(script[1..])
  }

  /** Steps the writer still has to take at its present point, apart from copying bytes. */
  function WriterRank(pc: WriterPc): nat {
    match pc
    case Ready => 21
    case Claim(k) => (if k.Writing? then 23 else 7)
    case Copy(_) => 22
    case Check(k) => (if k.Writing? then 30 else 14)
    case Post(k) => (if k.Writing? then 29 else 13)
    case Await(k) => (if k.Writing? then 23 else 7)
    case End(_) => 6
    case PostEnd(_) => 5
    case Done => 0
  }

  function ReaderRank(r: Reader): nat {
    (if r.ended then 0 else match r.pc
       case Idle => 4 case WaitRead => 3 case Own => 2 case PostWrite => 1)
    + (if r.closing then 0 else 1)
  }

  /** A bound on the number of steps until the stream ends. */
  function StepsLeft(s: State): nat {
    9 * (|Left(s.w.pc)| + TotalLength(s.w.script)) + 3 * |s.w.script| + WriterRank(s.w.pc)
    + 4 * s.h.inFlight + ReaderRank(s.r) + (if s.alive then 1 else 0)
  }

  lemma WriterStepCounts(s: State)
    requires RingInv(s) && WriterDefined(s) && WriterEnabled(s)
    ensures StepsLeft(WriterStep(s)) < StepsLeft(s)
  {
    if s.w.pc.Copy? {
      assert BufferInv(s, Buf(s), PosIn(s, s.w.bufferNr));
    }
  }

  lemma ReaderStepCounts(s: State)
    requires RingInv(s) && ReaderDefined(s) && ReaderEnabled(s)
    ensures StepsLeft(ReaderStep(s)) < StepsLeft(s)
  {
  }

  lemma StepCounts(s: State, t: State)
    requires Live(s) && Step(s, t)
    ensures StepsLeft(t) < StepsLeft(s)
  {
    LiveIsDefined(s);
    if WriterEnabled(s) && t == WriterStep(s) {
      WriterStepCounts(s);
    } else if ReaderEnabled(s) && t == ReaderStep(s) {
      ReaderStepCounts(s);
    }
  }

  /** Consecutive states are one step apart. */
  ghost predicate Steps(steps: seq<State>) {
    forall i {:trigger steps[i]} :: 0 < i < |steps| ==> Step(steps[i - 1], steps[i])
  }

  /**
   A request is served in a bounded number of steps, however the two processes interleave;
   and when neither can take another step, the stream has ended.
   */
  lemma {:induction false} RequestTerminates(steps: seq<State>)
    requires |steps| > 0 && Live(steps[0]) && Steps(steps)
    ensures |steps| <= StepsLeft(steps[0]) + 1
    ensures
      var s := steps[|steps| - 1];
      && WriterDefined(s) && ReaderDefined(s)
      && (WriterEnabled(s) || ReaderEnabled(s) || s.r.ended)
  {
    if |steps| == 1 {
      LiveIsDefined(steps[0]);
      if !steps[0].r.ended { LiveIsNotStuck(steps[0]); }
    } else {
      assert Step(steps[0], steps[1]);
      StepCounts(steps[0], steps[1]);
      LiveStep(steps[0], steps[1]);
      forall i | 0 < i < |steps[1..]| ensures Step(steps[1..][i - 1], steps[1..][i]) {
        assert Step(steps[i], steps[i + 1]);
      }
      RequestTerminates(steps[1..]);
    }
  }

  // ---------- every request can be completed, with any code ----------

  /** A step of the writer or the reader: the caller does not cancel, and the worker does not die. */
  lemma PlainStep(s: State, t: State)
    requires Live(s) && !s.r.ended && s.alive && !s.r.closing && WriterDefined(s) && ReaderDefined(s)
    requires (WriterEnabled(s) && t == WriterStep(s)) || (ReaderEnabled(s) && t == ReaderStep(s))
    ensures Step(s, t) && t.alive && !t.r.closing && t.h.requested == s.h.requested && t.w.okCode == s.w.okCode
  {
    assert BufferInv(s, s.sh.buffer[s.r.nextBuffer], PosIn(s, s.r.nextBuffer));
  }

  lemma {:induction false} RunsToTheEnd(s: State) returns (steps: seq<State>)
    requires Live(s) && s.alive && !s.r.closing
    ensures steps != [] && steps[0] == s && Steps(steps)
    ensures var e := steps[|steps| - 1];
            && Live(e) && e.alive && !e.r.closing && e.r.ended && e.w.pc.Done?
            && e.h.requested == s.h.requested && e.w.okCode == s.w.okCode
    decreases StepsLeft(s)
  {
    if s.r.ended { return [s]; }
    var t := OneStepOn(s);
    var rest := RunsToTheEnd(t);
    steps := [s] + rest;
    StepsCons(s, rest);
  }

  lemma OneStepOn(s: State) returns (t: State)
    requires Live(s) && !s.r.ended && s.alive && !s.r.closing
    ensures Step(s, t) && Live(t) && StepsLeft(t) < StepsLeft(s)
    ensures t.alive && !t.r.closing && t.h.requested == s.h.requested && t.w.okCode == s.w.okCode
  {
    LiveIsNotStuck(s);
    t := if WriterEnabled(s) then WriterStep(s) else ReaderStep(s);
    PlainStep(s, t);
    LiveStep(s, t);
    StepCounts(s, t);
  }

  lemma StepsCons(s: State, rest: seq<State>)
    requires rest != [] && Step(s, rest[0]) && Steps(rest)
    ensures Steps([s] + rest)
  {
    var steps := [s] + rest;
    forall i | 0 < i < |steps| ensures Step(steps[i - 1], steps[i]) {
      assert i > 1 ==> Step(rest[i - 2], rest[i - 1]);
    }
  }

  /**
   Whatever the write calls and the code passed to destroy, zero or not: every run can go on to serve
   the request, and the caller has every byte and that code.
   */
  lemma AnyCodeIsDelivered(run: seq<State>, q: Request) returns (more: seq<State>)
    requires Run(run) && Quiescent(run[|run| - 1]) && 0 < q.bufferSize <= run[|run| - 1].sh.bufferSize
    ensures more != [] && Run(run + more)
    ensures var e := more[|more| - 1];
            Quiescent(e) && !e.r.closing && e.h.delivered == Flatten(q.script) && e.r.result == q.okCode
  {
    var s := run[|run| - 1];
    RunKeepsInv(run, |run| - 1);
    if Live(s) { LiveEnds(s); }
    var t := StartRequest(s, q);
    assert Opens(s, t, q);
    RequestGoesLive(s, t, q);
    more := RunsToTheEnd(t);
    LiveEnds(more[|more| - 1]);
    Joined(run, more);
  }

  lemma Joined(run: seq<State>, more: seq<State>)
    requires Run(run) && more != [] && Steps(more) && Next(run[|run| - 1], more[0])
    ensures Run(run + more)
  {
    var all := run + more;
    forall i | 0 <= i < |all| - 1 ensures Next(all[i], all[i + 1]) {
      if i < |run| - 1 {
        assert Next(run[i], run[i + 1]);
      } else if i >= |run| {
        assert Step(more[i - |run|], more[i - |run| + 1]);
      }
    }
  }

  /** For example one write of one byte, and a code that is not zero, in a ring of one buffer. */
  lemma OneByteWithCode(b: byte, code: int) returns (run: seq<State>)
    requires code != 0
    ensures Run(run)
    ensures var e := run[|run| - 1]; Quiescent(e) && e.h.delivered == [b] && e.r.result == code
  {
    var sh := Shared(STATUS_OK, 2, [Buffer(0, 0, 0, 0, 0)], [0, 0]);
    var first := State(sh, Writer(Done, 0, 2, [], 0, 0, false), Reader(Idle, 0, true, false, 0), true,
                       History([], [], [], [], 0, 0));
    var q := Request([[b]], code, 0, 2);
    assert Run([first]);
    var more := AnyCodeIsDelivered([first], q);
    run := [first] + more;
    assert Flatten([[b]]) == [b] + Flatten([]);
  }
}
