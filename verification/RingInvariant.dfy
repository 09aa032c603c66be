/** The inductive invariant of the ring, kept by every step of either process. */
module RingInvariant {
  import opened Basics
  import opened SharedData
  import opened Ring

  // ---------- ownership ----------

  /** The writer owns the buffer it points at. */
  predicate Holds(s: State) {
    s.w.bufferNr >= 0 && !s.w.pc.Claim? && !s.w.pc.Await? && !s.w.pc.Done?
  }

  /** The reader has taken the token of its next buffer, and not given it back. */
  predicate Taken(s: State) {
    s.r.pc.Own? || s.r.pc.PostWrite? || s.r.ended
  }

  datatype Owner = WriteToken | TheWriter | ReadToken | TheReader

  /** Who owns the buffer at position p: whoever may take its token, or whoever has taken it. */
  function OwnerAt(s: State, p: int): Owner {
    if p < s.h.inFlight then
      if p == 0 && Taken(s) then TheReader else ReadToken
    else if p == s.h.inFlight && Holds(s) then TheWriter
    else WriteToken
  }

  function PosIn(s: State, i: int): int {
    Pos(s.r.nextBuffer, |s.sh.buffer|, i)
  }

  function SlotIn(s: State, p: int): int {
    Slot(s.r.nextBuffer, |s.sh.buffer|, p)
  }

  /** Both sides' indices agree with the number of buffers in flight. */
  ghost predicate Indices(s: State) {
    && s.r.nextBuffer < |s.sh.buffer|
    && s.h.inFlight <= |s.sh.buffer|
    && s.w.bufferNr < |s.sh.buffer|
    && (s.w.bufferNr < 0 ==>
          s.h.inFlight == s.r.nextBuffer == 0 && (s.w.pc.Ready? || (s.w.pc.Check? && s.w.pc.k.Ending?)))
    && (s.w.bufferNr >= 0 && !s.w.pc.Done? ==> s.w.bufferNr == SlotIn(s, s.h.inFlight))
    && (s.w.pc.Claim? ==> s.w.bufferNr == 0)
    && (Holds(s) ==> s.h.inFlight < |s.sh.buffer|)
    && (s.w.pc.Done? ==> s.h.inFlight > 0)
    && (s.r.pc.Own? || s.r.pc.PostWrite? ==> s.h.inFlight > 0)
    && (s.r.ended ==> s.r.pc.Idle? && if s.w.pc.Done? then s.h.inFlight == 1 else s.h.inFlight == 0 && !s.alive)
    && s.sh.status == (if s.r.closing then STATUS_CANCEL else STATUS_OK)
    && 0 < s.w.bufferSize <= s.sh.bufferSize
  }

  /** The buffer in flight at position p is the zero-sized block that ends the stream. */
  predicate IsEndBlock(s: State, p: int) {
    s.w.pc.Done? && p == s.h.inFlight - 1
  }

  /** The semaphores of the buffer at position p say who owns it, and its fill suits the owner. */
  predicate BufferInv(s: State, b: Buffer, p: int) {
    && b.readyForRead == (if OwnerAt(s, p) == ReadToken then 1 else 0)
    && b.readyForWrite == (if OwnerAt(s, p) == WriteToken then 1 else 0)
    && b.used <= s.w.bufferSize
    && match OwnerAt(s, p)
       case WriteToken => b.used == 0
       case ReadToken => (b.used == 0 <==> IsEndBlock(s, p))
       case TheReader =>
         if s.r.pc.PostWrite? then b.used == 0 && !IsEndBlock(s, p) else (b.used == 0 <==> IsEndBlock(s, p))
       case TheWriter =>
         && (s.w.pc.Ready? || s.w.pc.Copy? ==> b.used < s.w.bufferSize)
         && (s.w.pc.Post? ==> b.used > 0)
         && (s.w.pc.PostEnd? ==> b.used == 0)
         && (s.w.pc.End? && !s.r.closing ==> b.used == 0)
  }

  ghost predicate Buffers(s: State) {
    forall i :: 0 <= i < |s.sh.buffer| ==> BufferInv(s, s.sh.buffer[i], PosIn(s, i))
  }

  ghost predicate RingInv(s: State) {
    WellLaid(s.sh) && Indices(s) && Buffers(s)
  }

  // ---------- bytes ----------

  /** The contents of `count` buffers in ring order, from buffer `first` onwards. */
  function Queue(sh: Shared, first: nat, count: nat): seq<seq<byte>> {
    seq(count, p => Block(sh, Slot(first, |sh.buffer|, p)))
  }

  /** The blocks in flight, in ring order starting from the reader's next buffer. */
  function Blocks(s: State): seq<seq<byte>> {
    Queue(s.sh, s.r.nextBuffer, s.h.inFlight)
  }

  /** Bytes that have left the writer's hands, whether or not they have been read yet. */
  function Sent(s: State): seq<byte> {
    s.h.delivered + Flatten(Blocks(s))
  }

  /** What the writer has put into the buffer it owns. */
  function Partial(s: State): seq<byte> {
    if Holds(s) then Block(s.sh, s.w.bufferNr) else []
  }

  /** Nothing is lost, duplicated or reordered on the way. */
  ghost predicate Conserved(s: State) {
    && Sent(s) + (Partial(s) + s.h.dropped) == s.h.accepted
    && (s.h.dropped != [] ==> s.r.closing)
    && (s.h.dropped != [] ==> s.w.pc.PostEnd? || s.w.pc.Done?)
  }

  /** What is left of the write call in progress. */
  function Left(pc: WriterPc): seq<byte> {
    match pc
    case Copy(left) => left
    case Claim(k) => (if k.Writing? then k.left else [])
    case Check(k) => (if k.Writing? then k.left else [])
    case Post(k) => (if k.Writing? then k.left else [])
    case Await(k) => (if k.Writing? then k.left else [])
    case _ => []
  }

  /** destroy has been called; with which code? */
  predicate InDestroy(pc: WriterPc) {
    match pc
    case Claim(k) => k.Ending?
    case Check(k) => k.Ending?
    case Post(k) => k.Ending?
    case Await(k) => k.Ending?
    case End(_) => true
    case PostEnd(_) => true
    case Done => true
    case _ => false
  }

  function CodeOf(pc: WriterPc): int
    requires InDestroy(pc) && !pc.Done?
  {
    match pc
    case Claim(k) => k.code
    case Check(k) => k.code
    case Post(k) => k.code
    case Await(k) => k.code
    case End(code) => code
    case PostEnd(code) => code
  }

  /** The code that destroy is called with, once it is known. */
  function FinalCode(s: State): int {
    if s.w.failed then s.w.failCode else s.w.okCode
  }

  /** How far the writer has got in its program. */
  ghost predicate Progress(s: State) {
    && (!s.w.failed ==> s.h.accepted + (Left(s.w.pc) + Flatten(s.w.script)) == s.h.requested)
    && (s.w.failed ==> s.h.accepted <= s.h.requested && s.r.closing && InDestroy(s.w.pc))
    && (InDestroy(s.w.pc) && !s.w.failed ==> s.w.script == [])
  }

  /** The return code travels from destroy's argument through the end block to the caller. */
  ghost predicate Codes(s: State) {
    && (InDestroy(s.w.pc) && !s.w.pc.Done? ==> CodeOf(s.w.pc) == FinalCode(s))
    && (s.w.pc.PostEnd? && 0 <= s.w.bufferNr < |s.sh.buffer| ==> Buf(s).status == FinalCode(s))
    && (s.w.pc.Done? && 0 <= SlotIn(s, s.h.inFlight - 1) < |s.sh.buffer| ==>
          s.sh.buffer[SlotIn(s, s.h.inFlight - 1)].status == FinalCode(s))
    && (s.r.ended && s.w.pc.Done? ==> s.r.result == FinalCode(s))
  }

  /** Blocks that can still be read after a cancel: those in flight, plus one about to be posted. */
  ghost predicate CancelBound(s: State) {
    s.r.closing ==>
      s.h.sinceCancel + s.h.inFlight + Bit(s.w.pc.Post?)
      <= |s.sh.buffer| + Bit(s.w.pc.Done?) + Bit(s.r.pc.PostWrite?)
  }

  ghost predicate Live(s: State) {
    RingInv(s) && Conserved(s) && Progress(s) && Codes(s) && CancelBound(s)
  }

  /** What the caller of a request gets, once the end block has been read. */
  ghost predicate Outcome(s: State) {
    && s.h.delivered <= s.h.requested
    && (!s.r.closing ==> s.h.delivered == s.h.requested && s.r.result == s.w.okCode)
    && (s.r.closing ==> s.h.sinceCancel <= |s.sh.buffer|)
  }

  /** Between requests: no semaphore above one, which is what re-arming relies on. */
  ghost predicate Rest(s: State) {
    && s.r.ended && s.w.pc.Done?
    && WellLaid(s.sh)
    && (forall i :: 0 <= i < |s.sh.buffer| ==> s.sh.buffer[i].readyForWrite <= 1)
    && Outcome(s)
  }

  ghost predicate Inv(s: State) {
    Live(s) || Rest(s)
  }

  // ---------- each step keeps the ownership and fill of the buffers ----------

  lemma LiveIsDefined(s: State)
    requires RingInv(s)
    ensures WriterDefined(s) && ReaderDefined(s)
  {
    if s.w.pc.Copy? {
      assert InBounds(s.sh, s.w.bufferNr);
      assert BufferInv(s, Buf(s), PosIn(s, s.w.bufferNr));
    }
  }

  lemma WReadyKeepsRing(s: State)
    requires RingInv(s) && WriterDefined(s) && WriterEnabled(s) && s.w.pc.Ready?
    ensures RingInv(WReady(s))
  {
    var t := WReady(s);
    assert Indices(t);
    forall i | 0 <= i < |t.sh.buffer| ensures BufferInv(t, t.sh.buffer[i], PosIn(t, i)) {
      assert BufferInv(s, s.sh.buffer[i], PosIn(s, i));
    }
  }

  lemma WClaimKeepsRing(s: State)
    requires RingInv(s) && WriterDefined(s) && WriterEnabled(s) && s.w.pc.Claim?
    ensures RingInv(WClaim(s))
  {
    var t := WClaim(s);
    SetBufKeepsLayout(s.sh, s.w.bufferNr, t.sh.buffer[s.w.bufferNr]);
    assert Indices(t);
    forall i | 0 <= i < |t.sh.buffer| ensures BufferInv(t, t.sh.buffer[i], PosIn(t, i)) {
      assert BufferInv(s, s.sh.buffer[i], PosIn(s, i));
    }
  }

  lemma WCopyKeepsRing(s: State)
    requires RingInv(s) && WriterDefined(s) && WriterEnabled(s) && s.w.pc.Copy?
    ensures RingInv(WCopy(s))
  {
    var t := WCopy(s);
    var sh := SetBuf(s.sh, s.w.bufferNr, t.sh.buffer[s.w.bufferNr]);
    SetBufKeepsLayout(s.sh, s.w.bufferNr, t.sh.buffer[s.w.bufferNr]);
    forall j | 0 <= j < |t.sh.buffer| ensures InBounds(t.sh, j) {
      assert InBounds(sh, j);
    }
    forall j, k | 0 <= j < k < |t.sh.buffer| ensures Before(t.sh, j, k) {
      assert Before(sh, j, k);
    }
    assert Indices(t);
    forall i | 0 <= i < |t.sh.buffer| ensures BufferInv(t, t.sh.buffer[i], PosIn(t, i)) {
      assert BufferInv(s, s.sh.buffer[i], PosIn(s, i));
    }
  }

  lemma WCheckKeepsRing(s: State)
    requires RingInv(s) && WriterDefined(s) && WriterEnabled(s) && s.w.pc.Check?
    ensures RingInv(WCheck(s))
  {
    var t := WCheck(s);
    assert Indices(t) && t.sh == s.sh;
    forall i | 0 <= i < |t.sh.buffer| ensures BufferInv(t, t.sh.buffer[i], PosIn(t, i)) {
      assert BufferInv(s, s.sh.buffer[i], PosIn(s, i));
    }
  }

  lemma WPostKeepsRing(s: State)
    requires RingInv(s) && WriterDefined(s) && WriterEnabled(s) && s.w.pc.Post?
    ensures RingInv(WPost(s))
  {
    var t := WPost(s);
    SetBufKeepsLayout(s.sh, s.w.bufferNr, t.sh.buffer[s.w.bufferNr]);
    assert Indices(t);
    forall i | 0 <= i < |t.sh.buffer| ensures BufferInv(t, t.sh.buffer[i], PosIn(t, i)) {
      assert BufferInv(s, s.sh.buffer[i], PosIn(s, i));
    }
  }

  lemma WAwaitKeepsRing(s: State)
    requires RingInv(s) && WriterDefined(s) && WriterEnabled(s) && s.w.pc.Await?
    ensures RingInv(WAwait(s))
  {
    var t := WAwait(s);
    SetBufKeepsLayout(s.sh, s.w.bufferNr, t.sh.buffer[s.w.bufferNr]);
    assert Indices(t);
    forall i | 0 <= i < |t.sh.buffer| ensures BufferInv(t, t.sh.buffer[i], PosIn(t, i)) {
      assert BufferInv(s, s.sh.buffer[i], PosIn(s, i));
    }
  }

  lemma WEndKeepsRing(s: State)
    requires RingInv(s) && WriterDefined(s) && WriterEnabled(s) && s.w.pc.End?
    ensures RingInv(WEnd(s))
  {
    var t := WEnd(s);
    SetBufKeepsLayout(s.sh, s.w.bufferNr, t.sh.buffer[s.w.bufferNr]);
    assert Indices(t);
    forall i | 0 <= i < |t.sh.buffer| ensures BufferInv(t, t.sh.buffer[i], PosIn(t, i)) {
      assert BufferInv(s, s.sh.buffer[i], PosIn(s, i));
    }
  }

  lemma WPostEndKeepsRing(s: State)
    requires RingInv(s) && WriterDefined(s) && WriterEnabled(s) && s.w.pc.PostEnd?
    ensures RingInv(WPostEnd(s))
  {
    var t := WPostEnd(s);
    SetBufKeepsLayout(s.sh, s.w.bufferNr, t.sh.buffer[s.w.bufferNr]);
    assert Indices(t);
    forall i | 0 <= i < |t.sh.buffer| ensures BufferInv(t, t.sh.buffer[i], PosIn(t, i)) {
      assert BufferInv(s, s.sh.buffer[i], PosIn(s, i));
    }
  }

  lemma RWaitKeepsRing(s: State)
    requires RingInv(s) && ReaderDefined(s) && ReaderEnabled(s) && s.r.pc.WaitRead?
    ensures RingInv(RWait(s))
  {
    var t := RWait(s);
    SetBufKeepsLayout(s.sh, s.r.nextBuffer, t.sh.buffer[s.r.nextBuffer]);
    assert Indices(t);
    forall i | 0 <= i < |t.sh.buffer| ensures BufferInv(t, t.sh.buffer[i], PosIn(t, i)) {
      assert BufferInv(s, s.sh.buffer[i], PosIn(s, i));
    }
  }

  lemma ROwnKeepsRing(s: State)
    requires RingInv(s) && ReaderDefined(s) && ReaderEnabled(s) && s.r.pc.Own?
    ensures RingInv(ROwn(s))
  {
    var t := ROwn(s);
    SetBufKeepsLayout(s.sh, s.r.nextBuffer, t.sh.buffer[s.r.nextBuffer]);
    assert Indices(t);
    forall i | 0 <= i < |t.sh.buffer| ensures BufferInv(t, t.sh.buffer[i], PosIn(t, i)) {
      assert BufferInv(s, s.sh.buffer[i], PosIn(s, i));
    }
  }

  lemma RPostKeepsRing(s: State)
    requires RingInv(s) && ReaderDefined(s) && ReaderEnabled(s) && s.r.pc.PostWrite?
    ensures RingInv(RPost(s))
  {
    var t := RPost(s);
    SetBufKeepsLayout(s.sh, s.r.nextBuffer, t.sh.buffer[s.r.nextBuffer]);
    assert Indices(t);
    forall i | 0 <= i < |t.sh.buffer| ensures BufferInv(t, t.sh.buffer[i], PosIn(t, i)) {
      assert BufferInv(s, s.sh.buffer[i], PosIn(s, i));
    }
  }

  // ---------- each step keeps the account of bytes ----------

  /** Writing into one buffer extends its block and leaves every other block alone. */
  lemma CopyFrame(sh: Shared, i: int, data: seq<byte>, j: int)
    requires WellLaid(sh) && 0 <= i < |sh.buffer| && 0 <= j < |sh.buffer|
    requires sh.buffer[i].used + |data| <= sh.bufferSize && sh.buffer[j].used <= sh.bufferSize
    ensures InBounds(sh, i)
    ensures Block(CopyInto(sh, i, data), j) == if j == i then Block(sh, i) + data else Block(sh, j)
  {
    var b, c := sh.buffer[i], sh.buffer[j];
    assert InBounds(sh, i) && InBounds(sh, j);
    assert i < j ==> Before(sh, i, j);
    assert j < i ==> Before(sh, j, i);
    var m := WriteMemory(sh.memory, b.offset + b.used, data);
    if j == i {
      assert m[b.offset..b.offset + b.used + |data|] == sh.memory[b.offset..b.offset + b.used] + data;
    } else {
      assert m[c.offset..c.offset + c.used] == sh.memory[c.offset..c.offset + c.used];
    }
  }

  lemma QueueFrame(sh: Shared, sh': Shared, first: nat, count: nat)
    requires |sh'.buffer| == |sh.buffer|
    requires forall p :: 0 <= p < count ==>
               Block(sh', Slot(first, |sh.buffer|, p)) == Block(sh, Slot(first, |sh.buffer|, p))
    ensures Queue(sh', first, count) == Queue(sh, first, count)
  {
  }

  /** Semaphores and status codes carry no bytes. */
  lemma TokenFrame(sh: Shared, i: int, b: Buffer, first: nat, count: nat)
    requires 0 <= i < |sh.buffer|
    requires b.offset == sh.buffer[i].offset && b.used == sh.buffer[i].used
    ensures Queue(SetBuf(sh, i, b), first, count) == Queue(sh, first, count)
    ensures forall j :: Block(SetBuf(sh, i, b), j) == Block(sh, j)
  {
    QueueFrame(sh, SetBuf(sh, i, b), first, count);
  }

  /** Taking from the front of the ring is taking from the front of the queue. */
  lemma QueueHead(sh: Shared, first: nat, count: nat)
    requires first < |sh.buffer| && 0 < count <= |sh.buffer|
    ensures Flatten(Queue(sh, first, count))
         == Block(sh, first) + Flatten(Queue(sh, NextIndex(first, |sh.buffer|), count - 1))
  {
    var q, rest := Queue(sh, first, count), Queue(sh, NextIndex(first, |sh.buffer|), count - 1);
    assert q[0] == Block(sh, first);
    assert q[1..] == rest;
  }

  /** Posting the next free buffer is appending to the queue. */
  lemma QueueAppend(sh: Shared, first: nat, count: nat)
    requires first < |sh.buffer| && count < |sh.buffer|
    ensures Flatten(Queue(sh, first, count + 1))
         == Flatten(Queue(sh, first, count)) + Block(sh, Slot(first, |sh.buffer|, count))
  {
    var last := Block(sh, Slot(first, |sh.buffer|, count));
    assert Queue(sh, first, count + 1) == Queue(sh, first, count) + [last];
    FlattenAppend(Queue(sh, first, count), last);
  }

  /** Emptying the front buffer takes its bytes off the front of the queue. */
  lemma QueueDrain(sh: Shared, first: nat, count: nat)
    requires first < |sh.buffer| && 0 < count <= |sh.buffer|
    ensures Flatten(Queue(sh, first, count))
         == Block(sh, first) + Flatten(Queue(SetBuf(sh, first, sh.buffer[first].(used := 0)), first, count))
  {
    var sh' := SetBuf(sh, first, sh.buffer[first].(used := 0));
    var next := NextIndex(first, |sh.buffer|);
    assert Block(sh', first) == [];
    forall p | 0 <= p < count - 1
      ensures Block(sh', Slot(next, |sh.buffer|, p)) == Block(sh, Slot(next, |sh.buffer|, p))
    {
      assert Slot(next, |sh.buffer|, p) != first;
    }
    QueueFrame(sh, sh', next, count - 1);
    QueueHead(sh, first, count);
    QueueHead(sh', first, count);
  }

  lemma WClaimSends(s: State)
    requires RingInv(s) && WriterDefined(s) && WriterEnabled(s) && s.w.pc.Claim?
    ensures Sent(WClaim(s)) == Sent(s)
    ensures Partial(WClaim(s)) == Partial(s) == []
  {
    assert BufferInv(s, Buf(s), PosIn(s, 0));
    TokenFrame(s.sh, 0, WClaim(s).sh.buffer[0], s.r.nextBuffer, s.h.inFlight);
  }

  /** A copy into a buffer outside the queue leaves the queue alone. */
  lemma CopyQueue(sh: Shared, i: int, data: seq<byte>, first: nat, count: nat)
    requires WellLaid(sh) && 0 <= i < |sh.buffer| && first < |sh.buffer| && count <= |sh.buffer|
    requires forall j :: 0 <= j < |sh.buffer| ==> sh.buffer[j].used <= sh.bufferSize
    requires sh.buffer[i].used + |data| <= sh.bufferSize
    requires Pos(first, |sh.buffer|, i) >= count
    ensures InBounds(sh, i)
    ensures Queue(CopyInto(sh, i, data), first, count) == Queue(sh, first, count)
  {
    assert InBounds(sh, i);
    var sh', n := CopyInto(sh, i, data), |sh.buffer|;
    forall p | 0 <= p < count ensures Block(sh', Slot(first, n, p)) == Block(sh, Slot(first, n, p)) {
      CopyFrame(sh, i, data, Slot(first, n, p));
    }
    QueueFrame(sh, sh', first, count);
  }

  lemma WCopySends(s: State)
    requires RingInv(s) && WriterDefined(s) && WriterEnabled(s) && s.w.pc.Copy? && s.w.pc.left != []
    ensures Sent(WCopy(s)) == Sent(s)
    ensures s.h.accepted <= WCopy(s).h.accepted
    ensures Partial(WCopy(s)) == Partial(s) + WCopy(s).h.accepted[|s.h.accepted|..]
  {
    var data := s.w.pc.left[..CopyLength(s.w.bufferSize, Buf(s).used, |s.w.pc.left|)];
    forall j | 0 <= j < |s.sh.buffer| ensures s.sh.buffer[j].used <= s.sh.bufferSize {
      assert BufferInv(s, s.sh.buffer[j], PosIn(s, j));
    }
    CopyQueue(s.sh, s.w.bufferNr, data, s.r.nextBuffer, s.h.inFlight);
    CopyFrame(s.sh, s.w.bufferNr, data, s.w.bufferNr);
    assert WCopy(s).h.accepted[|s.h.accepted|..] == data;
  }

  lemma WPostSends(s: State)
    requires RingInv(s) && WriterDefined(s) && WriterEnabled(s) && s.w.pc.Post?
    ensures Sent(WPost(s)) == Sent(s) + Partial(s)
    ensures Partial(WPost(s)) == []
  {
    TokenFrame(s.sh, s.w.bufferNr, WPost(s).sh.buffer[s.w.bufferNr], s.r.nextBuffer, s.h.inFlight + 1);
    QueueAppend(s.sh, s.r.nextBuffer, s.h.inFlight);
  }

  lemma WAwaitSends(s: State)
    requires RingInv(s) && WriterDefined(s) && WriterEnabled(s) && s.w.pc.Await?
    ensures Sent(WAwait(s)) == Sent(s)
    ensures Partial(WAwait(s)) == Partial(s) == []
  {
    assert BufferInv(s, Buf(s), PosIn(s, s.w.bufferNr));
    TokenFrame(s.sh, s.w.bufferNr, WAwait(s).sh.buffer[s.w.bufferNr], s.r.nextBuffer, s.h.inFlight);
  }

  lemma WEndSends(s: State)
    requires RingInv(s) && WriterDefined(s) && WriterEnabled(s) && s.w.pc.End?
    ensures Sent(WEnd(s)) == Sent(s)
    ensures Partial(WEnd(s)) == []
    ensures Partial(s) != [] ==> s.r.closing
  {
    assert BufferInv(s, Buf(s), PosIn(s, s.w.bufferNr));
    QueueFrame(s.sh, WEnd(s).sh, s.r.nextBuffer, s.h.inFlight);
  }

  lemma WPostEndSends(s: State)
    requires RingInv(s) && WriterDefined(s) && WriterEnabled(s) && s.w.pc.PostEnd?
    ensures Sent(WPostEnd(s)) == Sent(s)
    ensures Partial(WPostEnd(s)) == Partial(s) == []
  {
    assert BufferInv(s, Buf(s), PosIn(s, s.w.bufferNr));
    TokenFrame(s.sh, s.w.bufferNr, WPostEnd(s).sh.buffer[s.w.bufferNr], s.r.nextBuffer, s.h.inFlight + 1);
    QueueAppend(s.sh, s.r.nextBuffer, s.h.inFlight);
  }

  lemma RWaitSends(s: State)
    requires RingInv(s) && ReaderDefined(s) && ReaderEnabled(s) && s.r.pc.WaitRead?
    ensures Sent(RWait(s)) == Sent(s)
    ensures Partial(RWait(s)) == Partial(s)
  {
    TokenFrame(s.sh, s.r.nextBuffer, RWait(s).sh.buffer[s.r.nextBuffer], s.r.nextBuffer, s.h.inFlight);
  }

  lemma ROwnSends(s: State)
    requires RingInv(s) && ReaderDefined(s) && ReaderEnabled(s) && s.r.pc.Own?
    ensures Sent(ROwn(s)) == Sent(s)
    ensures Partial(ROwn(s)) == Partial(s)
  {
    var b := s.sh.buffer[s.r.nextBuffer];
    if b.used != 0 {
      QueueDrain(s.sh, s.r.nextBuffer, s.h.inFlight);
      var rest := Flatten(Queue(SetBuf(s.sh, s.r.nextBuffer, b.(used := 0)), s.r.nextBuffer, s.h.inFlight));
      assert s.h.delivered + (Block(s.sh, s.r.nextBuffer) + rest) == s.h.delivered + Block(s.sh, s.r.nextBuffer) + rest;
    }
  }

  /** Giving back the front buffer, once it is empty, takes nothing from the queue. */
  lemma QueueRelease(sh: Shared, first: nat, count: nat, b: Buffer)
    requires first < |sh.buffer| && 0 < count <= |sh.buffer|
    requires b.offset == sh.buffer[first].offset && b.used == sh.buffer[first].used == 0
    ensures Flatten(Queue(SetBuf(sh, first, b), NextIndex(first, |sh.buffer|), count - 1))
            == Flatten(Queue(sh, first, count))
  {
    TokenFrame(sh, first, b, NextIndex(first, |sh.buffer|), count - 1);
    QueueHead(sh, first, count);
    assert Block(sh, first) == [];
  }

  lemma RPostSends(s: State)
    requires RingInv(s) && ReaderDefined(s) && ReaderEnabled(s) && s.r.pc.PostWrite?
    ensures Sent(RPost(s)) == Sent(s)
    ensures Partial(RPost(s)) == Partial(s)
  {
    var first := s.r.nextBuffer;
    assert BufferInv(s, s.sh.buffer[first], 0);
    QueueRelease(s.sh, first, s.h.inFlight, RPost(s).sh.buffer[first]);
  }

  // ---------- the whole invariant ----------

  lemma WReadyConserves(s: State)
    requires RingInv(s) && Conserved(s) && WriterDefined(s) && WriterEnabled(s) && s.w.pc.Ready?
    ensures Conserved(WReady(s))
  {
  }

  lemma WClaimConserves(s: State)
    requires RingInv(s) && Conserved(s) && WriterDefined(s) && WriterEnabled(s) && s.w.pc.Claim?
    ensures Conserved(WClaim(s))
  {
    WClaimSends(s);
  }

  lemma WCopyConserves(s: State)
    requires RingInv(s) && Conserved(s) && WriterDefined(s) && WriterEnabled(s) && s.w.pc.Copy?
    ensures Conserved(WCopy(s))
  {
    if s.w.pc.left != [] {
      WCopySends(s);
      var more := WCopy(s).h.accepted[|s.h.accepted|..];
      assert WCopy(s).h.accepted == s.h.accepted + more;
      MoreAtTheEnd(Sent(s), Partial(s), more);
    }
  }

  lemma MoreAtTheEnd(sent: seq<byte>, partial: seq<byte>, more: seq<byte>)
    ensures sent + (partial + more + []) == sent + (partial + []) + more
  {}

  lemma WCheckConserves(s: State)
    requires RingInv(s) && Conserved(s) && WriterDefined(s) && WriterEnabled(s) && s.w.pc.Check?
    ensures Conserved(WCheck(s))
  {
  }

  lemma WPostConserves(s: State)
    requires RingInv(s) && Conserved(s) && WriterDefined(s) && WriterEnabled(s) && s.w.pc.Post?
    ensures Conserved(WPost(s))
  {
    WPostSends(s);
    assert Sent(s) + Partial(s) + ([] + []) == Sent(s) + (Partial(s) + []);
  }

  lemma WAwaitConserves(s: State)
    requires RingInv(s) && Conserved(s) && WriterDefined(s) && WriterEnabled(s) && s.w.pc.Await?
    ensures Conserved(WAwait(s))
  {
    WAwaitSends(s);
  }

  lemma WEndConserves(s: State)
    requires RingInv(s) && Conserved(s) && WriterDefined(s) && WriterEnabled(s) && s.w.pc.End?
    ensures Conserved(WEnd(s))
  {
    WEndSends(s);
    assert [] + Partial(s) == Partial(s) + [];
  }

  lemma WPostEndConserves(s: State)
    requires RingInv(s) && Conserved(s) && WriterDefined(s) && WriterEnabled(s) && s.w.pc.PostEnd?
    ensures Conserved(WPostEnd(s))
  {
    WPostEndSends(s);
  }

  lemma WriterConserves(s: State)
    requires RingInv(s) && Conserved(s) && WriterDefined(s) && WriterEnabled(s)
    ensures Conserved(WriterStep(s))
  {
    match s.w.pc
    case Ready => WReadyConserves(s);
    case Claim(_) => WClaimConserves(s);
    case Copy(_) => WCopyConserves(s);
    case Check(_) => WCheckConserves(s);
    case Post(_) => WPostConserves(s);
    case Await(_) => WAwaitConserves(s);
    case End(_) => WEndConserves(s);
    case PostEnd(_) => WPostEndConserves(s);
  }

  lemma ReaderConserves(s: State)
    requires RingInv(s) && Conserved(s) && ReaderDefined(s) && ReaderEnabled(s)
    ensures Conserved(ReaderStep(s))
  {
    match s.r.pc
    case Idle =>
    case WaitRead => RWaitSends(s);
    case Own => ROwnSends(s);
    case PostWrite => RPostSends(s);
  }

  lemma WriterKeepsRing(s: State)
    requires RingInv(s) && WriterDefined(s) && WriterEnabled(s)
    ensures RingInv(WriterStep(s))
  {
    match s.w.pc
    case Ready => WReadyKeepsRing(s);
    case Claim(_) => WClaimKeepsRing(s);
    case Copy(_) => WCopyKeepsRing(s);
    case Check(_) => WCheckKeepsRing(s);
    case Post(_) => WPostKeepsRing(s);
    case Await(_) => WAwaitKeepsRing(s);
    case End(_) => WEndKeepsRing(s);
    case PostEnd(_) => WPostEndKeepsRing(s);
  }

  lemma WReadyKeepsProgress(s: State)
    requires Progress(s) && WriterDefined(s) && s.w.pc.Ready?
    ensures Progress(WReady(s))
  {
    if s.w.script == [] {
      assert [] + Flatten(s.w.script) == [];
    } else {
      assert Flatten(s.w.script) == s.w.script[0] + Flatten(s.w.script[1..]);
    }
  }

  lemma WCopyKeepsProgress(s: State)
    requires Progress(s) && WriterDefined(s) && s.w.pc.Copy?
    ensures Progress(WCopy(s))
  {
    if s.w.pc.left != [] {
      var k := CopyLength(s.w.bufferSize, Buf(s).used, |s.w.pc.left|);
      var a, b, c := s.w.pc.left[..k], s.w.pc.left[k..], Flatten(s.w.script);
      assert s.w.pc.left == a + b;
      assert s.h.accepted + a + (b + c) == s.h.accepted + (a + b + c);
    }
  }

  lemma WCheckKeepsProgress(s: State)
    requires Indices(s) && Progress(s) && WriterDefined(s) && s.w.pc.Check?
    ensures Progress(WCheck(s))
  {
  }

  lemma WriterKeepsProgress(s: State)
    requires Indices(s) && Progress(s) && WriterDefined(s) && WriterEnabled(s)
    ensures Progress(WriterStep(s))
  {
    match s.w.pc
    case Ready => WReadyKeepsProgress(s);
    case Copy(_) => WCopyKeepsProgress(s);
    case Check(_) => WCheckKeepsProgress(s);
    case _ =>
  }

  lemma WriterKeepsCodes(s: State)
    requires Indices(s) && Progress(s) && Codes(s) && WriterDefined(s) && WriterEnabled(s)
    ensures Codes(WriterStep(s))
  {
  }

  lemma WriterKeepsCancelBound(s: State)
    requires Indices(s) && CancelBound(s) && WriterDefined(s) && WriterEnabled(s)
    ensures CancelBound(WriterStep(s))
  {
  }

  lemma ReaderKeepsProgress(s: State)
    requires RingInv(s) && Progress(s) && ReaderDefined(s) && ReaderEnabled(s)
    ensures Progress(ReaderStep(s))
  {
  }

  lemma ReaderKeepsCodes(s: State)
    requires RingInv(s) && Codes(s) && ReaderDefined(s) && ReaderEnabled(s)
    ensures Codes(ReaderStep(s))
  {
    assert BufferInv(s, s.sh.buffer[s.r.nextBuffer], 0);
  }

  lemma ReaderKeepsCancelBound(s: State)
    requires RingInv(s) && CancelBound(s) && ReaderDefined(s) && ReaderEnabled(s)
    ensures CancelBound(ReaderStep(s))
  {
    assert BufferInv(s, s.sh.buffer[s.r.nextBuffer], 0);
  }

  lemma ReaderKeepsRing(s: State)
    requires RingInv(s) && ReaderDefined(s) && ReaderEnabled(s)
    ensures RingInv(ReaderStep(s))
  {
    match s.r.pc
    case Idle => IdleKeepsRing(s);
    case WaitRead => RWaitKeepsRing(s);
    case Own => ROwnKeepsRing(s);
    case PostWrite => RPostKeepsRing(s);
  }

  lemma IdleKeepsRing(s: State)
    requires RingInv(s) && ReaderDefined(s) && ReaderEnabled(s) && s.r.pc.Idle?
    ensures RingInv(ReaderStep(s))
  {
    var t := ReaderStep(s);
    forall i | 0 <= i < |t.sh.buffer| ensures BufferInv(t, t.sh.buffer[i], PosIn(t, i)) {
      assert BufferInv(s, s.sh.buffer[i], PosIn(s, i));
    }
  }

  lemma LayoutIgnoresStatus(sh: Shared, status: int)
    requires WellLaid(sh)
    ensures WellLaid(sh.(status := status))
  {
    var t := sh.(status := status);
    forall j | 0 <= j < |t.buffer| ensures InBounds(t, j) {
      assert InBounds(sh, j);
    }
    forall j, k | 0 <= j < k < |t.buffer| ensures Before(t, j, k) {
      assert Before(sh, j, k);
    }
  }

  lemma CloseKeepsRing(s: State)
    requires RingInv(s) && CloseEnabled(s)
    ensures RingInv(CloseStep(s))
  {
    var t := CloseStep(s);
    LayoutIgnoresStatus(s.sh, STATUS_CANCEL);
    forall i | 0 <= i < |t.sh.buffer| ensures BufferInv(t, t.sh.buffer[i], PosIn(t, i)) {
      assert BufferInv(s, s.sh.buffer[i], PosIn(s, i));
    }
  }

  lemma CloseKeepsLive(s: State)
    requires Live(s) && CloseEnabled(s)
    ensures Live(CloseStep(s))
  {
    CloseKeepsRing(s);
    QueueFrame(s.sh, CloseStep(s).sh, s.r.nextBuffer, s.h.inFlight);
  }

  lemma DieKeepsLive(s: State)
    requires Live(s)
    ensures Live(Die(s))
  {
    var t := Die(s);
    forall i | 0 <= i < |t.sh.buffer| ensures BufferInv(t, t.sh.buffer[i], PosIn(t, i)) {
      assert BufferInv(s, s.sh.buffer[i], PosIn(s, i));
    }
  }

  lemma LiveStep(s: State, t: State)
    requires Live(s) && Step(s, t)
    ensures Live(t)
  {
    LiveIsDefined(s);
    if WriterEnabled(s) && t == WriterStep(s) {
      WriterKeepsRing(s);
      WriterConserves(s);
      WriterKeepsProgress(s);
      WriterKeepsCodes(s);
      WriterKeepsCancelBound(s);
    } else if ReaderEnabled(s) && t == ReaderStep(s) {
      ReaderKeepsRing(s);
      ReaderConserves(s);
      ReaderKeepsProgress(s);
      ReaderKeepsCodes(s);
      ReaderKeepsCancelBound(s);
    } else if CloseEnabled(s) && t == CloseStep(s) {
      CloseKeepsLive(s);
    } else {
      DieKeepsLive(s);
    }
  }
}
