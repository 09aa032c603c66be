/**
 The shared-memory ring as a transition system of two processes.

 The writer is the reader process, running msgpack_chunkbuffer_write, _flush and _destroy
 (src/hdf5/msgpack_chunkbuffer.c). The reader is a thread of the parent, running
 hdfstream_read_chunk and hdfstream_close_stream (src/lib/hdfstream.c). Each step is one
 access to something both sides can see: a semaphore operation, a read or write of the
 status flag, or the use of a buffer that the step's process owns.
 */
module Ring {
  import opened Basics
  import opened SharedData

  /** What msgpack_chunkbuffer_flush returns to: the copy loop, or msgpack_chunkbuffer_destroy. */
  datatype Cont = Writing(left: seq<byte>) | Ending(code: int)

  datatype WriterPc =
    | Ready                // between two write calls
    | Claim(k: Cont)       // waiting for the first buffer
    | Copy(left: seq<byte>)// head of the copy loop
    | Check(k: Cont)       // flush: about to read the status flag
    | Post(k: Cont)        // flush: about to mark the buffer readable
    | Await(k: Cont)       // flush: waiting for the next buffer
    | End(code: int)       // destroy: about to fill in the zero-sized block
    | PostEnd(code: int)   // destroy: about to mark it readable
    | Done

  /**
   The writer's program is an arbitrary list of write calls followed by destroy: with
   okCode if every write succeeds, with failCode as soon as one fails.
   */
  datatype Writer = Writer(pc: WriterPc, bufferNr: int, bufferSize: nat,
                           script: seq<seq<byte>>, okCode: int, failCode: int, failed: bool)

  datatype ReaderPc = Idle | WaitRead | Own | PostWrite

  datatype Reader = Reader(pc: ReaderPc, nextBuffer: nat, ended: bool, closing: bool, result: int)

  /**
   History: bytes requested (all write calls), accepted (copied into a buffer), dropped by destroy,
   delivered to the caller; the number of buffers from the reader's next one onwards that were
   posted and not yet given back; non-empty blocks read since the cancel.
   */
  datatype History = History(requested: seq<byte>, accepted: seq<byte>, dropped: seq<byte>,
                             delivered: seq<byte>, inFlight: nat, sinceCancel: nat)

  datatype State = State(sh: Shared, w: Writer, r: Reader, alive: bool, h: History)

  // ---------- ring arithmetic ----------

  /** Advance a buffer index. */
  function NextIndex(i: nat, n: nat): (r: nat)
    requires i < n
    ensures r == if i + 1 == n then 0 else i + 1
  {
    (i + 1) % n
  }

  /** Distance from buffer `first` to buffer i, in ring order. */
  function Pos(first: int, n: int, i: int): int {
    if i >= first then i - first else i - first + n
  }

  /** The buffer at distance p from buffer `first`. */
  function Slot(first: int, n: int, p: int): int {
    if first + p < n then first + p else first + p - n
  }

  // ---------- the writer's steps ----------

  function Buf(s: State): Buffer
    requires 0 <= s.w.bufferNr < |s.sh.buffer|
  {
    s.sh.buffer[s.w.bufferNr]
  }

  /** Where a successful flush returns to. */
  function Resume(k: Cont): WriterPc {
    match k
    case Writing(left) => Copy(left)
    case Ending(code) => End(code)
  }

  /** How many bytes the copy loop takes on one iteration. */
  function CopyLength(bufferSize: nat, used: nat, left: nat): (k: nat)
    requires used <= bufferSize
    ensures k <= left && used + k <= bufferSize
    ensures left > 0 && used < bufferSize ==> k > 0
  {
    if left > bufferSize - used then bufferSize - used else left
  }

  function WriteMemory(m: seq<byte>, at: nat, data: seq<byte>): (r: seq<byte>)
    requires at + |data| <= |m|
    ensures |r| == |m|
  {
    m[..at] + data + m[at + |data|..]
  }

  /** Append data to the contents of a buffer. */
  function CopyInto(sh: Shared, i: int, data: seq<byte>): Shared
    requires 0 <= i < |sh.buffer|
    requires sh.buffer[i].offset + sh.buffer[i].used + |data| <= |sh.memory|
  {
    var b := sh.buffer[i];
    SetBuf(sh, i, b.(used := b.used + |data|)).(memory := WriteMemory(sh.memory, b.offset + b.used, data))
  }

  /** The writer's index is in range and its buffer lies in memory, so that its steps are defined. */
  predicate WriterDefined(s: State) {
    && |s.sh.buffer| > 0
    && s.w.bufferNr < |s.sh.buffer|
    && (s.w.pc.Claim? ==> s.w.bufferNr == 0)
    && (s.w.pc.Copy? || s.w.pc.Post? || s.w.pc.Await? || s.w.pc.End? || s.w.pc.PostEnd? ==> s.w.bufferNr >= 0)
    && (s.w.pc.Copy? ==>
          && Buf(s).used <= s.w.bufferSize
          && Buf(s).offset + s.w.bufferSize <= |s.sh.memory|)
  }

  /** The writer can move: it is alive, not finished, and not blocked at a semaphore. */
  predicate WriterEnabled(s: State)
    requires WriterDefined(s)
  {
    && s.alive
    && !s.w.pc.Done?
    && (s.w.pc.Claim? || s.w.pc.Await? ==> Buf(s).readyForWrite > 0)
  }

  function WReady(s: State): State
    requires WriterDefined(s) && s.w.pc.Ready?
  {
    if s.w.script == [] then
      s.(w := s.w.(pc := Check(Ending(s.w.okCode))))
    else if s.w.bufferNr < 0 then
      s.(w := s.w.(pc := Claim(Writing(s.w.script[0])), bufferNr := 0, script := s.w.script[1..]))
    else
      s.(w := s.w.(pc := Copy(s.w.script[0]), script := s.w.script[1..]))
  }

  function WClaim(s: State): State
    requires WriterDefined(s) && s.w.pc.Claim? && Buf(s).readyForWrite > 0
  {
    s.(w := s.w.(pc := Resume(s.w.pc.k)),
       sh := SetBuf(s.sh, 0, Buf(s).(readyForWrite := Buf(s).readyForWrite - 1, used := 0)))
  }

  function WCopy(s: State): State
    requires WriterDefined(s) && s.w.pc.Copy?
  {
    var left := s.w.pc.left;
    if left == [] then s.(w := s.w.(pc := Ready)) else
    var k := CopyLength(s.w.bufferSize, Buf(s).used, |left|);
    var used := Buf(s).used + k;
    s.(w := s.w.(pc := if used >= s.w.bufferSize / 2 then Check(Writing(left[k..])) else Copy(left[k..])),
       sh := CopyInto(s.sh, s.w.bufferNr, left[..k]),
       h := s.h.(accepted := s.h.accepted + left[..k]))
  }

  /** A failed write makes the caller stop and call destroy; destroy goes on after a failed flush. */
  function WCheck(s: State): State
    requires WriterDefined(s) && s.w.pc.Check?
  {
    var k := s.w.pc.k;
    if s.sh.status != STATUS_OK && k.Writing? then
      s.(w := s.w.(pc := Check(Ending(s.w.failCode)), failed := true))
    else if s.w.bufferNr < 0 then
      s.(w := s.w.(pc := Claim(k), bufferNr := 0))
    else if s.sh.status != STATUS_OK || Buf(s).used == 0 then
      s.(w := s.w.(pc := Resume(k)))
    else
      s.(w := s.w.(pc := Post(k)))
  }

  function WPost(s: State): State
    requires WriterDefined(s) && s.w.pc.Post?
  {
    s.(w := s.w.(pc := Await(s.w.pc.k), bufferNr := NextIndex(s.w.bufferNr, |s.sh.buffer|)),
       sh := SetBuf(s.sh, s.w.bufferNr, Buf(s).(readyForRead := Buf(s).readyForRead + 1)),
       h := s.h.(inFlight := s.h.inFlight + 1))
  }

  function WAwait(s: State): State
    requires WriterDefined(s) && s.w.pc.Await? && Buf(s).readyForWrite > 0
  {
    s.(w := s.w.(pc := Resume(s.w.pc.k)),
       sh := SetBuf(s.sh, s.w.bufferNr, Buf(s).(readyForWrite := Buf(s).readyForWrite - 1)))
  }

  /** What a buffer holds. */
  function Block(sh: Shared, i: int): seq<byte> {
    if 0 <= i < |sh.buffer| && sh.buffer[i].offset + sh.buffer[i].used <= |sh.memory|
    then sh.memory[sh.buffer[i].offset..sh.buffer[i].offset + sh.buffer[i].used] else []
  }

  function WEnd(s: State): State
    requires WriterDefined(s) && s.w.pc.End?
  {
    s.(w := s.w.(pc := PostEnd(s.w.pc.code)),
       sh := SetBuf(s.sh, s.w.bufferNr, Buf(s).(used := 0, status := s.w.pc.code)),
       h := s.h.(dropped := Block(s.sh, s.w.bufferNr)))
  }

  function WPostEnd(s: State): State
    requires WriterDefined(s) && s.w.pc.PostEnd?
  {
    s.(w := s.w.(pc := Done),
       sh := SetBuf(s.sh, s.w.bufferNr, Buf(s).(readyForRead := Buf(s).readyForRead + 1)),
       h := s.h.(inFlight := s.h.inFlight + 1))
  }

  function WriterStep(s: State): State
    requires WriterDefined(s) && WriterEnabled(s)
  {
    match s.w.pc
    case Ready => WReady(s)
    case Claim(_) => WClaim(s)
    case Copy(_) => WCopy(s)
    case Check(_) => WCheck(s)
    case Post(_) => WPost(s)
    case Await(_) => WAwait(s)
    case End(_) => WEnd(s)
    case PostEnd(_) => WPostEnd(s)
  }

  // ---------- the reader's steps ----------

  predicate ReaderDefined(s: State) {
    && s.r.nextBuffer < |s.sh.buffer|
    && (s.r.pc.PostWrite? ==> s.h.inFlight > 0)
  }

  /** Wait until the buffer is readable; a timeout ends the stream if the worker has died. */
  predicate ReaderEnabled(s: State)
    requires ReaderDefined(s)
  {
    && !s.r.ended
    && (s.r.pc.WaitRead? ==> s.sh.buffer[s.r.nextBuffer].readyForRead > 0 || !s.alive)
  }

  function RWait(s: State): State
    requires ReaderDefined(s) && ReaderEnabled(s) && s.r.pc.WaitRead?
  {
    var b := s.sh.buffer[s.r.nextBuffer];
    if b.readyForRead > 0 then
      s.(r := s.r.(pc := Own), sh := SetBuf(s.sh, s.r.nextBuffer, b.(readyForRead := b.readyForRead - 1)))
    else
      s.(r := s.r.(pc := Idle, ended := true, result := STATUS_ERROR))
  }

  function ROwn(s: State): State
    requires ReaderDefined(s) && ReaderEnabled(s) && s.r.pc.Own?
  {
    var b := s.sh.buffer[s.r.nextBuffer];
    if b.used == 0 then
      s.(r := s.r.(pc := Idle, ended := true, result := b.status))
    else
      s.(r := s.r.(pc := PostWrite, result := STATUS_OK),
         sh := SetBuf(s.sh, s.r.nextBuffer, b.(used := 0)),
         h := s.h.(delivered := s.h.delivered + Block(s.sh, s.r.nextBuffer),
                   sinceCancel := if s.r.closing then s.h.sinceCancel + 1 else s.h.sinceCancel))
  }

  function RPost(s: State): State
    requires ReaderDefined(s) && ReaderEnabled(s) && s.r.pc.PostWrite?
  {
    var b := s.sh.buffer[s.r.nextBuffer];
    s.(r := s.r.(pc := Idle, nextBuffer := NextIndex(s.r.nextBuffer, |s.sh.buffer|)),
       sh := SetBuf(s.sh, s.r.nextBuffer, b.(readyForWrite := b.readyForWrite + 1)),
       h := s.h.(inFlight := s.h.inFlight - 1))
  }

  function ReaderStep(s: State): State
    requires ReaderDefined(s) && ReaderEnabled(s)
  {
    match s.r.pc
    case Idle => s.(r := s.r.(pc := WaitRead))
    case WaitRead => RWait(s)
    case Own => ROwn(s)
    case PostWrite => RPost(s)
  }

  /** hdfstream_close_stream before the end: raise the cancel flag, then keep reading. */
  predicate CloseEnabled(s: State) {
    s.r.pc.Idle? && !s.r.ended && !s.r.closing
  }

  function CloseStep(s: State): State {
    s.(sh := s.sh.(status := STATUS_CANCEL), r := s.r.(closing := true), h := s.h.(sinceCancel := 0))
  }

  function Die(s: State): State {
    s.(alive := false)
  }

  // ---------- requests ----------

  datatype Request = Request(script: seq<seq<byte>>, okCode: int, failCode: int, bufferSize: nat)

  /** No request is being served: the stream is closed, and the worker waits for a command. */
  predicate Quiescent(s: State) {
    s.alive && s.r.ended && s.w.pc.Done?
  }

  /**
   The open functions: clear the status flag, re-arm the semaphores, send the request.
   The worker starts with no buffer claimed.
   */
  function StartRequest(s: State, q: Request): State {
    State(Rearmed(s.sh).(status := STATUS_OK),
          Writer(Ready, -1, q.bufferSize, q.script, q.okCode, q.failCode, false),
          Reader(Idle, 0, false, false, s.r.result),
          s.alive,
          History(Flatten(q.script), [], [], [], 0, 0))
  }

  /** A request whose file or dataset cannot be opened re-arms the ring but starts no stream. */
  function FailedOpen(s: State): State {
    s.(sh := Rearmed(s.sh).(status := STATUS_OK))
  }

  // ---------- runs ----------

  /** One step of either process while a request is being served. */
  ghost predicate Step(s: State, s': State) {
    || (WriterDefined(s) && WriterEnabled(s) && s' == WriterStep(s))
    || (ReaderDefined(s) && ReaderEnabled(s) && s' == ReaderStep(s))
    || (CloseEnabled(s) && s' == CloseStep(s))
    || (s.alive && s' == Die(s))
  }

  ghost predicate Opens(s: State, s': State, q: Request) {
    && Quiescent(s)
    && 0 < q.bufferSize <= s.sh.bufferSize
    && s' == StartRequest(s, q)
  }

  ghost predicate Next(s: State, s': State) {
    || Step(s, s')
    || (exists q :: Opens(s, s', q))
    || (Quiescent(s) && s' == FailedOpen(s))
  }

  /** The state after shared_data_populate, before the first request. */
  ghost predicate Initial(s: State) {
    && WellLaid(s.sh)
    && (forall i :: 0 <= i < |s.sh.buffer| ==>
          s.sh.buffer[i].used == s.sh.buffer[i].readyForWrite == s.sh.buffer[i].readyForRead == 0)
    && Quiescent(s)
    && !s.r.closing && s.r.result == s.w.okCode
    && s.h == History([], [], [], [], 0, 0)
  }

  ghost predicate Run(run: seq<State>) {
    && |run| > 0
    && Initial(run[0])
    && forall i :: 0 <= i < |run| - 1 ==> Next(run[i], run[i + 1])
  }
}
