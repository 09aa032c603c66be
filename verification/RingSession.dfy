/** The two processes' code, updating shared memory in place, one atomic step at a time. */
module RingSession {
  import opened Basics
  import opened SharedData
  import opened Ring
  import opened RingInvariant
  import opened RingTheorems

  class Session {
    const srd: SharedReaderData
    var w: Writer   // struct msgpack_chunkbuffer, and where the worker is in it
    var r: Reader   // struct data_stream, and where the parent is in it
    var alive: bool
    ghost var h: History

    ghost function View(): State
      reads this, srd, srd.buffer, srd.memory
    {
      State(srd.View(), w, r, alive, h)
    }

    /** Start the worker: its shared memory is populated, and no request has been sent. */
    constructor (rawHeaderSize: nat, nrBuffers: nat, bufferSize: nat)
      requires nrBuffers >= 1
      ensures Initial(View())
      ensures fresh(srd) && fresh(srd.buffer) && fresh(srd.memory)
    {
      srd := new SharedReaderData.Populate(rawHeaderSize, nrBuffers, bufferSize);
      w := Writer(Done, -1, 0, [], 0, 0, false);
      r := Reader(Idle, 0, true, false, 0);
      alive := true;
      h := History([], [], [], [], 0, 0);
    }

    method SemPostReadable(i: nat)
      requires i < srd.buffer.Length
      modifies srd.buffer
      ensures srd.View() == SetBuf(old(srd.View()), i,
                old(srd.buffer[i]).(readyForRead := old(srd.buffer[i]).readyForRead + 1))
    {
      srd.buffer[i] := srd.buffer[i].(readyForRead := srd.buffer[i].readyForRead + 1);
    }

    /** memcpy into shared memory, and the update of the used count. */
    method CopyIn(i: nat, data: seq<byte>)
      requires i < srd.buffer.Length
      requires srd.buffer[i].offset + srd.buffer[i].used + |data| <= srd.memory.Length
      modifies srd.buffer, srd.memory
      ensures srd.View() == CopyInto(old(srd.View()), i, data)
    {
      var at := srd.buffer[i].offset + srd.buffer[i].used;
      var k := 0;
      while k < |data|
        invariant 0 <= k <= |data|
        invariant forall j :: 0 <= j < srd.memory.Length ==>
                    srd.memory[j] == if at <= j < at + k then data[j - at] else old(srd.memory[j])
        invariant srd.buffer[..] == old(srd.buffer[..])
      {
        srd.memory[at + k] := data[k];
        k := k + 1;
      }
      srd.buffer[i] := srd.buffer[i].(used := srd.buffer[i].used + |data|);
      assert srd.memory[..] == WriteMemory(old(srd.memory[..]), at, data);
    }

    method StepWriter()
      requires WriterDefined(View()) && WriterEnabled(View())
      modifies this, srd.buffer, srd.memory
      ensures View() == WriterStep(old(View()))
    {
      ghost var t := WriterStep(View());
      match w.pc {
        case Ready =>
          if w.script == [] {
            w := w.(pc := Check(Ending(w.okCode)));
          } else if w.bufferNr < 0 {
            w := w.(pc := Claim(Writing(w.script[0])), bufferNr := 0, script := w.script[1..]);
          } else {
            w := w.(pc := Copy(w.script[0]), script := w.script[1..]);
          }
        case Claim(k) =>
          var b := srd.buffer[0];
          srd.buffer[0] := b.(readyForWrite := b.readyForWrite - 1, used := 0);
          w := w.(pc := Resume(k));
        case Copy(left) =>
          if left == [] {
            w := w.(pc := Ready);
          } else {
            var k := CopyLength(w.bufferSize, srd.buffer[w.bufferNr].used, |left|);
            CopyIn(w.bufferNr, left[..k]);
            if srd.buffer[w.bufferNr].used >= w.bufferSize / 2 {
              w := w.(pc := Check(Writing(left[k..])));
            } else {
              w := w.(pc := Copy(left[k..]));
            }
          }
        case Check(k) =>
          if srd.status != STATUS_OK && k.Writing? {
            w := w.(pc := Check(Ending(w.failCode)), failed := true);
          } else if w.bufferNr < 0 {
            w := w.(pc := Claim(k), bufferNr := 0);
          } else if srd.status != STATUS_OK || srd.buffer[w.bufferNr].used == 0 {
            w := w.(pc := Resume(k));
          } else {
            w := w.(pc := Post(k));
          }
        case Post(k) =>
          SemPostReadable(w.bufferNr);
          w := w.(pc := Await(k), bufferNr := NextIndex(w.bufferNr, srd.buffer.Length));
        case Await(k) =>
          var b := srd.buffer[w.bufferNr];
          srd.buffer[w.bufferNr] := b.(readyForWrite := b.readyForWrite - 1);
          w := w.(pc := Resume(k));
        case End(code) =>
          srd.buffer[w.bufferNr] := srd.buffer[w.bufferNr].(used := 0, status := code);
          w := w.(pc := PostEnd(code));
        case PostEnd(_) =>
          SemPostReadable(w.bufferNr);
          w := w.(pc := Done);
      }
      h := t.h;
    }

    method StepReader() returns (block: seq<byte>)
      requires ReaderDefined(View()) && ReaderEnabled(View())
      requires r.pc.Own? ==> srd.buffer[r.nextBuffer].offset + srd.buffer[r.nextBuffer].used <= srd.memory.Length
      modifies this, srd.buffer
      ensures View() == ReaderStep(old(View()))
      ensures h.delivered == old(h.delivered) + block
    {
      ghost var t := ReaderStep(View());
      block := [];
      match r.pc {
        case Idle =>
          r := r.(pc := WaitRead);
        case WaitRead =>
          var b := srd.buffer[r.nextBuffer];
          if b.readyForRead > 0 {
            srd.buffer[r.nextBuffer] := b.(readyForRead := b.readyForRead - 1);
            r := r.(pc := Own);
          } else {
            r := r.(pc := Idle, ended := true, result := STATUS_ERROR);
          }
        case Own =>
          var b := srd.buffer[r.nextBuffer];
          if b.used == 0 {
            r := r.(pc := Idle, ended := true, result := b.status);
          } else {
            block := srd.memory[b.offset..b.offset + b.used];
            srd.buffer[r.nextBuffer] := b.(used := 0);
            r := r.(pc := PostWrite, result := STATUS_OK);
          }
        case PostWrite =>
          var b := srd.buffer[r.nextBuffer];
          srd.buffer[r.nextBuffer] := b.(readyForWrite := b.readyForWrite + 1);
          r := r.(pc := Idle, nextBuffer := NextIndex(r.nextBuffer, srd.buffer.Length));
      }
      h := t.h;
    }

    /** The open functions, up to the point where the worker has the request. */
    method Open(q: Request)
      requires Quiescent(View()) && 0 < q.bufferSize <= srd.bufferSize
      modifies this, srd, srd.buffer
      ensures View() == StartRequest(old(View()), q)
    {
      srd.status := STATUS_OK;
      srd.InitSemaphores();
      w := Writer(Ready, -1, q.bufferSize, q.script, q.okCode, q.failCode, false);
      r := Reader(Idle, 0, false, false, r.result);
      h := History(Flatten(q.script), [], [], [], 0, 0);
    }

    /** hdfstream_close_stream before the end of the stream: ask the worker to stop. */
    method Cancel()
      requires CloseEnabled(View())
      modifies this, srd
      ensures View() == CloseStep(old(View()))
    {
      srd.status := STATUS_CANCEL;
      r := r.(closing := true);
      h := h.(sinceCancel := 0);
    }

    /** One step of whichever process the scheduler picks; the worker may also die. */
    method StepAny() returns (block: seq<byte>)
      requires Live(View()) && !r.ended
      modifies this, srd, srd.buffer, srd.memory
      ensures Step(old(View()), View())
      ensures h.delivered == old(h.delivered) + block
    {
      ghost var s := View();
      LiveIsDefined(s);
      LiveIsNotStuck(s);
      var canWrite := alive && !w.pc.Done?
                      && (w.pc.Claim? || w.pc.Await? ==> srd.buffer[w.bufferNr].readyForWrite > 0);
      var choice: nat := *;
      block := [];
      if choice == 0 && alive {
        alive := false;
      } else if choice == 1 && r.pc.Idle? && !r.closing {
        Cancel();
      } else if canWrite && (choice == 2 || (r.pc.WaitRead? && srd.buffer[r.nextBuffer].readyForRead == 0)) {
        StepWriter();
      } else {
        BlockFits(s, r.nextBuffer);
        block := StepReader();
      }
    }

    /**
     Serve one whole request, under any schedule, with the caller free to cancel and the worker
     free to die at any point. The loop ends; what was received is a prefix of what was written;
     and it is all of it if the worker survived and the caller did not cancel. Blocks read after a
     cancel are thrown away.
     */
    method Serve(q: Request) returns (received: seq<byte>)
      requires Quiescent(View()) && Rest(View()) && 0 < q.bufferSize <= srd.bufferSize
      modifies this, srd, srd.buffer, srd.memory
      ensures r.ended
      ensures received <= Flatten(q.script)
      ensures w.pc.Done? && !r.closing ==> received == Flatten(q.script) && r.result == q.okCode
      ensures !w.pc.Done? ==> !alive && r.result == STATUS_ERROR
      ensures r.result == STATUS_OK && !r.closing ==> received == Flatten(q.script)
      ensures alive ==> Quiescent(View()) && Rest(View())
    {
      RequestGoesLive(View(), StartRequest(View(), q), q);
      Open(q);
      received := [];
      while !r.ended
        invariant Live(View())
        invariant Gathered(received, View())
        invariant h.requested == Flatten(q.script) && w.okCode == q.okCode
        invariant r.ended && !w.pc.Done? ==> r.result == STATUS_ERROR
        decreases StepsLeft(View())
      {
        ghost var s := View();
        var block := StepAny();
        Gather(s, View(), received, block);
        if !r.closing { received := received + block; }
        LiveStep(s, View());
        StepCounts(s, View());
        StepKeepsRequest(s, View());
      }
      if w.pc.Done? {
        LiveEnds(View());
      } else {
        DeliveredIsPrefix(View());
      }
    }
  }

  /** The caller has everything that was read, up to the cancel if there was one. */
  ghost predicate Gathered(received: seq<byte>, s: State) {
    received <= s.h.delivered && (!s.r.closing ==> received == s.h.delivered)
  }

  lemma Gather(s: State, t: State, received: seq<byte>, block: seq<byte>)
    requires Live(s) && !s.r.ended && Step(s, t) && t.h.delivered == s.h.delivered + block && Gathered(received, s)
    ensures Gathered(if t.r.closing then received else received + block, t)
  {
    LiveIsDefined(s);
  }

  lemma BlockFits(s: State, i: nat)
    requires Live(s) && i < |s.sh.buffer|
    ensures s.sh.buffer[i].offset + s.sh.buffer[i].used <= |s.sh.memory|
  {
    assert BufferInv(s, s.sh.buffer[i], PosIn(s, i));
    assert InBounds(s.sh, i);
  }
}
