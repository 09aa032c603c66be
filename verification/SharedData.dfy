/**
 The shared memory region of one reader process (src/lib/shared_data.c): a header,
 then NR_BUFFERS buffers of equal size, each guarded by a pair of semaphores.

 The number of buffers and their size are symbolic. The size of the C header struct is
 platform dependent, so it is a parameter here.
 */
module SharedData {

  type byte = b: int | 0 <= b < 256

  const ALIGNMENT: nat := 1024

  const STATUS_OK := 0
  const STATUS_ERROR := 2
  const STATUS_CANCEL := 3

  /** One entry of the buffer array. The offset is relative to the start of shared memory. */
  datatype Buffer = Buffer(offset: nat, used: nat, readyForWrite: nat, readyForRead: nat, status: int)

  /** The contents of the region at one moment. */
  datatype Shared = Shared(status: int, bufferSize: nat, buffer: seq<Buffer>, memory: seq<byte>)

  predicate InBounds(sh: Shared, i: int)
    requires 0 <= i < |sh.buffer|
  {
    sh.buffer[i].offset + sh.bufferSize <= |sh.memory|
  }

  predicate Before(sh: Shared, i: int, j: int)
    requires 0 <= i < |sh.buffer| && 0 <= j < |sh.buffer|
  {
    sh.buffer[i].offset + sh.bufferSize <= sh.buffer[j].offset
  }

  /** Every buffer lies inside the region, and no two overlap. */
  ghost predicate WellLaid(sh: Shared)
  {
    && |sh.buffer| >= 1
    && (forall i :: 0 <= i < |sh.buffer| ==> InBounds(sh, i))
    && (forall i, j :: 0 <= i < j < |sh.buffer| ==> Before(sh, i, j))
  }

  function SetBuf(sh: Shared, i: int, b: Buffer): Shared
    requires 0 <= i < |sh.buffer|
  {
    sh.(buffer := sh.buffer[i := b])
  }

  lemma SetBufKeepsLayout(sh: Shared, i: int, b: Buffer)
    requires WellLaid(sh) && 0 <= i < |sh.buffer| && b.offset == sh.buffer[i].offset
    ensures WellLaid(SetBuf(sh, i, b))
  {
    var t := SetBuf(sh, i, b);
    forall j | 0 <= j < |t.buffer| ensures InBounds(t, j) {
      assert InBounds(sh, j);
    }
    forall j, k | 0 <= j < k < |t.buffer| ensures Before(t, j, k) {
      assert Before(sh, j, k);
    }
  }

  /** The header size, rounded up to a multiple of the alignment. */
  function HeaderSize(rawSize: nat): (size: nat)
    ensures size % ALIGNMENT == 0
    ensures rawSize <= size < rawSize + ALIGNMENT
  {
    if rawSize % ALIGNMENT != 0 then rawSize - rawSize % ALIGNMENT + ALIGNMENT else rawSize
  }

  /** Buffer state before a request: writable, not readable, empty. */
  function RearmedBuffer(b: Buffer): Buffer {
    b.(used := 0, readyForRead := 0, readyForWrite := if b.readyForWrite < 1 then 1 else b.readyForWrite)
  }

  function Rearmed(sh: Shared): Shared {
    sh.(buffer := seq(|sh.buffer|, i requires 0 <= i < |sh.buffer| => RearmedBuffer(sh.buffer[i])))
  }

  lemma BufferEndStep(base: nat, j: nat, size: nat)
    ensures base + j * size + size == base + (j + 1) * size
  {
  }

  class SharedReaderData {
    var status: int
    const bufferSize: nat
    const buffer: array<Buffer>
    const memory: array<byte>

    function View(): Shared
      reads this, buffer, memory
    {
      Shared(status, bufferSize, buffer[..], memory[..])
    }

    /** shared_data_size and shared_data_populate: lay out the region, all semaphores at zero. */
    constructor Populate(rawHeaderSize: nat, nrBuffers: nat, bufferSize: nat)
      requires nrBuffers >= 1
      ensures fresh(buffer) && fresh(memory)
      ensures WellLaid(View())
      ensures View().bufferSize == bufferSize && |View().buffer| == nrBuffers
      ensures |View().memory| == HeaderSize(rawHeaderSize) + nrBuffers * bufferSize
      ensures forall i :: 0 <= i < nrBuffers ==>
                View().buffer[i] == Buffer(HeaderSize(rawHeaderSize) + i * bufferSize, 0, 0, 0, 0)
    {
      var header := HeaderSize(rawHeaderSize);
      status := 0;
      this.bufferSize := bufferSize;
      buffer := new Buffer[nrBuffers](_ => Buffer(0, 0, 0, 0, 0));
      memory := new byte[header + nrBuffers * bufferSize](_ => 0);
      new;
      var j := 0;
      while j < nrBuffers
        invariant 0 <= j <= nrBuffers == buffer.Length
        invariant memory.Length == header + nrBuffers * bufferSize
        invariant forall i :: 0 <= i < j ==> buffer[i] == Buffer(header + i * bufferSize, 0, 0, 0, 0)
        invariant forall i :: 0 <= i < j ==> buffer[i].offset + bufferSize <= header + j * bufferSize
        invariant forall i, k :: 0 <= i < k < j ==> buffer[i].offset + bufferSize <= buffer[k].offset
      {
        BufferEndStep(header, j, bufferSize);
        buffer[j] := Buffer(header + j * bufferSize, 0, 0, 0, 0);
        j := j + 1;
      }
    }

    /** shared_data_init_semaphores: three passes over the buffers, by single waits and posts. */
    method InitSemaphores()
      modifies buffer
      ensures View() == Rearmed(old(View()))
    {
      var n := buffer.Length;
      var i := 0;
      while i < n
        invariant 0 <= i <= n
        invariant forall k :: 0 <= k < n ==>
                    buffer[k] == if k < i then old(buffer[k]).(readyForRead := 0) else old(buffer[k])
      {
        while buffer[i].readyForRead > 0
          invariant forall k :: 0 <= k < n && k != i ==>
                      buffer[k] == if k < i then old(buffer[k]).(readyForRead := 0) else old(buffer[k])
          invariant buffer[i] == old(buffer[i]).(readyForRead := buffer[i].readyForRead)
          decreases buffer[i].readyForRead
        {
          buffer[i] := buffer[i].(readyForRead := buffer[i].readyForRead - 1);
        }
        i := i + 1;
      }
      i := 0;
      while i < n
        invariant 0 <= i <= n
        invariant forall k :: 0 <= k < n ==>
                    buffer[k] == if k < i then RearmedBuffer(old(buffer[k])).(used := old(buffer[k]).used)
                                 else old(buffer[k]).(readyForRead := 0)
      {
        while buffer[i].readyForWrite < 1
          invariant forall k :: 0 <= k < n && k != i ==>
                      buffer[k] == if k < i then RearmedBuffer(old(buffer[k])).(used := old(buffer[k]).used)
                                   else old(buffer[k]).(readyForRead := 0)
          invariant buffer[i] == old(buffer[i]).(readyForRead := 0)
                 || (&& buffer[i] == RearmedBuffer(old(buffer[i])).(used := old(buffer[i]).used)
                     && buffer[i].readyForWrite >= 1)
          decreases 1 - buffer[i].readyForWrite
        {
          buffer[i] := buffer[i].(readyForWrite := buffer[i].readyForWrite + 1);
        }
        i := i + 1;
      }
      i := 0;
      while i < n
        invariant 0 <= i <= n
        invariant forall k :: 0 <= k < n ==>
                    buffer[k] == if k < i then RearmedBuffer(old(buffer[k]))
                                 else RearmedBuffer(old(buffer[k])).(used := old(buffer[k]).used)
      {
        buffer[i] := buffer[i].(used := 0);
        i := i + 1;
      }
      assert buffer[..] == Rearmed(old(View())).buffer;
    }
  }

  lemma RearmedKeepsLayout(sh: Shared)
    requires WellLaid(sh)
    ensures WellLaid(Rearmed(sh))
  {
    var t := Rearmed(sh);
    forall j | 0 <= j < |t.buffer| ensures InBounds(t, j) {
      assert InBounds(sh, j);
    }
    forall j, k | 0 <= j < k < |t.buffer| ensures Before(t, j, k) {
      assert Before(sh, j, k);
    }
  }
}
