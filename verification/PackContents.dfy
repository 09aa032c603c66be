/**
 Packing the contents of a dataset as a list of binary objects of limited size
 (src/hdf5/pack_contents.c, data types of fixed size).
 */
module PackContents {
  import opened Basics
  import opened Words
  import opened Msgpack

  // ---------- what should be written ----------

  /** The payload cut into pieces of maxSize bytes, the last one possibly shorter. */
  function Chunks(payload: seq<Byte>, maxSize: nat): (chunks: seq<seq<Byte>>)
    requires maxSize > 0
  {
    if payload == [] then []
    else
      var n := Min(|payload|, maxSize);
      [payload[..n]] + Chunks(payload[n..], maxSize)
  }

  function BinValues(chunks: seq<seq<Byte>>): (vs: seq<Value>)
    ensures |vs| == |chunks|
  {
    seq(|chunks|, i requires 0 <= i < |chunks| => Bin(chunks[i]))
  }

  /** The array as msgpack-numpy reads it. */
  function NdArray(type': Value, kind: Value, shape: seq<nat>, payload: seq<Byte>, maxSize: nat): Value
    requires maxSize > 0
  {
    Map(Fields(type', kind, shape, |payload|) + [Entry("data", Array(BinValues(Chunks(payload, maxSize))))])
  }

  function Numbers(ns: seq<nat>): (vs: seq<Value>)
    ensures |vs| == |ns|
  {
    seq(|ns|, i requires 0 <= i < |ns| => Int(ns[i]))
  }

  /** Number of binary objects needed. There are none for an empty payload. */
  function NrBins(maxSize: nat, n: nat): (bins: nat)
    requires maxSize > 0
    ensures bins * maxSize >= n && (n > 0 ==> (bins - 1) * maxSize < n) && (n == 0 ==> bins == 0)
  {
    var bins := (n + maxSize - 1) / maxSize;
    DivBounds(n + maxSize - 1, maxSize);
    bins
  }

  lemma DivBounds(a: nat, b: nat)
    requires b > 0
    ensures (a / b) * b <= a < (a / b) * b + b
  {}

  lemma DivUnique(a: nat, b: nat, q: nat)
    requires b > 0 && q * b <= a < q * b + b
    ensures a / b == q
  {
    DivBounds(a, b);
    if a / b > q { MulLe(q + 1, a / b, b); }
    if a / b < q { MulLe(a / b + 1, q, b); }
  }

  lemma DivStep(a: nat, b: nat)
    requires b > 0
    ensures (a + b) / b == a / b + 1
  {
    DivBounds(a, b);
    DivUnique(a + b, b, a / b + 1);
  }

  lemma OneBin(maxSize: nat, n: nat)
    requires 0 < n <= maxSize
    ensures NrBins(maxSize, n) == 1
  {
    DivUnique(n - 1, maxSize, 0);
    DivStep(n - 1, maxSize);
  }

  /** The number of bins the header announces is right, whatever the size of the payload. */
  lemma {:induction false} ChunkCount(payload: seq<Byte>, maxSize: nat)
    requires maxSize > 0
    ensures |Chunks(payload, maxSize)| == NrBins(maxSize, |payload|)
  {
    if |payload| > maxSize {
      ChunkCount(payload[maxSize..], maxSize);
      DivStep(|payload| - 1, maxSize);
    } else if payload != [] {
      assert payload[|payload|..] == [];
      OneBin(maxSize, |payload|);
    }
  }

  /** The bins together are the payload; none is empty and all but the last have the maximal size. */
  lemma {:induction false} ChunksAreThePayload(payload: seq<Byte>, maxSize: nat)
    requires maxSize > 0
    ensures Flatten(Chunks(payload, maxSize)) == payload
    ensures forall c :: c in Chunks(payload, maxSize) ==> 0 < |c| <= maxSize
    ensures forall i :: 0 <= i < |Chunks(payload, maxSize)| - 1 ==> |Chunks(payload, maxSize)[i]| == maxSize
  {
    if payload != [] {
      var n := Min(|payload|, maxSize);
      ChunksAreThePayload(payload[n..], maxSize);
      assert payload == payload[..n] + payload[n..];
      assert n < maxSize ==> payload[n..] == [];
    }
  }

  // ---------- what has been written part way through ----------

  /** The tokens of the first bytes w of a payload of `total` bytes. */
  function Written(w: seq<Byte>, total: nat, maxSize: nat): seq<Token>
    requires maxSize > 0
  {
    if w == [] then []
    else
      var bin := Min(total, maxSize);
      if |w| <= bin || bin == 0 then [BinT(bin)] + ByteTokens(w)
      else [BinT(bin)] + ByteTokens(w[..bin]) + Written(w[bin..], total - bin, maxSize)
  }

  /** How many bytes the current bin still has to receive after the first k bytes. */
  function LeftInBin(k: nat, total: nat, maxSize: nat): (left: nat)
    requires maxSize > 0 && k <= total
    ensures k + left <= total && left <= maxSize
  {
    if k == 0 then 0
    else if k <= Min(total, maxSize) then Min(total, maxSize) - k
    else LeftInBin(k - maxSize, total - maxSize, maxSize)
  }

  /** All of the payload written: the announced bins, complete. */
  lemma {:induction false} WrittenAll(payload: seq<Byte>, maxSize: nat)
    requires maxSize > 0
    ensures Written(payload, |payload|, maxSize) == EncodeAll(BinValues(Chunks(payload, maxSize)))
    ensures LeftInBin(|payload|, |payload|, maxSize) == 0
  {
    if payload != [] {
      var n := Min(|payload|, maxSize);
      var rest := Chunks(payload[n..], maxSize);
      WrittenAll(payload[n..], maxSize);
      assert BinValues([payload[..n]] + rest)[1..] == BinValues(rest);
      assert payload[..|payload|] == payload;
    }
  }

  lemma {:induction false} FillBin(k: nat, n: nat, total: nat, maxSize: nat)
    requires maxSize > 0 && k < total && 0 < n <= Room(k, total, maxSize)
    ensures k + n <= total && LeftInBin(k + n, total, maxSize) == Room(k, total, maxSize) - n
  {
    if k >= Min(total, maxSize) { FillBin(k - maxSize, n, total - maxSize, maxSize); }
  }

  lemma WriteFirstBin(w: seq<Byte>, p: seq<Byte>, total: nat, maxSize: nat)
    requires maxSize > 0 && |w| < Min(total, maxSize) && p != []
    requires |p| <= Room(|w|, total, maxSize)
    ensures Written(w + p, total, maxSize) == Written(w, total, maxSize) + PieceTokens(|w|, p, total, maxSize)
  {
    var bin := Min(total, maxSize);
    assert |w + p| <= bin;
    assert Written(w + p, total, maxSize) == [BinT(bin)] + ByteTokens(w + p);
    assert ByteTokens(w + p) == ByteTokens(w) + ByteTokens(p);
  }

  /** The next bytes of the payload are appended to the bin, after a new header if the bin is full. */
  lemma {:induction false} WritePiece(w: seq<Byte>, p: seq<Byte>, total: nat, maxSize: nat)
    requires maxSize > 0 && |w| < total && p != []
    requires |p| <= Room(|w|, total, maxSize)
    ensures Written(w + p, total, maxSize) == Written(w, total, maxSize) + PieceTokens(|w|, p, total, maxSize)
  {
    if |w| < Min(total, maxSize) {
      WriteFirstBin(w, p, total, maxSize);
    } else {
      var w', total' := w[maxSize..], total - maxSize;
      WrittenCut(w, total, maxSize);
      WrittenCut(w + p, total, maxSize);
      CutAppend(w, p, maxSize);
      WritePiece(w', p, total', maxSize);
      AppendBehind(FullBin(w[..maxSize]), Written(w', total', maxSize), PieceTokens(|w'|, p, total', maxSize),
                   Written(w, total, maxSize), Written(w' + p, total', maxSize), Written(w + p, total, maxSize));
    }
  }

  lemma AppendBehind<T>(head: seq<T>, a: seq<T>, more: seq<T>, headA: seq<T>, aMore: seq<T>, all: seq<T>)
    requires headA == head + a && aMore == a + more && all == head + aMore
    ensures all == headA + more
  {}

  lemma CutAppend<T>(w: seq<T>, p: seq<T>, n: nat)
    requires n <= |w|
    ensures (w + p)[n..] == w[n..] + p && (w + p)[..n] == w[..n]
  {}

  function FullBin(bytes: seq<Byte>): seq<Token> {
    [BinT(|bytes|)] + ByteTokens(bytes)
  }

  /** The first bin and the rest, if the first bin is complete. */
  lemma WrittenCut(w: seq<Byte>, total: nat, maxSize: nat)
    requires 0 < maxSize <= |w| <= total
    ensures Written(w, total, maxSize) == FullBin(w[..maxSize]) + Written(w[maxSize..], total - maxSize, maxSize)
    ensures LeftInBin(|w|, total, maxSize) == LeftInBin(|w| - maxSize, total - maxSize, maxSize)
  {
    if |w| == maxSize {
      assert w[..maxSize] == w && w[maxSize..] == [];
    }
  }

  /** The room in the bin that receives the next byte, which is a new one if the last one is full. */
  function Room(k: nat, total: nat, maxSize: nat): nat
    requires maxSize > 0 && k <= total
  {
    if LeftInBin(k, total, maxSize) == 0 then Min(total - k, maxSize) else LeftInBin(k, total, maxSize)
  }

  function NewBin(k: nat, total: nat, maxSize: nat): seq<Token>
    requires maxSize > 0 && k <= total
  {
    if LeftInBin(k, total, maxSize) == 0 then [BinT(Room(k, total, maxSize))] else []
  }

  function PieceTokens(k: nat, p: seq<Byte>, total: nat, maxSize: nat): seq<Token>
    requires maxSize > 0 && k <= total
  {
    NewBin(k, total, maxSize) + ByteTokens(p)
  }

  // ---------- the two functions of the source ----------

  class PackContentsInfo {
    var maxSize: nat
    var nrBins: nat
    var totalBytesLeft: nat
    var bytesLeftInBin: nat
    ghost var total: nat
    ghost var written: seq<Byte>

    constructor ()
    {}

    ghost predicate Valid()
      reads this
    {
      && maxSize > 0 && |written| <= total && nrBins == NrBins(maxSize, total)
      && bytesLeftInBin == LeftInBin(|written|, total, maxSize)
      && totalBytesLeft == total - |written| - bytesLeftInBin
    }

    /**
     pack_contents_header: everything up to and including the header of the data array. The number of
     bins is computed in 64 bits, and the number of bytes is announced as a signed number.
     */
    method Header(pk: Packer, maxSize: nat, type': Value, kind: Value, dims: seq<nat>, nrBytes: nat)
      requires 0 < maxSize < U64 / 2 && nrBytes < U64
      modifies this, pk
      ensures this.maxSize == maxSize && total == nrBytes && written == []
      ensures pk.out == old(pk.out) + HeaderTokens(type', kind, dims, AsLong(nrBytes), Bins64(maxSize, nrBytes))
      ensures nrBytes < U64 / 2 ==> Valid()
    {
      this.maxSize := maxSize;
      nrBins := Bins64(maxSize, nrBytes);
      ghost var base, f := pk.out + [MapT(6)], Fields(type', kind, dims, AsLong(nrBytes));
      FieldsOneByOne(type', kind, dims, AsLong(nrBytes));
      pk.Put(MapT(6));
      pk.PutEntry("nd", True, base, []);
      pk.PutEntry("type", type', base, f[..1]);
      pk.PutEntry("kind", kind, base, f[..2]);
      PutShape(pk, dims, base, f[..3]);
      pk.PutEntry("nbytes", Int(AsLong(nrBytes)), base, f[..4]);
      pk.Put(StrT("data"));
      pk.Put(ArrayT(nrBins));
      HeaderRegroup(old(pk.out), [MapT(6)], EncodeEntries(f), StrT("data"), ArrayT(nrBins));
      totalBytesLeft := nrBytes;
      bytesLeftInBin := 0;
      total := nrBytes;
      written := [];
    }

    method PutShape(pk: Packer, dims: seq<nat>, ghost base: seq<Token>, ghost before: seq<Entry>)
      requires pk.out == base + EncodeEntries(before)
      modifies pk
      ensures pk.out == base + EncodeEntries(before + [Entry("shape", Array(Numbers(dims)))])
    {
      ghost var e := Entry("shape", Array(Numbers(dims)));
      EncodeEntriesJoin(before, [e]);
      OneEntry(e);
      pk.Put(StrT("shape"));
      PutNumbers(pk, dims);
      Associate(base, EncodeEntries(before), EncodeEntries([e]));
      Associate(base + EncodeEntries(before), [StrT("shape")], Encode(e.value));
    }

    method PutNumbers(pk: Packer, ns: seq<nat>)
      modifies pk
      ensures pk.out == old(pk.out) + Encode(Array(Numbers(ns)))
    {
      ghost var before := pk.out;
      pk.Put(ArrayT(|ns|));
      var i := 0;
      while i < |ns|
        invariant 0 <= i <= |ns|
        invariant pk.out == before + [ArrayT(|ns|)] + EncodeAll(Numbers(ns[..i]))
      {
        assert Numbers(ns[..i + 1]) == Numbers(ns[..i]) + [Int(ns[i])];
        EncodeAllJoin(Numbers(ns[..i]), [Int(ns[i])]);
        assert EncodeAll([Int(ns[i])]) == [IntT(ns[i])];
        pk.Put(IntT(ns[i]));
        i := i + 1;
      }
      assert ns[..|ns|] == ns;
    }

    /**
     pack_contents_body: the bytes of one buffer, which may end in the middle of a bin. `base` is the
     output before the body.
     */
    method Body(pk: Packer, buffer: array<Byte>, length: nat, ghost base: seq<Token>)
      requires Valid() && length <= buffer.Length && |written| + length <= total
      requires pk.out == base + Written(written, total, maxSize)
      modifies this`totalBytesLeft, this`bytesLeftInBin, this`written, pk
      ensures Valid() && written == old(written) + buffer[..length]
      ensures pk.out == base + Written(written, total, maxSize)
    {
      var left: nat, offset := length, 0;
      while left > 0
        invariant left + offset == length
        invariant Valid() && written == old(written) + buffer[..offset]
        invariant pk.out == base + Written(written, total, maxSize)
      {
        var n := Piece(pk, buffer, offset, left, base);
        assert buffer[..offset + n] == buffer[..offset] + buffer[offset..offset + n];
        left := left - n;
        offset := offset + n;
      }
    }

    /** One iteration: a new header if the bin is full, then as many bytes as fit. */
    method Piece(pk: Packer, buffer: array<Byte>, offset: nat, left: nat, ghost base: seq<Token>) returns (n: nat)
      requires Valid() && 0 < left && offset + left <= buffer.Length && |written| + left <= total
      requires pk.out == base + Written(written, total, maxSize)
      modifies this`totalBytesLeft, this`bytesLeftInBin, this`written, pk
      ensures Valid() && 0 < n <= left && written == old(written) + buffer[offset..offset + n]
      ensures pk.out == base + Written(written, total, maxSize)
    {
      ghost var k, before := |written|, Written(written, total, maxSize);
      StartBin(pk);
      n := Min(left, bytesLeftInBin);
      assert offset + n <= buffer.Length;
      ghost var p := buffer[offset..offset + n];
      WritePiece(written, p, total, maxSize);
      FillBin(k, n, total, maxSize);
      pk.PutAll(ByteTokens(buffer[offset..offset + n]));
      AssociateFour(base, before, NewBin(k, total, maxSize), ByteTokens(p));
      assert |written + p| == k + n;
      written := written + p;
      assert bytesLeftInBin >= n;
      bytesLeftInBin := bytesLeftInBin - n;
    }

    /** Writes the header of a new bin if the last one is full. */
    method StartBin(pk: Packer)
      requires Valid() && |written| < total
      modifies this`totalBytesLeft, this`bytesLeftInBin, pk
      ensures bytesLeftInBin == Room(|written|, total, maxSize) > 0
      ensures totalBytesLeft == total - |written| - bytesLeftInBin
      ensures pk.out == old(pk.out) + NewBin(|written|, total, maxSize)
    {
      if bytesLeftInBin == 0 {
        NrBinsPositive(maxSize, total, nrBins);
        assert nrBins > 0;
        var binSize := Min(totalBytesLeft, maxSize);
        bytesLeftInBin := binSize;
        totalBytesLeft := totalBytesLeft - binSize;
        pk.Put(BinT(binSize));
      }
    }
  }

  lemma NrBinsPositive(maxSize: nat, n: nat, bins: nat)
    requires n > 0 && bins * maxSize >= n
    ensures bins > 0
  {}

  /** The number of bins as the code computes it. */
  function Bins64(maxSize: nat, n: nat): (bins: nat)
    requires 0 < maxSize < U64 / 2
    ensures n < U64 / 2 ==> bins == NrBins(maxSize, n)
  {
    AddU64(n, maxSize - 1) / maxSize
  }

  /** The entries before the data. */
  function Fields(type': Value, kind: Value, dims: seq<nat>, nrBytes: int): seq<Entry> {
    [Entry("nd", True), Entry("type", type'), Entry("kind", kind), Entry("shape", Array(Numbers(dims))),
     Entry("nbytes", Int(nrBytes))]
  }

  /** The tokens before the first bin: what they announce is the number of bytes and of bins. */
  function HeaderTokens(type': Value, kind: Value, dims: seq<nat>, nrBytes: int, bins: nat): seq<Token> {
    [MapT(6)] + EncodeEntries(Fields(type', kind, dims, nrBytes)) + [StrT("data"), ArrayT(bins)]
  }

  /** Header and body together are one well-formed object. */
  lemma HeaderAndBody(type': Value, kind: Value, dims: seq<nat>, payload: seq<Byte>, maxSize: nat)
    requires maxSize > 0
    ensures HeaderTokens(type', kind, dims, |payload|, NrBins(maxSize, |payload|))
            + Written(payload, |payload|, maxSize)
         == Encode(NdArray(type', kind, dims, payload, maxSize))
  {
    ChunkCount(payload, maxSize);
    WrittenAll(payload, maxSize);
    var bins := BinValues(Chunks(payload, maxSize));
    var fields := Fields(type', kind, dims, |payload|);
    EncodeEntriesJoin(fields, [Entry("data", Array(bins))]);
    OneEntry(Entry("data", Array(bins)));
    DataRegroup([MapT(6)], EncodeEntries(fields), StrT("data"), ArrayT(|bins|), EncodeAll(bins));
  }

  lemma OneEntry(e: Entry)
    ensures EncodeEntries([e]) == [StrT(e.key)] + Encode(e.value)
  {}

  lemma DataRegroup<T>(a: seq<T>, b: seq<T>, x: T, y: T, c: seq<T>)
    ensures a + b + [x, y] + c == a + (b + ([x] + ([y] + c)))
  {}

  lemma HeaderRegroup<T>(a: seq<T>, b: seq<T>, c: seq<T>, x: T, y: T)
    ensures a + b + c + [x] + [y] == a + (b + c + [x, y])
  {}

  lemma FieldsOneByOne(type': Value, kind: Value, dims: seq<nat>, nrBytes: int)
    ensures var f := Fields(type', kind, dims, nrBytes);
            && f[..1] == [Entry("nd", True)] == [] + [Entry("nd", True)]
            && f[..2] == f[..1] + [Entry("type", type')] && f[..3] == f[..2] + [Entry("kind", kind)]
            && f[..4] == f[..3] + [Entry("shape", Array(Numbers(dims)))]
            && f == f[..4] + [Entry("nbytes", Int(nrBytes))]
  {}

  // ---------- what fits in the format ----------

  lemma NumbersFit(dims: seq<nat>)
    ensures AllFit(Encode(Array(Numbers(dims)))) <==>
              |dims| <= MAX_LENGTH && forall d :: 0 <= d < |dims| ==> dims[d] < U64
  {
    ValueFits(Array(Numbers(dims)));
    ItemsFit(Numbers(dims));
    forall d | 0 <= d < |dims| ensures AllFit(Encode(Numbers(dims)[d])) <==> dims[d] < U64 {
      ValueFits(Numbers(dims)[d]);
    }
  }

  lemma BinsFit(payload: seq<Byte>, maxSize: nat)
    requires 0 < maxSize <= MAX_LENGTH
    ensures AllFit(Encode(Array(BinValues(Chunks(payload, maxSize))))) <==> NrBins(maxSize, |payload|) <= MAX_LENGTH
  {
    var chunks := Chunks(payload, maxSize);
    ChunkCount(payload, maxSize);
    ChunksAreThePayload(payload, maxSize);
    ValueFits(Array(BinValues(chunks)));
    ItemsFit(BinValues(chunks));
    forall i | 0 <= i < |chunks| ensures AllFit(Encode(BinValues(chunks)[i])) {
      assert chunks[i] in chunks;
      ValueFits(BinValues(chunks)[i]);
    }
  }

  /**
   With bins of a size that fits, the whole object fits if and only if the description of its type does,
   the shape and the size are words, and there are not too many bins.
   */
  lemma ArrayFitsIff(type': Value, kind: Value, dims: seq<nat>, payload: seq<Byte>, maxSize: nat)
    requires 0 < maxSize <= MAX_LENGTH
    ensures AllFit(Encode(NdArray(type', kind, dims, payload, maxSize))) <==>
            && AllFit(Encode(type')) && AllFit(Encode(kind))
            && |dims| <= MAX_LENGTH && (forall d :: 0 <= d < |dims| ==> dims[d] < U64)
            && |payload| < U64 && NrBins(maxSize, |payload|) <= MAX_LENGTH
  {
    var data := Array(BinValues(Chunks(payload, maxSize)));
    var es := Fields(type', kind, dims, |payload|) + [Entry("data", data)];
    ValueFits(Map(es));
    EntriesFit(es);
    assert es == [Entry("nd", True), Entry("type", type'), Entry("kind", kind), Entry("shape", Array(Numbers(dims))),
                  Entry("nbytes", Int(|payload|)), Entry("data", data)];
    ValueFits(Int(|payload|));
    NumbersFit(dims);
    BinsFit(payload, maxSize);
    SixFit(es);
    assert |"type"| == |"kind"| == |"data"| == 4 && |"nd"| == 2 && |"shape"| == 5 && |"nbytes"| == 6;
    assert AllFit(Encode(True));
  }

  lemma SixFit(es: seq<Entry>)
    requires |es| == 6
    ensures (forall i :: 0 <= i < |es| ==> EntryFits(es[i])) <==>
            && EntryFits(es[0]) && EntryFits(es[1]) && EntryFits(es[2])
            && EntryFits(es[3]) && EntryFits(es[4]) && EntryFits(es[5])
  {}
}
