/**
 Packing slices of a dataset (src/hdf5/pack_dataset.c): select what fits in the buffer, read it,
 pack it, and so on. What comes out is the requested slices, stacked along the first dimension.
 */
module PackDataset {
  import opened Basics
  import opened Words
  import opened Selection
  import opened MultiSlice
  import opened Msgpack
  import PackContents

  /** A dataset of a type of fixed size: each element is a number of bytes. */
  datatype Dataset = Dataset(dims: seq<nat>, elementSize: nat, type': Value, kind: Value, value: Coord -> seq<Byte>)

  ghost predicate DatasetOk(ds: Dataset) {
    && 0 < ds.elementSize < U64
    && (forall d :: 0 <= d < |ds.dims| ==> ds.dims[d] < U64)
    && forall c :: |ds.value(c)| == ds.elementSize
  }

  // ---------- what is requested ----------

  function Bytes(ds: Dataset, coords: seq<Coord>): seq<Byte> {
    if coords == [] then [] else ds.value(coords[0]) + Bytes(ds, coords[1..])
  }

  /** The elements of all slices, slice by slice, each in row-major order. */
  function Stacked(slices: seq<Slice>): seq<Coord>
    requires forall s :: s in slices ==> |s.start| == |s.count|
  {
    if slices == [] then [] else Box(slices[0].start, slices[0].count) + Stacked(slices[1..])
  }

  /** The elements of the result. A scalar has one, whatever the number of slices. */
  function Requested(rank: nat, slices: seq<Slice>): seq<Coord>
    requires ShapeOk(rank, slices)
  {
    if rank == 0 then [[]] else Stacked(slices)
  }

  /** The buffer holds at least one row, unless a row has no elements. */
  predicate BufferOk(ds: Dataset, rank: nat, slices: seq<Slice>, bufferSize: nat)
    requires ShapeOk(rank, slices) && slices != []
  {
    RowSize(rank, slices) == 0 || RowSize(rank, slices) * ds.elementSize <= bufferSize
  }

  function RowSize(rank: nat, slices: seq<Slice>): nat
    requires ShapeOk(rank, slices) && slices != []
  {
    if rank == 0 then 1 else Product(slices[0].count[1..])
  }

  lemma {:induction false} BytesJoin(ds: Dataset, a: seq<Coord>, b: seq<Coord>)
    ensures Bytes(ds, a + b) == Bytes(ds, a) + Bytes(ds, b)
  {
    if a == [] {
      assert a + b == b;
    } else {
      assert (a + b)[1..] == a[1..] + b;
      BytesJoin(ds, a[1..], b);
    }
  }

  lemma {:induction false} BytesLength(ds: Dataset, coords: seq<Coord>)
    requires DatasetOk(ds)
    ensures |Bytes(ds, coords)| == |coords| * ds.elementSize
  {
    if coords != [] { BytesLength(ds, coords[1..]); }
  }

  /** The selected coordinates when these rows are read. */
  function Coords(rank: nat, slices: seq<Slice>, rows: seq<nat>): seq<Coord>
    requires ShapeOk(rank, slices) && slices != []
  {
    if rank == 0 then (if rows == [] then [] else [[]])
    else Stack(rows, Box(slices[0].start[1..], slices[0].count[1..]))
  }

  /** Slices that agree beyond the first dimension are the stack of their rows. */
  lemma {:induction false} StackedRows(slices: seq<Slice>, rank: nat, start: seq<nat>, count: seq<nat>)
    requires ShapeOk(rank, slices) && rank > 0 && |start| == |count|
    requires forall s :: s in slices ==> s.start[1..] == start && s.count[1..] == count
    ensures Stacked(slices) == Stack(Rows(slices), Box(start, count))
  {
    if slices != [] {
      StackedRows(slices[1..], rank, start, count);
      StackJoin(Range(slices[0].start[0], slices[0].count[0]), Rows(slices[1..]), Box(start, count));
      assert slices[0] in slices;
    }
  }

  lemma {:induction false} InnerAgrees(slices: seq<Slice>, rank: nat, k: nat)
    requires ShapeOk(rank, slices) && rank > 0 && k < |slices|
    requires forall j :: 0 < j < |slices| ==> Follows(slices[j - 1], slices[j])
    ensures slices[k].start[1..] == slices[0].start[1..] && slices[k].count[1..] == slices[0].count[1..]
  {
    if k > 0 {
      InnerAgrees(slices, rank, k - 1);
      assert Follows(slices[k - 1], slices[k]);
    }
  }

  /** What the cursor selects, all together, is what was requested, also if the result is empty. */
  lemma AllIsRequested(rank: nat, slices: seq<Slice>, dims: seq<nat>)
    requires ShapeOk(rank, slices) && |dims| == rank && Accepted(rank, slices, dims) && Signed(slices)
    ensures Coords(rank, slices, Wanted(rank, slices)) == Requested(rank, slices)
    ensures |Requested(rank, slices)| == Product(Shape(rank, slices))
  {
    if rank > 0 {
      assert slices[0] in slices;
      var start, count := slices[0].start[1..], slices[0].count[1..];
      forall s | s in slices ensures s.start[1..] == start && s.count[1..] == count {
        var k :| 0 <= k < |slices| && slices[k] == s;
        InnerAgrees(slices, rank, k);
      }
      StackedRows(slices, rank, start, count);
      AcceptedRows(rank, slices, dims);
      BoxSorted(start, count);
      StackLength(Rows(slices), Box(start, count));
      assert Shape(rank, slices)[1..] == count;
      if AnyZero(Shape(rank, slices)) {
        ZeroProduct(Shape(rank, slices));
        assert Requested(rank, slices) == [];
      }
    }
  }

  lemma {:induction false} ZeroProduct(sizes: seq<nat>)
    ensures AnyZero(sizes) <==> Product(sizes) == 0
  {
    if sizes != [] {
      ZeroProduct(sizes[1..]);
      if AnyZero(sizes) {
        var d :| 0 <= d < |sizes| && sizes[d] == 0;
        assert d > 0 ==> sizes[1..][d - 1] == 0;
      } else {
        forall d | 0 <= d < |sizes[1..]| ensures sizes[1..][d] != 0 { assert sizes[d + 1] != 0; }
        NonZero(sizes[0], Product(sizes[1..]));
      }
    }
  }

  lemma NonZero(a: nat, b: nat)
    requires a > 0 && b > 0
    ensures a * b > 0
  {}

  /** Reading part of the rows gives the elements in list order. */
  lemma PartInListOrder(rank: nat, slices: seq<Slice>, dims: seq<nat>, rows: seq<nat>, lo: nat, hi: nat)
    requires ShapeOk(rank, slices) && |dims| == rank && Accepted(rank, slices, dims) && Signed(slices)
    requires rows == Wanted(rank, slices) && lo < hi <= |rows|
    ensures ReadOrder(dims, Elements(Coords(rank, slices, rows[lo..hi]))) == Coords(rank, slices, rows[lo..hi])
  {
    if rank == 0 {
      assert rows[lo..hi] == [0];
      ScalarReadOrder(dims);
    } else {
      assert slices[0] in slices;
      assert WithinDims(slices[0], dims);
      var start, count := slices[0].start[1..], slices[0].count[1..];
      AcceptedRows(rank, slices, dims);
      forall d | 0 <= d < |start| ensures start[d] + count[d] <= dims[d + 1] {
        assert start[d] == slices[0].start[d + 1] && count[d] == slices[0].count[d + 1];
      }
      assert forall r :: r in rows[lo..hi] ==> r in rows;
      RowsReadInListOrder(dims, rows[lo..hi], start, count);
    }
  }

  lemma ScalarReadOrder(dims: seq<nat>)
    requires dims == []
    ensures ReadOrder(dims, Elements([[]])) == [[]]
  {
    var all: seq<Coord> := [[]];
    assert Box(seq(|dims|, i => 0), dims) == all;
    assert Keep(all, Elements(all)) == [all[0]] + Keep(all[1..], Elements(all));
  }

  // ---------- the loop ----------

  /**
   H5Dread. The selection has as many elements as the memory space, all of them within the dataset,
   and they must fit in the buffer.
   */
  method Read(ds: Dataset, space: Dataspace, memory: seq<nat>, buffer: array<Byte>)
    requires DatasetOk(ds) && |ReadOrder(ds.dims, space.selected)| == Product(memory)
    requires Product(memory) * ds.elementSize <= buffer.Length
    modifies buffer
    ensures buffer[..Product(memory) * ds.elementSize] == Bytes(ds, ReadOrder(ds.dims, space.selected))
  {
    var bytes := Bytes(ds, ReadOrder(ds.dims, space.selected));
    BytesLength(ds, ReadOrder(ds.dims, space.selected));
    forall i | 0 <= i < |bytes| { buffer[i] := bytes[i]; }
  }

  lemma CoordsJoin(rank: nat, slices: seq<Slice>, a: seq<nat>, b: seq<nat>)
    requires ShapeOk(rank, slices) && slices != []
    requires rank == 0 ==> a == [] || b == []
    ensures Coords(rank, slices, a + b) == Coords(rank, slices, a) + Coords(rank, slices, b)
  {
    if rank > 0 { StackJoin(a, b, Box(slices[0].start[1..], slices[0].count[1..])); }
    assert a == [] ==> a + b == b;
    assert b == [] ==> a + b == a;
  }

  lemma CoordsSize(rank: nat, slices: seq<Slice>, rows: seq<nat>)
    requires ShapeOk(rank, slices) && slices != [] && (rank == 0 ==> |rows| <= 1)
    ensures |Coords(rank, slices, rows)| == |rows| * RowSize(rank, slices)
  {
    if rank > 0 {
      assert slices[0] in slices;
      BoxSorted(slices[0].start[1..], slices[0].count[1..]);
      StackLength(rows, Box(slices[0].start[1..], slices[0].count[1..]));
    }
  }

  /** The request: what is read, from where, and how it fits in the buffer. */
  datatype Request = Request(ds: Dataset, rank: nat, slices: seq<Slice>)

  ghost predicate RequestOk(r: Request) {
    && DatasetOk(r.ds) && |r.ds.dims| == r.rank && ShapeOk(r.rank, r.slices)
    && Accepted(r.rank, r.slices, r.ds.dims) && Signed(r.slices)
  }

  ghost function AllRows(r: Request): seq<nat>
    requires RequestOk(r)
  {
    Wanted(r.rank, r.slices)
  }

  ghost function Payload(r: Request): seq<Byte>
    requires RequestOk(r)
  {
    Bytes(r.ds, Requested(r.rank, r.slices))
  }

  /** The bytes of the rows from lo to hi. */
  ghost function Part(r: Request, lo: nat, hi: nat): seq<Byte>
    requires RequestOk(r) && lo <= hi <= |AllRows(r)|
  {
    Bytes(r.ds, Coords(r.rank, r.slices, AllRows(r)[lo..hi]))
  }

  lemma PartJoin(r: Request, lo: nat, mid: nat, hi: nat)
    requires RequestOk(r) && lo <= mid <= hi <= |AllRows(r)|
    ensures Part(r, lo, mid) + Part(r, mid, hi) == Part(r, lo, hi)
  {
    var rows := AllRows(r);
    assert rows[lo..mid] + rows[mid..hi] == rows[lo..hi];
    CoordsJoin(r.rank, r.slices, rows[lo..mid], rows[mid..hi]);
    BytesJoin(r.ds, Coords(r.rank, r.slices, rows[lo..mid]), Coords(r.rank, r.slices, rows[mid..hi]));
  }

  lemma PartSize(r: Request, lo: nat, hi: nat)
    requires RequestOk(r) && lo <= hi <= |AllRows(r)|
    ensures |Part(r, lo, hi)| == (hi - lo) * RowSize(r.rank, r.slices) * r.ds.elementSize
  {
    var coords := Coords(r.rank, r.slices, AllRows(r)[lo..hi]);
    CoordsSize(r.rank, r.slices, AllRows(r)[lo..hi]);
    BytesLength(r.ds, coords);
    assert |AllRows(r)[lo..hi]| == hi - lo;
  }

  /** The part read next continues what was packed before, and both are within the payload. */
  lemma PartFacts(r: Request, lo: nat, hi: nat)
    requires RequestOk(r) && lo <= hi <= |AllRows(r)|
    ensures Part(r, 0, lo) + Part(r, lo, hi) == Part(r, 0, hi)
    ensures |Part(r, 0, hi)| <= |Payload(r)|
  {
    PartJoin(r, 0, lo, hi);
    PartJoin(r, 0, hi, |AllRows(r)|);
    PartAll(r);
  }

  lemma PartAll(r: Request)
    requires RequestOk(r)
    ensures Part(r, 0, |AllRows(r)|) == Payload(r)
    ensures |Payload(r)| == Product(Shape(r.rank, r.slices)) * r.ds.elementSize
  {
    assert AllRows(r)[0..|AllRows(r)|] == AllRows(r);
    AllIsRequested(r.rank, r.slices, r.ds.dims);
    BytesLength(r.ds, Requested(r.rank, r.slices));
  }

  /** The values with which the cursor was set up; a buffer full of rows fits in `size` bytes. */
  ghost predicate Setup(r: Request, rank: nat, shape: seq<nat>, start: seq<nat>, count: seq<nat>, perBuffer: nat,
                        size: nat)
    requires RequestOk(r)
  {
    && rank == r.rank <= |start| && rank <= |count| && rank <= |shape| && shape[..rank] == Shape(r.rank, r.slices)
    && (rank > 0 ==> start[1..rank] == r.slices[0].start[1..])
    && (rank > 0 ==> count[1..rank] == r.slices[0].count[1..])
    && (AllRows(r) != [] ==> 0 < perBuffer && perBuffer * RowSize(r.rank, r.slices) * r.ds.elementSize <= size)
  }

  ghost predicate CursorFor(r: Request, cursor: Cursor, size: nat)
    requires RequestOk(r)
    reads cursor, cursor.start, cursor.count, cursor.totalCount
  {
    && cursor.Valid()
    && Setup(r, cursor.rank, cursor.totalCount[..], cursor.start[..], cursor.count[..], cursor.elementsPerBuffer, size)
  }

  lemma RowsFit(nr: nat, perBuffer: nat, rowSize: nat, elementSize: nat)
    requires nr <= perBuffer
    ensures nr * rowSize * elementSize <= perBuffer * rowSize * elementSize
  {
    MulLe(nr, perBuffer, rowSize);
    MulLe(nr * rowSize, perBuffer * rowSize, elementSize);
  }

  /** What the selection of the cursor means for the request. */
  lemma SelectedPart(r: Request, rank: nat, shape: seq<nat>, start: seq<nat>, count: seq<nat>, perBuffer: nat,
                     size: nat, start': seq<nat>, count': seq<nat>, nr: nat)
    requires RequestOk(r) && Setup(r, rank, shape, start, count, perBuffer, size)
    requires |start'| == |start| > 0 && |count'| == |count| > 0 && start'[1..] == start[1..]
             && count'[1..] == count[1..]
    requires AllRows(r) != [] ==> if rank == 0 then nr <= 1 else nr <= perBuffer
    ensures Setup(r, rank, shape, start', count', perBuffer, size)
    ensures AllRows(r) != [] ==> nr * RowSize(r.rank, r.slices) * r.ds.elementSize <= size
  {
    if AllRows(r) != [] { RowsFit(nr, perBuffer, RowSize(r.rank, r.slices), r.ds.elementSize); }
    if rank > 0 {
      assert start[1..rank] == start[1..][..rank - 1] && start'[1..rank] == start'[1..][..rank - 1];
      assert count[1..rank] == count[1..][..rank - 1] && count'[1..rank] == count'[1..][..rank - 1];
    }
  }

  lemma RestOf<T>(all: seq<T>, done: nat, nr: nat)
    requires done <= |all| && nr <= |all| - done
    ensures all[done..][..nr] == all[done..done + nr] && all[done..][nr..] == all[done + nr..]
  {}

  lemma RemainingAscend(r: Request, done: nat)
    requires RequestOk(r) && done <= |AllRows(r)|
    ensures Ascending(AllRows(r)[done..])
  {
    if r.rank > 0 { AcceptedRows(r.rank, r.slices, r.ds.dims); }
  }

  /** The cursor has been asked for rows so often, and has returned `done` rows. */
  ghost predicate Reached(r: Request, cursor: Cursor, nrReads: nat, done: nat)
    requires RequestOk(r)
    reads cursor
  {
    && done == RowsRead(r.rank, r.slices, cursor.elementsPerBuffer, nrReads)
    && (r.rank > 0 ==> cursor.slices == r.slices)
    && (r.rank > 0 && AllRows(r) != [] ==> cursor.At() == PositionAfter(r.slices, cursor.elementsPerBuffer, nrReads))
  }

  /** One more read that returned nr rows, of which there were some. */
  lemma ReachedNext(r: Request, perBuffer: nat, nrReads: nat, done: nat, nr: nat, p: Position)
    requires RequestOk(r) && done == RowsRead(r.rank, r.slices, perBuffer, nrReads) < |AllRows(r)|
    requires 0 < nr && done + nr <= |AllRows(r)|
    requires r.rank > 0 ==> p == PositionAfter(r.slices, perBuffer, nrReads + 1)
    requires r.rank > 0 ==> |RowsAfter(r.slices, p)| == |AllRows(r)| - done - nr
    ensures done + nr == RowsRead(r.rank, r.slices, perBuffer, nrReads + 1)
  {}

  /** Selects the next rows; code 1 means that there are none. */
  method SelectNext(ghost r: Request, cursor: Cursor, space: Dataspace, ghost size: nat, ghost nrReads: nat,
                    ghost done: nat)
    returns (code: int, nr: nat)
    requires RequestOk(r) && CursorFor(r, cursor, size) && |space.dims| == r.rank && Reached(r, cursor, nrReads, done)
    requires done <= |AllRows(r)| && cursor.Remaining() == AllRows(r)[done..]
    modifies cursor`sliceNr, cursor`offsetInSlice, cursor`elementsLeftTotal, cursor.start, cursor.count, space
    ensures CursorFor(r, cursor, size)
    ensures code == if done == |AllRows(r)| then 1 else 0
    ensures code == 0 ==> 0 < nr && done + nr <= |AllRows(r)| && cursor.Remaining() == AllRows(r)[done + nr..]
    ensures code == 1 ==> cursor.Remaining() == AllRows(r)[done..]
    ensures code == 0 ==> Reached(r, cursor, nrReads + 1, done + nr)
    ensures code == 0 ==> nr * RowSize(r.rank, r.slices) * r.ds.elementSize <= size
    ensures code == 0 ==> space.selected == Elements(Coords(r.rank, r.slices, AllRows(r)[done..done + nr]))
  {
    ghost var start, count := cursor.start[..], cursor.count[..];
    RemainingAscend(r, done);
    code, nr := cursor.SelectNextBufferData(space);
    SelectedPart(r, cursor.rank, cursor.totalCount[..], start, count, cursor.elementsPerBuffer, size,
                 cursor.start[..], cursor.count[..], if code == 0 then nr else 0);
    if code == 0 {
      RestOf(AllRows(r), done, nr);
      ReachedNext(r, cursor.elementsPerBuffer, nrReads, done, nr, cursor.At());
    }
  }

  /** The memory space of one read has as many elements as the selection. */
  lemma MemoryShape(r: Request, shape: seq<nat>, nr: nat, memory: seq<nat>)
    requires RequestOk(r) && r.rank <= |shape| && shape[..r.rank] == Shape(r.rank, r.slices)
    requires 0 < nr <= |AllRows(r)| && memory == if r.rank == 0 then [] else [nr] + shape[1..r.rank]
    ensures Product(memory) == nr * RowSize(r.rank, r.slices)
  {
    if r.rank > 0 {
      assert r.slices[0] in r.slices;
      assert memory[1..] == shape[..r.rank][1..] == r.slices[0].count[1..];
    }
  }

  /** Reads the selected rows into the buffer, which is large enough. */
  method ReadSelected(ghost r: Request, ds: Dataset, rank: nat, totalCount: array<nat>, space: Dataspace,
                      buffer: array<Byte>, ghost done: nat, nr: nat)
    requires RequestOk(r) && ds == r.ds && rank == r.rank && space.dims == ds.dims
    requires rank <= totalCount.Length && totalCount[..rank] == Shape(rank, r.slices)
    requires 0 < nr && done + nr <= |AllRows(r)|
    requires nr * RowSize(rank, r.slices) * ds.elementSize <= buffer.Length
    requires space.selected == Elements(Coords(rank, r.slices, AllRows(r)[done..done + nr]))
    modifies buffer
    ensures buffer[..nr * RowSize(rank, r.slices) * ds.elementSize] == Part(r, done, done + nr)
  {
    var memory := if rank == 0 then [] else [nr] + totalCount[1..rank];
    MemoryShape(r, totalCount[..], nr, memory);
    PartInListOrder(r.rank, r.slices, ds.dims, AllRows(r), done, done + nr);
    CoordsSize(r.rank, r.slices, AllRows(r)[done..done + nr]);
    Read(ds, space, memory, buffer);
  }

  ghost predicate Apart(cursor: Cursor, buffer: array<Byte>) {
    (buffer as object) !in {cursor.start as object, cursor.count as object, cursor.totalCount as object}
  }

  /** The first bytes of the payload have been packed: w. */
  ghost predicate Packed(r: Request, pci: PackContents.PackContentsInfo, out: seq<Token>, base: seq<Token>,
                         w: seq<Byte>)
    requires RequestOk(r)
    reads pci
  {
    && pci.Valid() && pci.total == |Payload(r)| && pci.written == w
    && out == base + PackContents.Written(w, pci.total, pci.maxSize)
  }

  /** Packs the bytes in the buffer. */
  method PackBuffer(ghost r: Request, pci: PackContents.PackContentsInfo, pk: Packer, buffer: array<Byte>, n: nat,
                    ghost base: seq<Token>, ghost done: nat, ghost nr: nat)
    requires RequestOk(r) && n <= buffer.Length && done + nr <= |AllRows(r)|
    requires Packed(r, pci, pk.out, base, Part(r, 0, done)) && buffer[..n] == Part(r, done, done + nr)
    modifies pci`totalBytesLeft, pci`bytesLeftInBin, pci`written, pk
    ensures Packed(r, pci, pk.out, base, Part(r, 0, done + nr))
  {
    PartFacts(r, done, done + nr);
    assert |buffer[..n]| == n;
    pci.Body(pk, buffer, n, base);
  }

  /** Reads the selected rows and packs them. */
  method ReadAndPack(ghost r: Request, ds: Dataset, rank: nat, totalCount: array<nat>, space: Dataspace, rowSize: nat,
                     buffer: array<Byte>, pci: PackContents.PackContentsInfo, pk: Packer, ghost base: seq<Token>,
                     ghost done: nat, nr: nat)
    requires RequestOk(r) && ds == r.ds && rank == r.rank && rowSize == RowSize(rank, r.slices) && space.dims == ds.dims
    requires rank <= totalCount.Length && totalCount[..rank] == Shape(rank, r.slices)
    requires 0 < nr && done + nr <= |AllRows(r)| && nr * rowSize * ds.elementSize <= buffer.Length < U64
    requires space.selected == Elements(Coords(rank, r.slices, AllRows(r)[done..done + nr]))
    requires Packed(r, pci, pk.out, base, Part(r, 0, done))
    modifies buffer, pci`totalBytesLeft, pci`bytesLeftInBin, pci`written, pk
    ensures Packed(r, pci, pk.out, base, Part(r, 0, done + nr))
  {
    ReadSelected(r, ds, rank, totalCount, space, buffer, done, nr);
    PartSize(r, done, done + nr);
    NoOverflow(nr, rowSize, ds.elementSize);
    var nrBytes := MulU64(MulU64(nr, rowSize), ds.elementSize);
    PackBuffer(r, pci, pk, buffer, nrBytes, base, done, nr);
  }

  datatype Round = NoneLeft | OneMore | ReadError

  /** Reads the next rows and packs them, unless there are none left or reading fails. */
  method PackNext(ghost r: Request, ds: Dataset, cursor: Cursor, space: Dataspace, rowSize: nat, buffer: array<Byte>,
                  pci: PackContents.PackContentsInfo, pk: Packer, ghost base: seq<Token>, nrReads: nat,
                  ghost done: nat, failAt: nat)
    returns (round: Round, nr: nat)
    requires RequestOk(r) && ds == r.ds && space.dims == ds.dims && buffer.Length < U64
    requires AllRows(r) != [] ==> rowSize == RowSize(r.rank, r.slices)
    requires CursorFor(r, cursor, buffer.Length) && Apart(cursor, buffer) && Reached(r, cursor, nrReads, done)
    requires done <= |AllRows(r)| && cursor.Remaining() == AllRows(r)[done..]
    requires done <= |AllRows(r)| && Packed(r, pci, pk.out, base, Part(r, 0, done))
    modifies cursor`sliceNr, cursor`offsetInSlice, cursor`elementsLeftTotal, cursor.start, cursor.count, space, buffer
    modifies pci`totalBytesLeft, pci`bytesLeftInBin, pci`written, pk
    ensures round == if done == |AllRows(r)| then NoneLeft else if nrReads != failAt then OneMore else ReadError
    ensures round.OneMore? ==> 0 < nr <= |AllRows(r)| - done && Reached(r, cursor, nrReads + 1, done + nr)
    ensures !round.ReadError? ==> CursorFor(r, cursor, buffer.Length)
    ensures !round.ReadError? ==> cursor.Remaining() == AllRows(r)[if round.OneMore? then done + nr else done..]
    ensures Packed(r, pci, pk.out, base, Part(r, 0, if round.OneMore? then done + nr else done))
  {
    var code;
    code, nr := SelectNext(r, cursor, space, buffer.Length, nrReads, done);
    if code > 0 { return NoneLeft, nr; }
    if nrReads == failAt { return ReadError, nr; }
    ReadAndPack(r, ds, cursor.rank, cursor.totalCount, space, rowSize, buffer, pci, pk, base, done, nr);
    return OneMore, nr;
  }

  lemma NoOverflow(nr: nat, rowSize: nat, elementSize: nat)
    requires nr * rowSize * elementSize < U64 && elementSize > 0
    ensures MulU64(MulU64(nr, rowSize), elementSize) == nr * rowSize * elementSize
  {
    MulLe(1, elementSize, nr * rowSize);
    assert 1 * (nr * rowSize) <= elementSize * (nr * rowSize) == nr * rowSize * elementSize;
  }

  /**
   The loop: all rows are read and packed, and it ends, or a read fails after some of the payload has
   been packed. `failAt` is the number of the read that fails.
   */
  method PackRows(ghost r: Request, ds: Dataset, cursor: Cursor, space: Dataspace, rowSize: nat, buffer: array<Byte>,
                  pci: PackContents.PackContentsInfo, pk: Packer, failAt: nat)
    returns (ok: bool, ghost packed: seq<Byte>)
    requires RequestOk(r) && ds == r.ds && space.dims == ds.dims && buffer.Length < U64
    requires AllRows(r) != [] ==> rowSize == RowSize(r.rank, r.slices)
    requires CursorFor(r, cursor, buffer.Length) && Apart(cursor, buffer) && cursor.Remaining() == AllRows(r)
    requires Reached(r, cursor, 0, 0)
    requires pci.Valid() && pci.total == |Payload(r)| && pci.written == []
    modifies cursor`sliceNr, cursor`offsetInSlice, cursor`elementsLeftTotal, cursor.start, cursor.count, space, buffer
    modifies pci`totalBytesLeft, pci`bytesLeftInBin, pci`written, pk
    ensures pk.out == old(pk.out) + PackContents.Written(packed, |Payload(r)|, pci.maxSize)
    ensures var done := RowsRead(r.rank, r.slices, cursor.elementsPerBuffer, failAt);
            (ok <==> done == |AllRows(r)|) && packed == Part(r, 0, done)
  {
    ghost var base, done, perBuffer := pk.out, 0, cursor.elementsPerBuffer;
    EmptyPart(r);
    var nrReads := 0;
    var round := OneMore;
    while round == OneMore
      invariant done == RowsRead(r.rank, r.slices, perBuffer, nrReads) && nrReads <= failAt
      invariant match round case NoneLeft => done == |AllRows(r)|
                            case ReadError => nrReads == failAt && done < |AllRows(r)|
                            case OneMore => Reached(r, cursor, nrReads, done)
      invariant !round.ReadError? ==> CursorFor(r, cursor, buffer.Length) && cursor.Remaining() == AllRows(r)[done..]
      invariant Packed(r, pci, pk.out, base, Part(r, 0, done)) && pci.maxSize == old(pci.maxSize)
      decreases |AllRows(r)| - done, round == OneMore
    {
      var nr;
      round, nr := PackNext(r, ds, cursor, space, rowSize, buffer, pci, pk, base, nrReads, done, failAt);
      done := if round.OneMore? then done + nr else done;
      nrReads := if round.OneMore? then nrReads + 1 else nrReads;
    }
    packed := Part(r, 0, done);
    ok := round == NoneLeft;
    if ok { AllStayRead(r.rank, r.slices, perBuffer, nrReads, failAt); }
  }

  lemma EmptyPart(r: Request)
    requires RequestOk(r)
    ensures Part(r, 0, 0) == []
  {
    assert AllRows(r)[0..0] == [];
  }

  // ---------- sizes in 64 bits ----------

  /** All bytes of the result. */
  function TotalBytes(ds: Dataset, rank: nat, slices: seq<Slice>): nat
    requires ShapeOk(rank, slices) && slices != []
  {
    Product(Shape(rank, slices)) * ds.elementSize
  }

  /** The elements in a row and the bytes in a row, as the code computes them. */
  function RowSize64(rank: nat, slices: seq<Slice>): nat
    requires ShapeOk(rank, slices) && slices != []
  {
    RowSize(rank, slices) % U64
  }

  function RowBytes64(ds: Dataset, rank: nat, slices: seq<Slice>): nat
    requires ShapeOk(rank, slices) && slices != []
  {
    MulU64(RowSize64(rank, slices), ds.elementSize)
  }

  /** The number of elements in each row. */
  method CountRow(rank: nat, slices: seq<Slice>) returns (n: nat)
    requires ShapeOk(rank, slices) && slices != []
    ensures n == RowSize64(rank, slices)
  {
    assert slices[0] in slices;
    n := 1;
    ghost var exact: nat := 1;
    var i := 1;
    while i < rank
      invariant rank > 0 ==> 1 <= i <= rank && Multiplied(exact, slices[0].count[i..], Product(slices[0].count[1..]))
      invariant n == exact % U64 && (rank == 0 ==> exact == 1)
    {
      assert slices[0].count[i..][1..] == slices[0].count[i + 1..];
      MultiplyNext(exact, slices[0].count[i..], Product(slices[0].count[1..]));
      MulMod(exact, slices[0].count[i]);
      n := MulU64(n, slices[0].count[i]);
      exact := exact * slices[0].count[i];
      i := i + 1;
    }
    if rank > 0 { AllMultiplied(exact, slices[0].count[i..], Product(slices[0].count[1..])); }
  }

  lemma AllMultiplied(points: nat, rest: seq<nat>, total: nat)
    requires Multiplied(points, rest, total) && rest == []
    ensures points == total
  {}

  /** The number of bytes that the header announces is the real one, reduced to 64 bits. */
  lemma AnnouncedBytes(rows: nat, rowSize: nat, elementSize: nat)
    ensures MulU64(MulU64(rows, rowSize % U64), elementSize) == (rows * rowSize * elementSize) % U64
  {
    MulMod(rowSize, rows);
    assert rows * (rowSize % U64) == (rowSize % U64) * rows && rowSize * rows == rows * rowSize;
    MulMod(rows * rowSize, elementSize);
  }

  /** What becomes of a request, if no read fails. */
  datatype Fate =
    | Refused
    | Packs
    | DividesByZero
    | Endless
    | Overruns
    | Misannounces
    | ReadFails

  /** The request passes the check that a row fits in the buffer. */
  predicate BufferOk64(ds: Dataset, rank: nat, slices: seq<Slice>, bufferSize: nat)
    requires ShapeOk(rank, slices) && slices != []
  {
    RowSize64(rank, slices) == 0 || RowBytes64(ds, rank, slices) <= bufferSize
  }

  predicate ZeroDivisor(ds: Dataset, rank: nat, slices: seq<Slice>)
    requires ShapeOk(rank, slices) && slices != []
  {
    RowSize64(rank, slices) > 0 && RowBytes64(ds, rank, slices) == 0
  }

  /**
   The sizes are computed in 64 bits before anything is checked. Where they wrap, the code divides by
   zero, selects no rows for ever, reads more than the buffer holds, or announces a wrong size.
   */
  function FateOf(ds: Dataset, rank: nat, slices: seq<Slice>, bufferSize: nat): Fate
    requires ShapeOk(rank, slices) && |ds.dims| == rank
  {
    if slices == [] then Refused
    else if ZeroDivisor(ds, rank, slices) then DividesByZero
    else if !BufferOk64(ds, rank, slices, bufferSize) || !Accepted(rank, slices, ds.dims) then Refused
    else AcceptedFate(ds, rank, slices)
  }

  /** What becomes of a request that has passed all checks. */
  function AcceptedFate(ds: Dataset, rank: nat, slices: seq<Slice>): Fate
    requires ShapeOk(rank, slices) && slices != []
  {
    if TotalBytes(ds, rank, slices) == 0 then Packs
    else if RowSize64(rank, slices) == 0 then Endless
    else if RowSize(rank, slices) * ds.elementSize >= U64 then Overruns
    else if TotalBytes(ds, rank, slices) >= U64 / 2 then Misannounces
    else Packs
  }

  /**
   If the bytes of a row fit in 64 bits and those of the result in a signed number, the call packs
   exactly if a row fits in the buffer and the slices are accepted, and refuses otherwise.
   */
  lemma WithinWords(ds: Dataset, rank: nat, slices: seq<Slice>, bufferSize: nat)
    requires DatasetOk(ds) && ShapeOk(rank, slices) && |ds.dims| == rank && slices != []
    requires RowSize(rank, slices) * ds.elementSize < U64 && TotalBytes(ds, rank, slices) < U64 / 2
    ensures FateOf(ds, rank, slices, bufferSize)
         == if BufferOk(ds, rank, slices, bufferSize) && Accepted(rank, slices, ds.dims) then Packs else Refused
  {
    RowInWord(RowSize(rank, slices), ds.elementSize);
    if RowSize(rank, slices) > 0 { NonZero(RowSize(rank, slices), ds.elementSize); }
    if rank > 0 {
      assert slices[0] in slices;
      assert Shape(rank, slices)[1..] == slices[0].count[1..];
    }
  }

  lemma RowInWord(rowSize: nat, elementSize: nat)
    requires rowSize * elementSize < U64 && elementSize > 0
    ensures rowSize < U64 && rowSize % U64 == rowSize && MulU64(rowSize, elementSize) == rowSize * elementSize
  {
    MulLe(1, elementSize, rowSize);
  }

  /**
   The call either refuses or packs what was requested if and only if the divisor is not zero and, when
   the slices are accepted and pass the check on the buffer, the bytes of the result fit in a signed
   64 bit number.
   */
  lemma HandledIff(ds: Dataset, rank: nat, slices: seq<Slice>, bufferSize: nat)
    requires DatasetOk(ds) && ShapeOk(rank, slices) && |ds.dims| == rank && slices != []
    ensures FateOf(ds, rank, slices, bufferSize) in {Refused, Packs} <==>
            && !ZeroDivisor(ds, rank, slices)
            && (BufferOk64(ds, rank, slices, bufferSize) && Accepted(rank, slices, ds.dims) ==>
                  TotalBytes(ds, rank, slices) < U64 / 2)
  {
    if Accepted(rank, slices, ds.dims) && TotalBytes(ds, rank, slices) > 0 {
      RowWithinTotal(ds, rank, slices);
      assert RowSize64(rank, slices) == 0 ==> RowSize(rank, slices) == 0 || RowSize(rank, slices) >= U64;
      MulLe(1, ds.elementSize, RowSize(rank, slices));
    }
  }

  lemma RowWithinTotal(ds: Dataset, rank: nat, slices: seq<Slice>)
    requires ShapeOk(rank, slices) && slices != [] && TotalBytes(ds, rank, slices) > 0
    ensures 0 < RowSize(rank, slices) * ds.elementSize <= TotalBytes(ds, rank, slices)
  {
    if rank > 0 {
      assert slices[0] in slices;
      var rows, row := TotalRows(slices), RowSize(rank, slices);
      assert Shape(rank, slices)[1..] == slices[0].count[1..];
      assert Product(Shape(rank, slices)) == rows * row;
      Positive(rows, row, ds.elementSize);
      MulLe(1, rows, row);
      MulLe(row, rows * row, ds.elementSize);
    }
  }

  lemma Positive(a: nat, b: nat, c: nat)
    requires a * b * c > 0
    ensures a > 0 && b > 0 && c > 0
  {
    assert a == 0 ==> a * b == 0;
    assert b == 0 ==> a * b == 0;
  }

  // ---------- the whole request ----------

  /** Rows that fit in the buffer, as the code computes it; none if a row seems to be empty. */
  function PerBuffer64(ds: Dataset, rank: nat, slices: seq<Slice>, bufferSize: nat): nat
    requires ShapeOk(rank, slices) && slices != [] && !ZeroDivisor(ds, rank, slices)
  {
    if RowSize64(rank, slices) == 0 then 0 else bufferSize / RowBytes64(ds, rank, slices)
  }

  lemma DivPositive(a: nat, b: nat)
    requires b > 0
    ensures a / b > 0 <==> b <= a
    ensures (a / b) * b <= a
  {}

  /** The values with which multislice_init has set up the cursor. */
  ghost predicate Started(r: Request, cursor: Cursor, perBuffer: nat)
    requires RequestOk(r)
    reads cursor, cursor.start, cursor.count, cursor.totalCount
  {
    && cursor.Valid() && cursor.rank == r.rank && cursor.elementsPerBuffer == perBuffer
    && cursor.Remaining() == AllRows(r) && cursor.totalCount[..r.rank] == Shape(r.rank, r.slices)
    && (r.rank > 0 ==> cursor.slices == r.slices && cursor.At() == Position(0, 0))
    && (r.rank > 0 ==> cursor.start[1..r.rank] == r.slices[0].start[1..])
    && (r.rank > 0 ==> cursor.count[1..r.rank] == r.slices[0].count[1..])
  }

  /** Checks the request and sets up the cursor, up to the first output. */
  method StartCursor(ds: Dataset, rank: nat, slices: seq<Slice>, rowSize: nat, bufferSize: nat)
    returns (fate: Fate, cursor: Cursor)
    requires DatasetOk(ds) && |ds.dims| == rank && ShapeOk(rank, slices) && Signed(slices)
    requires slices != [] && rowSize == RowSize64(rank, slices)
    ensures fate == if ZeroDivisor(ds, rank, slices) then DividesByZero
                    else if !BufferOk64(ds, rank, slices, bufferSize) || !Accepted(rank, slices, ds.dims) then Refused
                    else Packs
    ensures fresh(cursor) && fresh(cursor.start) && fresh(cursor.count) && fresh(cursor.totalCount)
    ensures fate == Packs ==> Started(Request(ds, rank, slices), cursor, PerBuffer64(ds, rank, slices, bufferSize))
  {
    cursor := new Cursor();
    var perBuffer := 0;
    if rowSize > 0 {
      var rowBytes := MulU64(rowSize, ds.elementSize);
      if rowBytes == 0 { return DividesByZero, cursor; }
      DivPositive(bufferSize, rowBytes);
      perBuffer := bufferSize / rowBytes;
      if perBuffer < 1 { return Refused, cursor; }
    }
    var ok := cursor.Init(rank, slices, perBuffer, ds.dims);
    if !ok { return Refused, cursor; }
    fate := Packs;
  }

  /** Nothing is wanted exactly if the result has no bytes. */
  lemma NothingWanted(r: Request)
    requires RequestOk(r)
    ensures AllRows(r) == [] <==> TotalBytes(r.ds, r.rank, r.slices) == 0
  {
    AllIsRequested(r.rank, r.slices, r.ds.dims);
    var size := Product(Shape(r.rank, r.slices));
    if size > 0 { NonZero(size, r.ds.elementSize); }
    ZeroProduct(Shape(r.rank, r.slices));
  }

  /** If nothing wraps, what the cursor reads at a time fits in the buffer. */
  lemma StartedFits(r: Request, cursor: Cursor, bufferSize: nat)
    requires RequestOk(r) && !ZeroDivisor(r.ds, r.rank, r.slices) && bufferSize < U64
    requires Started(r, cursor, PerBuffer64(r.ds, r.rank, r.slices, bufferSize))
    requires BufferOk64(r.ds, r.rank, r.slices, bufferSize)
    requires TotalBytes(r.ds, r.rank, r.slices) < U64 / 2
    ensures CursorFor(r, cursor, bufferSize) && Reached(r, cursor, 0, 0)
    ensures AllRows(r) != [] ==> RowSize64(r.rank, r.slices) == RowSize(r.rank, r.slices)
  {
    NothingWanted(r);
    NoReads(r.rank, r.slices, cursor.elementsPerBuffer);
    if AllRows(r) != [] {
      RowWithinTotal(r.ds, r.rank, r.slices);
      RowInWord(RowSize(r.rank, r.slices), r.ds.elementSize);
      var rowBytes := RowSize(r.rank, r.slices) * r.ds.elementSize;
      DivPositive(bufferSize, rowBytes);
      Regroup(bufferSize / rowBytes, RowSize(r.rank, r.slices), r.ds.elementSize);
    }
    assert r.rank > 0 ==> cursor.start[..][1..r.rank] == cursor.start[1..r.rank];
    assert r.rank > 0 ==> cursor.count[..][1..r.rank] == cursor.count[1..r.rank];
    assert cursor.totalCount[..][..r.rank] == cursor.totalCount[..r.rank];
  }

  /** The header, whatever the size: what it announces is the size in 64 bits. */
  method PackHeader(ghost r: Request, ds: Dataset, rank: nat, totalCount: array<nat>, rowSize: nat, maxSize: nat,
                    pci: PackContents.PackContentsInfo, pk: Packer)
    requires RequestOk(r) && ds == r.ds && rank == r.rank && rowSize == RowSize64(rank, r.slices)
             && 0 < maxSize < U64 / 2
    requires rank <= totalCount.Length && totalCount[..rank] == Shape(rank, r.slices)
    modifies pci, pk
    ensures pci.maxSize == maxSize && pci.total == TotalBytes(ds, rank, r.slices) % U64 && pci.written == []
    ensures pk.out == old(pk.out) + Announced(ds, rank, r.slices, maxSize)
    ensures TotalBytes(ds, rank, r.slices) < U64 / 2 ==> pci.Valid() && pci.total == |Payload(r)|
  {
    var arraySize := if rank == 0 then 1 else totalCount[0];
    var dataSize := MulU64(MulU64(arraySize, rowSize), ds.elementSize);
    AnnouncedBytes(arraySize, RowSize(rank, r.slices), ds.elementSize);
    PartAll(r);
    assert rank > 0 ==> totalCount[..rank][1..] == r.slices[0].count[1..];
    assert arraySize * RowSize(rank, r.slices) == Product(Shape(rank, r.slices));
    pci.Header(pk, maxSize, ds.type', ds.kind, totalCount[..rank], dataSize);
  }

  /** The header that is written for an accepted request. */
  function Announced(ds: Dataset, rank: nat, slices: seq<Slice>, maxSize: nat): seq<Token>
    requires ShapeOk(rank, slices) && slices != [] && 0 < maxSize < U64 / 2
  {
    var size := TotalBytes(ds, rank, slices) % U64;
    PackContents.HeaderTokens(ds.type', ds.kind, Shape(rank, slices), AsLong(size), PackContents.Bins64(maxSize, size))
  }

  /** A round in which no rows are selected: the loop goes on, from where it was, so it never ends. */
  method EmptyRound(ghost r: Request, cursor: Cursor, space: Dataspace) returns (code: int, nr: nat)
    requires RequestOk(r) && Started(r, cursor, 0) && r.rank > 0 && AllRows(r) != [] && |space.dims| == r.rank
    modifies cursor`sliceNr, cursor`offsetInSlice, cursor`elementsLeftTotal, cursor.start, cursor.count, space
    ensures code == 0 && nr == 0 && Started(r, cursor, 0) && space.selected == {}
  {
    ghost var start, count, rank := cursor.start[..], cursor.count[..], cursor.rank;
    assert AllRows(r)[0..] == AllRows(r);
    RemainingAscend(r, 0);
    code, nr := cursor.SelectNextBufferData(space);
    assert cursor.start[..][1..rank] == cursor.start[1..][..rank - 1] && start[1..rank] == start[1..][..rank - 1];
    assert cursor.count[..][1..rank] == cursor.count[1..][..rank - 1] && count[1..rank] == count[1..][..rank - 1];
  }

  /** A read of any row of such a request is larger than the buffer. */
  lemma OverrunIsReal(ds: Dataset, rank: nat, slices: seq<Slice>, bufferSize: nat, nr: nat)
    requires ShapeOk(rank, slices) && |ds.dims| == rank && bufferSize < U64 && nr > 0
    requires FateOf(ds, rank, slices, bufferSize) == Overruns
    ensures nr * RowSize(rank, slices) * ds.elementSize > bufferSize
  {
    MulLe(1, nr, RowSize(rank, slices));
    MulLe(RowSize(rank, slices), nr * RowSize(rank, slices), ds.elementSize);
  }

  /** Where sizes wrap, what the header announces is not the size of the result. */
  lemma AnnouncesWrong(ds: Dataset, rank: nat, slices: seq<Slice>, bufferSize: nat)
    requires ShapeOk(rank, slices) && |ds.dims| == rank && DatasetOk(ds)
    requires FateOf(ds, rank, slices, bufferSize) in {Endless, Overruns, Misannounces}
    ensures AsLong(TotalBytes(ds, rank, slices) % U64) != TotalBytes(ds, rank, slices)
  {
    RowWithinTotal(ds, rank, slices);
    MulLe(1, ds.elementSize, RowSize(rank, slices));
  }

  /** How many rows are read before read number `failAt`, for a request that packs. */
  ghost function RowsBefore(ds: Dataset, rank: nat, slices: seq<Slice>, bufferSize: nat, failAt: nat): (n: nat)
    requires ShapeOk(rank, slices) && |ds.dims| == rank && FateOf(ds, rank, slices, bufferSize) == Packs
    ensures n <= |Wanted(rank, slices)|
  {
    RowsRead(rank, slices, PerBuffer64(ds, rank, slices, bufferSize), failAt)
  }

  /** What becomes of a request if read number `failAt` is the one that fails. */
  ghost function Outcome(ds: Dataset, rank: nat, slices: seq<Slice>, bufferSize: nat, failAt: nat): Fate
    requires ShapeOk(rank, slices) && |ds.dims| == rank
  {
    var fate := FateOf(ds, rank, slices, bufferSize);
    if fate == Packs && RowsBefore(ds, rank, slices, bufferSize, failAt) < |Wanted(rank, slices)| then ReadFails
    else fate
  }

  /**
   A request that would pack fails if and only if some rows are left when the failing read comes. There
   are no more reads than rows; with no more than 10240 slices every read but the last fills the buffer.
   */
  lemma FailsIff(ds: Dataset, rank: nat, slices: seq<Slice>, bufferSize: nat, failAt: nat)
    requires DatasetOk(ds) && ShapeOk(rank, slices) && |ds.dims| == rank
    requires FateOf(ds, rank, slices, bufferSize) == Packs && Wanted(rank, slices) != []
    ensures failAt >= |Wanted(rank, slices)| ==> Outcome(ds, rank, slices, bufferSize, failAt) == Packs
    ensures rank == 0 ==> (Outcome(ds, rank, slices, bufferSize, failAt) == ReadFails <==> failAt == 0)
    ensures rank > 0 && |slices| <= MAX_SELECTIONS_PER_BUFFER ==>
              (Outcome(ds, rank, slices, bufferSize, failAt) == ReadFails
               <==> failAt * PerBuffer64(ds, rank, slices, bufferSize) < |Wanted(rank, slices)|)
  {
    if rank > 0 {
      var perBuffer := PerBuffer64(ds, rank, slices, bufferSize);
      SomeFit(ds, rank, slices, bufferSize);
      ReadsBounded(rank, slices, perBuffer, failAt);
      if |slices| <= MAX_SELECTIONS_PER_BUFFER { ReadsExact(rank, slices, perBuffer, failAt); }
    }
  }

  /**
   If no read fails, the bytes of a row fit in 64 bits and those of the result in a signed number: the
   call packs exactly if a row fits in the buffer and the slices are accepted, and refuses otherwise.
   */
  lemma PacksIff(ds: Dataset, rank: nat, slices: seq<Slice>, bufferSize: nat, failAt: nat)
    requires DatasetOk(ds) && ShapeOk(rank, slices) && |ds.dims| == rank && slices != []
    requires RowSize(rank, slices) * ds.elementSize < U64 && TotalBytes(ds, rank, slices) < U64 / 2
    requires failAt >= |Wanted(rank, slices)|
    ensures Outcome(ds, rank, slices, bufferSize, failAt)
         == if BufferOk(ds, rank, slices, bufferSize) && Accepted(rank, slices, ds.dims) then Packs else Refused
  {
    WithinWords(ds, rank, slices, bufferSize);
    if FateOf(ds, rank, slices, bufferSize) == Packs && Wanted(rank, slices) != [] {
      FailsIff(ds, rank, slices, bufferSize, failAt);
    }
  }

  lemma SomeFit(ds: Dataset, rank: nat, slices: seq<Slice>, bufferSize: nat)
    requires DatasetOk(ds) && ShapeOk(rank, slices) && |ds.dims| == rank > 0
    requires FateOf(ds, rank, slices, bufferSize) == Packs && Wanted(rank, slices) != []
    ensures PerBuffer64(ds, rank, slices, bufferSize) > 0
  {
    assert slices[0] in slices;
    ZeroProduct(Shape(rank, slices));
    NonZero(Product(Shape(rank, slices)), ds.elementSize);
    RowWithinTotal(ds, rank, slices);
    RowInWord(RowSize(rank, slices), ds.elementSize);
    DivPositive(bufferSize, RowBytes64(ds, rank, slices));
  }

  /**
   pack_dataset_multi_slice_with_max_size, for every request that the layers above let through, if read
   number `failAt` is the one that fails. If it packs, the output is one array with the requested
   elements, whose header already has their number of bytes and their shape. If it refuses, nothing is
   written. Where the sizes wrap, the model stops after the header, and after one round of the loop if
   that does not advance.
   */
  method PackDatasetMultiSlice(ds: Dataset, rank: nat, slices: seq<Slice>, bufferSize: nat, pk: Packer, maxSize: nat,
                               failAt: nat)
    returns (fate: Fate)
    requires DatasetOk(ds) && |ds.dims| == rank && ShapeOk(rank, slices) && Signed(slices)
    requires 0 < maxSize < U64 / 2 && bufferSize < U64
    modifies pk
    ensures fate == Outcome(ds, rank, slices, bufferSize, failAt)
    ensures fate == Packs ==>
              pk.out == old(pk.out) + Encode(PackContents.NdArray(ds.type', ds.kind, Shape(rank, slices),
                                               Bytes(ds, Requested(rank, slices)), maxSize))
    ensures fate in {Refused, DividesByZero} ==> pk.out == old(pk.out)
    ensures fate in {Endless, Overruns, Misannounces} ==> pk.out == old(pk.out) + Announced(ds, rank, slices, maxSize)
    ensures fate == ReadFails ==>
              pk.out == old(pk.out) + Announced(ds, rank, slices, maxSize)
                        + PackContents.Written(BytesBefore(ds, rank, slices, bufferSize, failAt),
                                               TotalBytes(ds, rank, slices), maxSize)
  {
    if |slices| < 1 { return Refused; }
    var rowSize := CountRow(rank, slices);
    var cursor;
    fate, cursor := StartCursor(ds, rank, slices, rowSize, bufferSize);
    if fate == Packs {
      fate := PackAccepted(Request(ds, rank, slices), ds, rank, slices, cursor, rowSize, bufferSize, pk, maxSize,
                           failAt);
    }
  }

  /** The bytes of the rows that are read before the failing read. */
  ghost function BytesBefore(ds: Dataset, rank: nat, slices: seq<Slice>, bufferSize: nat, failAt: nat): seq<Byte>
    requires DatasetOk(ds) && ShapeOk(rank, slices) && |ds.dims| == rank
             && FateOf(ds, rank, slices, bufferSize) == Packs
  {
    Bytes(ds, Coords(rank, slices, Wanted(rank, slices)[0..RowsBefore(ds, rank, slices, bufferSize, failAt)]))
  }

  /** They are the first bytes of the result. */
  lemma FirstBytes(ds: Dataset, rank: nat, slices: seq<Slice>, bufferSize: nat, failAt: nat)
    requires DatasetOk(ds) && ShapeOk(rank, slices) && |ds.dims| == rank && Signed(slices)
    requires FateOf(ds, rank, slices, bufferSize) == Packs
    ensures BytesBefore(ds, rank, slices, bufferSize, failAt) <= Bytes(ds, Requested(rank, slices))
    ensures |BytesBefore(ds, rank, slices, bufferSize, failAt)|
         == RowsBefore(ds, rank, slices, bufferSize, failAt) * RowSize(rank, slices) * ds.elementSize
  {
    FirstPart(Request(ds, rank, slices), RowsBefore(ds, rank, slices, bufferSize, failAt));
  }

  lemma FirstPart(r: Request, n: nat)
    requires RequestOk(r) && n <= |AllRows(r)|
    ensures Part(r, 0, n) <= Payload(r) && |Part(r, 0, n)| == n * RowSize(r.rank, r.slices) * r.ds.elementSize
  {
    PartAll(r);
    PartJoin(r, 0, n, |AllRows(r)|);
    PartSize(r, 0, n);
  }

  /** The part after the checks: header, rows, and the end. */
  method PackAccepted(ghost r: Request, ds: Dataset, rank: nat, slices: seq<Slice>, cursor: Cursor, rowSize: nat,
                      bufferSize: nat, pk: Packer, maxSize: nat, failAt: nat)
    returns (fate: Fate)
    requires RequestOk(r) && r == Request(ds, rank, slices) && rowSize == RowSize64(rank, slices)
    requires 0 < maxSize < U64 / 2 && bufferSize < U64
    requires !ZeroDivisor(ds, rank, slices) && BufferOk64(ds, rank, slices, bufferSize)
    requires Started(r, cursor, PerBuffer64(ds, rank, slices, bufferSize))
    modifies cursor, cursor.start, cursor.count, pk
    ensures fate == Outcome(ds, rank, slices, bufferSize, failAt)
    ensures fate == Packs ==>
              pk.out == old(pk.out) + Encode(PackContents.NdArray(ds.type', ds.kind, Shape(rank, slices), Payload(r),
                                                                  maxSize))
    ensures fate in {Endless, Overruns, Misannounces} ==> pk.out == old(pk.out) + Announced(ds, rank, slices, maxSize)
    ensures fate == ReadFails ==>
              pk.out == old(pk.out) + Announced(ds, rank, slices, maxSize)
                        + PackContents.Written(BytesBefore(ds, rank, slices, bufferSize, failAt),
                                               TotalBytes(ds, rank, slices), maxSize)
    ensures fate !in {Refused, DividesByZero}
  {
    var pci := new PackContents.PackContentsInfo();
    PackHeader(r, ds, rank, cursor.totalCount, rowSize, maxSize, pci, pk);
    var space := new Dataspace(ds.dims);
    fate := GoesWrong(r, ds, rank, slices, cursor, space, rowSize);
    if fate != Packs { return; }
    ghost var header := pk.out;
    var ok;
    ghost var packed;
    ok, packed := PackAll(r, ds, cursor, space, rowSize, bufferSize, pci, pk, failAt);
    if ok {
      AnnouncedAndBody(r, maxSize);
      PartAll(r);
      Regroup3(old(pk.out), header, pk.out, Announced(ds, rank, slices, maxSize),
               PackContents.Written(packed, TotalBytes(ds, rank, slices), maxSize));
    } else {
      fate := ReadFails;
    }
  }

  lemma Regroup3<T>(a: seq<T>, ab: seq<T>, abc: seq<T>, b: seq<T>, c: seq<T>)
    requires ab == a + b && abc == ab + c
    ensures abc == a + (b + c)
  {}

  /** Whether the sizes wrap; if a row seems to have no elements, one round shows that the loop does not advance. */
  method GoesWrong(ghost r: Request, ds: Dataset, rank: nat, slices: seq<Slice>, cursor: Cursor, space: Dataspace,
                   rowSize: nat)
    returns (fate: Fate)
    requires RequestOk(r) && r == Request(ds, rank, slices) && |space.dims| == rank
             && rowSize == RowSize64(rank, slices)
    requires rowSize == 0 ==> Started(r, cursor, 0)
    modifies cursor`sliceNr, cursor`offsetInSlice, cursor`elementsLeftTotal, cursor.start, cursor.count, space
    ensures fate == AcceptedFate(ds, rank, slices)
    ensures fate == Packs ==> unchanged(cursor, cursor.start, cursor.count, space)
    ensures fate == Endless ==> Started(r, cursor, 0)
  {
    if TotalBytes(ds, rank, slices) > 0 {
      NothingWanted(r);
      if rowSize == 0 {
        var code, nr := EmptyRound(r, cursor, space);
        return Endless;
      }
      if RowSize(rank, slices) * ds.elementSize >= U64 { return Overruns; }
      if TotalBytes(ds, rank, slices) >= U64 / 2 { return Misannounces; }
    }
    fate := Packs;
  }

  /** Header and body, if the bytes of the result fit in a signed number. */
  lemma AnnouncedAndBody(r: Request, maxSize: nat)
    requires RequestOk(r) && TotalBytes(r.ds, r.rank, r.slices) < U64 / 2 && 0 < maxSize < U64 / 2
    ensures Announced(r.ds, r.rank, r.slices, maxSize)
            + PackContents.Written(Payload(r), TotalBytes(r.ds, r.rank, r.slices), maxSize)
         == Encode(PackContents.NdArray(r.ds.type', r.ds.kind, Shape(r.rank, r.slices), Payload(r), maxSize))
  {
    PartAll(r);
    PackContents.HeaderAndBody(r.ds.type', r.ds.kind, Shape(r.rank, r.slices), Payload(r), maxSize);
  }

  /** The part after the header, if nothing wraps. */
  method PackAll(ghost r: Request, ds: Dataset, cursor: Cursor, space: Dataspace, rowSize: nat, bufferSize: nat,
                 pci: PackContents.PackContentsInfo, pk: Packer, failAt: nat)
    returns (ok: bool, ghost packed: seq<Byte>)
    requires RequestOk(r) && ds == r.ds && space.dims == ds.dims && bufferSize < U64
             && rowSize == RowSize64(r.rank, r.slices)
    requires !ZeroDivisor(ds, r.rank, r.slices) && BufferOk64(ds, r.rank, r.slices, bufferSize)
    requires Started(r, cursor, PerBuffer64(ds, r.rank, r.slices, bufferSize))
    requires TotalBytes(ds, r.rank, r.slices) < U64 / 2
    requires pci.Valid() && pci.total == |Payload(r)| && pci.written == []
    modifies cursor`sliceNr, cursor`offsetInSlice, cursor`elementsLeftTotal, cursor.start, cursor.count, space
    modifies pci`totalBytesLeft, pci`bytesLeftInBin, pci`written, pk
    ensures var done := RowsRead(r.rank, r.slices, PerBuffer64(ds, r.rank, r.slices, bufferSize), failAt);
            (ok <==> done == |AllRows(r)|) && packed == Part(r, 0, done)
    ensures pk.out == old(pk.out) + PackContents.Written(packed, TotalBytes(ds, r.rank, r.slices), pci.maxSize)
  {
    StartedFits(r, cursor, bufferSize);
    PartAll(r);
    var buffer := new Byte[bufferSize];
    ok, packed := PackRows(r, ds, cursor, space, rowSize, buffer, pci, pk, failAt);
  }

  // ---------- requests that go wrong ----------

  /** A dataset of two dimensions with elements of the given size. */
  function Plane(rows: nat, columns: nat, elementSize: nat): Dataset {
    Dataset([rows, columns], elementSize, Nil, Nil, _ => seq(elementSize, _ => 0))
  }

  lemma ProductTwo(a: nat, b: nat)
    ensures Product([a, b]) == a * b && Product([a]) == a
  {
    assert [a, b][1..] == [b] && [b][1..] == [] && [a][1..] == [];
    assert Product([b]) == b * Product([]) == b;
  }

  /** A row of 2^61 elements of eight bytes: the divisor is 2^64, which is zero, whatever the dataset. */
  lemma DividesByZeroHappens(columns: nat, bufferSize: nat)
    requires columns < U64
    ensures var slices := [Slice([0, 0], [1, U64 / 8])];
      DatasetOk(Plane(1, columns, 8)) && ShapeOk(2, slices) && Signed(slices)
      && FateOf(Plane(1, columns, 8), 2, slices, bufferSize) == DividesByZero
  {
    var slices := [Slice([0, 0], [1, U64 / 8])];
    assert slices[0].count[1..] == [U64 / 8];
    ProductTwo(U64 / 8, 0);
  }

  /** All of a dataset with rows of 2^64 elements: a row seems to have none, and the loop does not advance. */
  lemma EndlessHappens(bufferSize: nat)
    ensures var slices := [Slice([0, 0, 0], [1, 0x1_0000_0000, 0x1_0000_0000])];
      var ds := Dataset([1, 0x1_0000_0000, 0x1_0000_0000], 1, Nil, Nil, _ => [0]);
      DatasetOk(ds) && ShapeOk(3, slices) && Signed(slices) && FateOf(ds, 3, slices, bufferSize) == Endless
  {
    var slices := [Slice([0, 0, 0], [1, 0x1_0000_0000, 0x1_0000_0000])];
    var ds := Dataset([1, 0x1_0000_0000, 0x1_0000_0000], 1, Nil, Nil, _ => [0]);
    assert slices[0].count[1..] == [0x1_0000_0000, 0x1_0000_0000];
    ProductTwo(0x1_0000_0000, 0x1_0000_0000);
    assert Shape(3, slices)[1..] == slices[0].count[1..];
    assert TotalRows(slices[1..]) == 0;
    assert WithinDims(slices[0], ds.dims);
  }

  /** A row of 2^62 + 1 elements of four bytes seems to have four bytes, and does not fit in the buffer. */
  lemma OverrunHappens(bufferSize: nat)
    requires 4 <= bufferSize
    ensures var slices := [Slice([0, 0], [1, U64 / 4 + 1])];
      DatasetOk(Plane(1, U64 / 4 + 1, 4)) && ShapeOk(2, slices) && Signed(slices)
      && FateOf(Plane(1, U64 / 4 + 1, 4), 2, slices, bufferSize) == Overruns
  {
    var slices := [Slice([0, 0], [1, U64 / 4 + 1])];
    assert slices[0].count[1..] == [U64 / 4 + 1];
    ProductTwo(U64 / 4 + 1, 0);
    assert Shape(2, slices)[1..] == slices[0].count[1..];
    assert TotalRows(slices[1..]) == 0;
    assert WithinDims(slices[0], Plane(1, U64 / 4 + 1, 4).dims);
  }

  /** All of a column of 2^61 elements of eight bytes: no bytes and no bins are announced. */
  lemma MisannounceHappens(bufferSize: nat)
    requires 8 <= bufferSize
    ensures var slices := [Slice([0, 0], [U64 / 8, 1])];
      DatasetOk(Plane(U64 / 8, 1, 8)) && ShapeOk(2, slices) && Signed(slices)
      && FateOf(Plane(U64 / 8, 1, 8), 2, slices, bufferSize) == Misannounces
      && TotalBytes(Plane(U64 / 8, 1, 8), 2, slices) % U64 == 0
  {
    var slices := [Slice([0, 0], [U64 / 8, 1])];
    assert slices[0].count[1..] == [1];
    ProductTwo(1, 0);
    assert Shape(2, slices)[1..] == slices[0].count[1..];
    assert TotalRows(slices[1..]) == 0;
    assert WithinDims(slices[0], Plane(U64 / 8, 1, 8).dims);
  }

  // ---------- the receiving side ----------

  datatype Received = NotAnArray | Received(type': Value, kind: Value, shape: seq<Value>, nbytes: int, data: seq<Byte>)

  function JoinBins(vs: seq<Value>): seq<Byte> {
    if vs == [] then [] else (if vs[0].Bin? then vs[0].bytes else []) + JoinBins(vs[1..])
  }

  /** Decodes one array from the stream, the way a client does. */
  function Receive(ts: seq<Token>): Received {
    var r := Decode(ts);
    if !r.Ok? || !r.value.Map? then NotAnArray
    else
      var es := r.value.entries;
      if |es| == 6 && es[0] == Entry("nd", True) && es[1].key == "type" && es[2].key == "kind"
         && es[3].key == "shape" && es[3].value.Array? && es[4].key == "nbytes" && es[4].value.Int?
         && es[5].key == "data" && es[5].value.Array?
      then Received(es[1].value, es[2].value, es[3].value.items, es[4].value.n, JoinBins(es[5].value.items))
      else NotAnArray
  }

  lemma {:induction false} JoinedBins(chunks: seq<seq<Byte>>)
    ensures JoinBins(PackContents.BinValues(chunks)) == Flatten(chunks)
  {
    if chunks != [] {
      assert PackContents.BinValues(chunks)[1..] == PackContents.BinValues(chunks[1..]);
      JoinedBins(chunks[1..]);
    }
  }

  /** Element i of the data is the value of the i-th coordinate. */
  lemma {:induction false} ElementAt(ds: Dataset, coords: seq<Coord>, i: nat)
    requires DatasetOk(ds) && i < |coords|
    ensures i * ds.elementSize + ds.elementSize <= |Bytes(ds, coords)|
    ensures Bytes(ds, coords)[i * ds.elementSize..i * ds.elementSize + ds.elementSize] == ds.value(coords[i])
  {
    BytesLength(ds, coords);
    MulLe(i + 1, |coords|, ds.elementSize);
    if i > 0 {
      ElementAt(ds, coords[1..], i - 1);
      assert (i - 1) * ds.elementSize + ds.elementSize == i * ds.elementSize;
      TailSlice(ds.value(coords[0]), Bytes(ds, coords[1..]), (i - 1) * ds.elementSize, ds.elementSize);
    }
  }

  lemma TailSlice<T>(head: seq<T>, tail: seq<T>, from: nat, n: nat)
    requires from + n <= |tail|
    ensures (head + tail)[|head| + from..|head| + from + n] == tail[from..from + n]
  {}

  lemma ReceiveNdArray(type': Value, kind: Value, shape: seq<nat>, payload: seq<Byte>, maxSize: nat, rest: seq<Token>)
    requires maxSize > 0
    ensures Receive(Encode(PackContents.NdArray(type', kind, shape, payload, maxSize)) + rest)
         == Received(type', kind, PackContents.Numbers(shape), |payload|, payload)
  {
    RoundTrip(PackContents.NdArray(type', kind, shape, payload, maxSize), rest);
    PackContents.ChunksAreThePayload(payload, maxSize);
    JoinedBins(PackContents.Chunks(payload, maxSize));
  }

  /**
   A client that decodes the output gets the requested elements in order, with the type, the kind, the
   shape and the number of bytes that were announced before any element had been read, whatever follows.
   */
  lemma ReceivesRequested(r: Request, maxSize: nat, rest: seq<Token>)
    requires RequestOk(r) && maxSize > 0
    ensures Receive(Encode(PackContents.NdArray(r.ds.type', r.ds.kind, Shape(r.rank, r.slices), Payload(r), maxSize))
                    + rest)
         == Received(r.ds.type', r.ds.kind, PackContents.Numbers(Shape(r.rank, r.slices)), |Payload(r)|, Payload(r))
    ensures |Payload(r)| == Product(Shape(r.rank, r.slices)) * r.ds.elementSize
    ensures forall c :: c in PackContents.Chunks(Payload(r), maxSize) ==> 0 < |c| <= maxSize
  {
    ReceiveNdArray(r.ds.type', r.ds.kind, Shape(r.rank, r.slices), Payload(r), maxSize, rest);
    PackContents.ChunksAreThePayload(Payload(r), maxSize);
    PartAll(r);
  }

  /**
   With the default size of bins, everything in the output of a request that packs fits in the format,
   if the description of the type does.
   */
  lemma OutputFits(ds: Dataset, rank: nat, slices: seq<Slice>, bufferSize: nat)
    requires DatasetOk(ds) && ShapeOk(rank, slices) && |ds.dims| == rank && Signed(slices)
    requires FateOf(ds, rank, slices, bufferSize) == Packs
    ensures AllFit(Encode(PackContents.NdArray(ds.type', ds.kind, Shape(rank, slices),
                                               Bytes(ds, Requested(rank, slices)), MAX_LENGTH)))
       <==> AllFit(Encode(ds.type')) && AllFit(Encode(ds.kind))
  {
    var r, shape := Request(ds, rank, slices), Shape(rank, slices);
    PartAll(r);
    ShapeInWords(ds, rank, slices);
    FewBins(|Payload(r)|);
    PackContents.ArrayFitsIff(ds.type', ds.kind, shape, Payload(r), MAX_LENGTH);
  }

  lemma FewBins(n: nat)
    requires n < U64 / 2
    ensures PackContents.NrBins(MAX_LENGTH, n) <= MAX_LENGTH
  {}

  lemma ShapeInWords(ds: Dataset, rank: nat, slices: seq<Slice>)
    requires DatasetOk(ds) && ShapeOk(rank, slices) && |ds.dims| == rank && Signed(slices) && slices != []
    requires Accepted(rank, slices, ds.dims)
    ensures rank <= MAX_DIMS && forall d :: 0 <= d < rank ==> Shape(rank, slices)[d] < U64
  {
    if rank > 0 {
      AcceptedRows(rank, slices, ds.dims);
      assert slices[0] in slices;
      forall d | 1 <= d < rank ensures Shape(rank, slices)[d] < U64 {
        assert Shape(rank, slices)[d] == slices[0].count[d];
      }
    }
  }
}
