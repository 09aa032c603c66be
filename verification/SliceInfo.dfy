/**
 The objects of the web application that pack and read slice descriptors, proved to write and read
 what SliceDescriptor defines (SliceInfo.java, DimensionArray.java, DimensionInfo.java and
 MsgpackUtils.java). An exception is a result that is not ok.
 */
module SliceInfo {
  import opened Basics
  import opened Msgpack
  import opened SliceDescriptor
  import opened Wrappers
  import opened Text
  import opened SliceString

  /** The stream of tokens being read. */
  class Unpacker {
    var input: seq<Token>

    constructor (input: seq<Token>)
      ensures this.input == input
    {
      this.input := input;
    }

    method UnpackArrayHeader() returns (ok: bool, n: nat)
      modifies this
      ensures ok <==> old(input) != [] && old(input)[0].ArrayT?
      ensures ok ==> n == old(input)[0].size && input == old(input)[1..]
    {
      if input == [] || !input[0].ArrayT? { return false, 0; }
      ok, n := true, input[0].size;
      input := input[1..];
    }

    method UnpackLong() returns (ok: bool, x: int)
      modifies this
      ensures ok <==> old(input) != [] && old(input)[0].IntT?
      ensures ok ==> x == old(input)[0].n && input == old(input)[1..]
    {
      if input == [] || !input[0].IntT? { return false, 0; }
      ok, x := true, input[0].n;
      input := input[1..];
    }

    /** unpackLongArray. */
    method UnpackLongArray(maxLength: nat) returns (ok: bool, xs: seq<int>)
      modifies this
      ensures ok <==> old(input) != [] && old(input)[0].ArrayT? && ReadLongs(old(input), maxLength).Ok?
      ensures ok ==> Ok(xs, input) == ReadLongs(old(input), maxLength)
    {
      var n;
      ok, n := UnpackArrayHeader();
      if !ok || n > maxLength { return false, []; }
      ghost var start := input;
      xs := [];
      ThenNone(ReadInts(n, start));
      while |xs| < n
        invariant |xs| <= n
        invariant ReadInts(n, start) == Then(xs, ReadInts(n - |xs|, input))
      {
        var x;
        ok, x := UnpackLong();
        if !ok { return false, []; }
        ThenOne(xs, x, ReadInts(n - |xs| - 1, input));
        xs := xs + [x];
      }
      assert xs + [] == xs;
      return true, xs;
    }

    /** unpackLongArrayOrScalar. */
    method UnpackLongArrayOrScalar(maxLength: nat) returns (ok: bool, xs: seq<int>)
      modifies this
      ensures ok <==> ReadLongs(old(input), maxLength).Ok?
      ensures ok ==> Ok(xs, input) == ReadLongs(old(input), maxLength)
    {
      if input == [] { return false, []; }
      if input[0].IntT? {
        var x;
        ok, x := UnpackLong();
        return true, [x];
      }
      ok, xs := UnpackLongArray(maxLength);
    }

    /** The constructor of DimensionInfo. */
    method UnpackDimension() returns (ok: bool, d: Dimension)
      modifies this
      ensures ok <==> ReadDimension(old(input)).Ok?
      ensures ok ==> Ok(d, input) == ReadDimension(old(input))
    {
      d := Dimension([], []);
      var n;
      ok, n := UnpackArrayHeader();
      if !ok || n != 2 { return false, d; }
      var start, count;
      ok, start := UnpackLongArrayOrScalar(MAX_SLICES);
      if !ok { return; }
      ok, count := UnpackLongArrayOrScalar(MAX_SLICES);
      if !ok { return; }
      d := Dimension(start, count);
      if |count| != 1 && |start| != |count| { return false, d; }
      if |count| == 0 || |start| == 0 { return false, d; }
    }
  }

  /** The result of reading the rest, with xs in front. */
  function Then<T>(xs: seq<T>, r: Result<seq<T>>): Result<seq<T>> {
    match r case Failed => Failed case Ok(ys, rest) => Ok(xs + ys, rest)
  }

  lemma ThenNone<T>(r: Result<seq<T>>)
    ensures Then([], r) == r
  {
    assert r.Ok? ==> [] + r.value == r.value;
  }

  lemma ThenOne<T>(xs: seq<T>, x: T, r: Result<seq<T>>)
    ensures Then(xs, Then([x], r)) == Then(xs + [x], r)
  {
    assert r.Ok? ==> xs + ([x] + r.value) == (xs + [x]) + r.value;
  }

  /** One more dimension has been read, or could not be. */
  lemma DimensionsNext(n: nat, start: seq<Token>, dims: seq<Dimension>, m: nat, before: seq<Token>)
    requires ReadDimensions(n, start) == Then(dims, ReadDimensions(m + 1, before))
    ensures ReadDimension(before).Failed? ==> ReadDimensions(n, start) == Failed
    ensures ReadDimension(before).Ok? ==>
              ReadDimensions(n, start)
              == Then(dims + [ReadDimension(before).value], ReadDimensions(m, ReadDimension(before).rest))
  {
    ReadDimensionsStep(m, before);
    if ReadDimension(before).Ok? {
      ThenOne(dims, ReadDimension(before).value, ReadDimensions(m, ReadDimension(before).rest));
    }
  }

  /** The dimensions of a descriptor. */
  class DimensionArray {
    var dims: seq<Dimension>

    constructor ()
    {
      dims := [];
    }

    /** The constructor of DimensionArray: at most eight dimensions, of which only the first has several starts. */
    method Unpack(u: Unpacker) returns (ok: bool)
      modifies this, u
      ensures ok <==> ReadSlices(old(u.input)).Ok?
      ensures ok ==> DimensionsOk(dims) && ReadSlices(old(u.input)) == Ok(Combine(dims), u.input)
    {
      var n;
      ok, n := u.UnpackArrayHeader();
      if !ok || n > MAX_DIMENSIONS { return false; }
      ghost var start := u.input;
      ok := UnpackAll(u, n);
      if !ok { return false; }
      var k := 1;
      while k < n
        invariant 1 <= k && forall d :: 1 <= d < k && d < n ==> |dims[d].start| <= 1
      {
        if |dims[k].start| > 1 { return false; }
        k := k + 1;
      }
      return true;
    }

    method UnpackAll(u: Unpacker, n: nat) returns (ok: bool)
      modifies this, u
      ensures ok <==> ReadDimensions(n, old(u.input)).Ok?
      ensures ok ==> ReadDimensions(n, old(u.input)) == Ok(dims, u.input)
    {
      dims := [];
      ThenNone(ReadDimensions(n, u.input));
      while |dims| < n
        invariant |dims| <= n
        invariant ReadDimensions(n, old(u.input)) == Then(dims, ReadDimensions(n - |dims|, u.input))
      {
        ghost var before := u.input;
        var d;
        ok, d := u.UnpackDimension();
        DimensionsNext(n, old(u.input), dims, n - |dims| - 1, before);
        if !ok { return false; }
        dims := dims + [d];
      }
      assert dims + [] == dims;
      return true;
    }
  }

  /** What FillRow has written so far: all rows before row k and the first d entries of row k. */
  ghost predicate Filled(xs: seq<int>, rows: seq<seq<int>>, k: nat, d: nat) {
    && k <= |rows|
    && if k == |rows| then d == 0 && xs == Flatten(rows)
       else d <= |rows[k]| && xs == Flatten(rows[..k]) + rows[k][..d]
  }

  lemma FilledOne(xs: seq<int>, rows: seq<seq<int>>, k: nat, d: nat, x: int)
    requires k < |rows| && d < |rows[k]| && Filled(xs, rows, k, d) && x == rows[k][d]
    ensures Filled(xs + [x], rows, k, d + 1)
  {
    assert rows[k][..d + 1] == rows[k][..d] + [x];
  }

  lemma FilledRow(xs: seq<int>, rows: seq<seq<int>>, k: nat)
    requires k < |rows| && Filled(xs, rows, k, |rows[k]|)
    ensures Filled(xs, rows, k + 1, 0)
  {
    assert rows[k][..|rows[k]|] == rows[k];
    assert rows[..k + 1][..k] == rows[..k];
    assert k + 1 == |rows| ==> rows[..k + 1] == rows;
    FlattenAppend(rows[..k], rows[k]);
    assert rows[..k] + [rows[k]] == rows[..k + 1];
    if k + 1 < |rows| { assert xs + rows[k + 1][..0] == xs; }
  }

  class SliceInfo {
    var nrSlices: nat
    var rank: nat
    var starts: array<int>
    var counts: array<int>

    constructor (nrSlices: nat, rank: nat)
      ensures this.nrSlices == nrSlices && this.rank == rank && fresh(starts) && fresh(counts) && starts != counts
      ensures starts.Length == counts.Length == nrSlices * rank
    {
      this.nrSlices, this.rank := nrSlices, rank;
      starts := new int[nrSlices * rank];
      counts := new int[nrSlices * rank];
    }

    ghost function View(): Slices
      reads this, starts, counts
    {
      Slices(nrSlices, rank, starts[..], counts[..])
    }

    /** One entry of one slice. */
    method FillEntry(ds: seq<Dimension>, k: nat, d: nat, offset: nat)
      requires DimensionsOk(ds) && k < NrSlices(ds) && d < |ds| && starts != counts
      requires offset < starts.Length == counts.Length
      requires Filled(starts[..offset], StartRows(ds), k, d) && Filled(counts[..offset], CountRows(ds), k, d)
      modifies starts, counts
      ensures Filled(starts[..offset + 1], StartRows(ds), k, d + 1)
      ensures Filled(counts[..offset + 1], CountRows(ds), k, d + 1)
    {
      assert ds[d] in ds;
      FilledOne(starts[..offset], StartRows(ds), k, d, StartAt(ds, k, d));
      FilledOne(counts[..offset], CountRows(ds), k, d, CountAt(ds, k, d));
      ghost var s, c := starts[..offset], counts[..offset];
      starts[offset] := if |ds[d].start| > 1 then ds[d].start[k] else ds[d].start[0];
      counts[offset] := if |ds[d].count| > 1 then ds[d].count[k] else ds[d].count[0];
      assert starts[..offset + 1] == s + [StartAt(ds, k, d)];
      assert counts[..offset + 1] == c + [CountAt(ds, k, d)];
    }

    /** The entries of one slice, from the dimensions. */
    method FillRow(ds: seq<Dimension>, k: nat, start: nat) returns (offset: nat)
      requires DimensionsOk(ds) && rank == |ds| && nrSlices == NrSlices(ds) && k < nrSlices && starts != counts
      requires starts.Length == counts.Length == nrSlices * rank && start == k * rank
      requires start <= starts.Length
      requires Filled(starts[..start], StartRows(ds), k, 0) && Filled(counts[..start], CountRows(ds), k, 0)
      modifies starts, counts
      ensures offset == (k + 1) * rank <= starts.Length
      ensures Filled(starts[..offset], StartRows(ds), k + 1, 0) && Filled(counts[..offset], CountRows(ds), k + 1, 0)
    {
      offset := start;
      var d := 0;
      while d < rank
        invariant 0 <= d <= rank && offset == start + d
        invariant offset <= starts.Length
        invariant Filled(starts[..offset], StartRows(ds), k, d) && Filled(counts[..offset], CountRows(ds), k, d)
      {
        IndexOk(k, d, nrSlices, rank);
        FillEntry(ds, k, d, offset);
        offset := offset + 1;
        d := d + 1;
      }
      FilledRow(starts[..offset], StartRows(ds), k);
      FilledRow(counts[..offset], CountRows(ds), k);
      assert k * rank + rank == (k + 1) * rank;
      MulLe(k + 1, nrSlices, rank);
    }

    /** Reads the dimensions of one slice of a string into the arrays. */
    method ParseRow(dims: seq<string>, offset: nat) returns (ok: bool)
      requires starts != counts && offset + |dims| <= starts.Length == counts.Length
      modifies starts, counts
      ensures ok <==> ParseRanges(dims).Some?
      ensures ok ==> starts[..offset + |dims|] == old(starts[..offset]) + StartsOf(ParseRanges(dims).value)
      ensures ok ==> counts[..offset + |dims|] == old(counts[..offset]) + CountsOf(ParseRanges(dims).value)
    {
      var d := 0;
      ghost var row: seq<Range> := [];
      ghost var s, c := starts[..offset], counts[..offset];
      assert dims[..0] == [];
      while d < |dims|
        invariant 0 <= d <= |dims| && ParseRanges(dims[..d]) == Some(row)
        invariant Stored(starts[..offset + d], counts[..offset + d], s, c, row)
      {
        ok := ParseEntry(dims, d, offset + d, s, c, row);
        if !ok { return false; }
        row := row + [ParseRange(dims[d]).value];
        d := d + 1;
      }
      assert dims[..|dims|] == dims;
      return true;
    }

    method ParseEntry(dims: seq<string>, d: nat, at: nat, ghost s: seq<int>, ghost c: seq<int>, ghost row: seq<Range>)
      returns (ok: bool)
      requires starts != counts && at < starts.Length == counts.Length
      requires d < |dims| && ParseRanges(dims[..d]) == Some(row) && Stored(starts[..at], counts[..at], s, c, row)
      modifies starts, counts
      ensures !ok ==> ParseRanges(dims).None?
      ensures ok ==> ParseRange(dims[d]).Some? && ParseRanges(dims[..d + 1]) == Some(row + [ParseRange(dims[d]).value])
      ensures ok ==> Stored(starts[..at + 1], counts[..at + 1], s, c, row + [ParseRange(dims[d]).value])
    {
      RangesNext(dims, d, row);
      var r := ParseRange(dims[d]);
      if r.None? { return false; }
      StoreRange(r.value, at);
      OneMoreRange(s, c, row, r.value);
      return true;
    }

    method StoreRange(r: Range, at: nat)
      requires starts != counts && at < starts.Length == counts.Length
      modifies starts, counts
      ensures starts[..at + 1] == old(starts[..at]) + [r.start] && counts[..at + 1] == old(counts[..at]) + [r.count]
    {
      starts[at], counts[at] := r.start, r.count;
    }

    ghost predicate Valid()
      reads this, starts, counts
    {
      WellShaped(View())
    }

    /** All entries of one of the arrays in the first dimension, with their number in front. */
    method PackColumn(pk: Packer, xs: array<int>)
      requires xs.Length == nrSlices * rank && rank > 0
      modifies pk
      ensures pk.out == old(pk.out) + ArrayTokens(Column(xs[..], nrSlices, rank, 0))
    {
      ghost var column := Column(xs[..], nrSlices, rank, 0);
      pk.Put(ArrayT(nrSlices));
      var k := 0;
      while k < nrSlices
        invariant 0 <= k <= nrSlices
        invariant pk.out == old(pk.out) + [ArrayT(nrSlices)] + IntTokens(column[..k])
      {
        IndexOk(k, 0, nrSlices, rank);
        assert column[k] == At(xs[..], nrSlices, rank, k, 0) == xs[k * rank];
        assert IntTokens(column[..k + 1]) == IntTokens(column[..k]) + [IntT(column[k])];
        pk.Put(IntT(xs[k * rank]));
        k := k + 1;
      }
      assert column[..nrSlices] == column;
    }

    /** Whether the slices have different counts in the first dimension. */
    method CountsDiffer() returns (differ: bool)
      requires Valid() && rank > 0
      ensures differ <==> !AllEqual(Column(counts[..], nrSlices, rank, 0))
    {
      ghost var column := Column(counts[..], nrSlices, rank, 0);
      assert column[0] == At(counts[..], nrSlices, rank, 0, 0) == counts[0];
      differ := false;
      var k := 1;
      while k < nrSlices
        invariant 1 <= k <= nrSlices
        invariant differ <==> exists j :: 0 <= j < k && column[j] != column[0]
      {
        IndexOk(k, 0, nrSlices, rank);
        assert column[k] == At(counts[..], nrSlices, rank, k, 0) == counts[k * rank];
        if counts[k * rank] != counts[0] { differ := true; }
        k := k + 1;
      }
    }

    method PackStarts(pk: Packer)
      requires Valid() && rank > 0
      modifies pk
      ensures pk.out == old(pk.out) + StartTokens(Column(starts[..], nrSlices, rank, 0))
    {
      FirstEntry(starts[..], nrSlices, rank);
      if nrSlices == 1 {
        pk.Put(IntT(starts[0]));
      } else {
        PackColumn(pk, starts);
      }
    }

    method PackCounts(pk: Packer)
      requires Valid() && rank > 0
      modifies pk
      ensures pk.out == old(pk.out) + CountTokens(Column(counts[..], nrSlices, rank, 0))
    {
      FirstEntry(counts[..], nrSlices, rank);
      var differ := CountsDiffer();
      if differ {
        PackColumn(pk, counts);
      } else {
        pk.Put(IntT(counts[0]));
      }
    }

    /** The first dimension. */
    method PackFirst(pk: Packer)
      requires Valid() && rank > 0
      modifies pk
      ensures pk.out == old(pk.out) + WireTokens(WireOf(View(), 0))
    {
      ghost var s, c := Column(starts[..], nrSlices, rank, 0), Column(counts[..], nrSlices, rank, 0);
      ghost var before := pk.out;
      pk.Put(ArrayT(2));
      PackStarts(pk);
      PackCounts(pk);
      AssociateFour(before, [ArrayT(2)], StartTokens(s), CountTokens(c));
    }

    /** Any other dimension: the start and count of the first slice. */
    method PackLater(pk: Packer, d: nat)
      requires Valid() && 0 < d < rank
      modifies pk
      ensures pk.out == old(pk.out) + WireTokens(WireOf(View(), d))
    {
      IndexOk(0, d, nrSlices, rank);
      assert At(starts[..], nrSlices, rank, 0, d) == starts[d] && At(counts[..], nrSlices, rank, 0, d) == counts[d];
      pk.Put(ArrayT(2));
      pk.Put(IntT(starts[d]));
      pk.Put(IntT(counts[d]));
    }

    /** pack: by SliceDescriptor.RoundTripIff it can be read back if the slices agree beyond the first dimension. */
    method Pack(pk: Packer)
      requires Valid()
      modifies pk
      ensures pk.out == old(pk.out) + PackTokens(View())
    {
      ghost var before := pk.out;
      pk.Put(ArrayT(rank));
      PackDimensions(pk);
      Associate(before, [ArrayT(rank)], WiresTokens(Wires(View())));
    }

    method PackDimensions(pk: Packer)
      requires Valid()
      modifies pk
      ensures pk.out == old(pk.out) + WiresTokens(Wires(View()))
    {
      ghost var wires, base := Wires(View()), pk.out;
      var d := 0;
      while d < rank
        invariant 0 <= d <= rank
        invariant pk.out == base + WiresTokens(wires[..d])
      {
        ghost var now := pk.out;
        PackDimension(pk, d);
        assert pk.out == now + WireTokens(wires[d]);
        WiresTokensNext(wires, d);
        Associate(base, WiresTokens(wires[..d]), WireTokens(wires[d]));
        d := d + 1;
      }
      assert wires[..rank] == wires;
    }

    method PackDimension(pk: Packer, d: nat)
      requires Valid() && d < rank
      modifies pk
      ensures pk.out == old(pk.out) + WireTokens(Wires(View())[d])
    {
      if d == 0 { PackFirst(pk); } else { PackLater(pk, d); }
    }
  }

  lemma FirstEntry(xs: seq<int>, n: nat, rank: nat)
    requires |xs| == n * rank && n > 0 && rank > 0
    ensures Column(xs, n, rank, 0)[0] == xs[0]
  {
    assert Column(xs, n, rank, 0)[0] == At(xs, n, rank, 0, 0);
  }

  /** getSliceInfo: the starts and counts of all dimensions, slice by slice. */
  method GetSliceInfo(ds: seq<Dimension>) returns (slice: SliceInfo)
    requires DimensionsOk(ds)
    ensures fresh(slice) && slice.View() == Combine(ds)
  {
    var n := 1;
    if |ds| > 0 {
      assert ds[0] in ds;
      n := |ds[0].start|;
    }
    slice := new SliceInfo(n, |ds|);
    var offset, k := 0, 0;
    while k < n
      invariant 0 <= k <= n && offset == k * |ds| <= slice.starts.Length
      invariant slice.nrSlices == n == NrSlices(ds) && slice.rank == |ds|
      invariant fresh(slice) && fresh(slice.starts) && fresh(slice.counts) && slice.starts != slice.counts
      invariant slice.starts.Length == slice.counts.Length == n * |ds|
      invariant Filled(slice.starts[..offset], StartRows(ds), k, 0)
                && Filled(slice.counts[..offset], CountRows(ds), k, 0)
    {
      offset := slice.FillRow(ds, k, offset);
      k := k + 1;
    }
    assert slice.starts[..offset] == slice.starts[..] && slice.counts[..offset] == slice.counts[..];
  }

  function StartsOf(row: seq<Range>): (r: seq<int>)
    ensures |r| == |row|
  {
    seq(|row|, d requires 0 <= d < |row| => row[d].start)
  }

  function CountsOf(row: seq<Range>): (r: seq<int>)
    ensures |r| == |row|
  {
    seq(|row|, d requires 0 <= d < |row| => row[d].count)
  }

  /** The entries of a slice have been stored behind those of the slices before. */
  ghost predicate Stored(xs: seq<int>, ys: seq<int>, s: seq<int>, c: seq<int>, row: seq<Range>) {
    xs == s + StartsOf(row) && ys == c + CountsOf(row)
  }

  lemma OneMoreRange(s: seq<int>, c: seq<int>, row: seq<Range>, r: Range)
    ensures s + StartsOf(row) + [r.start] == s + StartsOf(row + [r])
    ensures c + CountsOf(row) + [r.count] == c + CountsOf(row + [r])
  {
    assert StartsOf(row + [r]) == StartsOf(row) + [r.start];
    assert CountsOf(row + [r]) == CountsOf(row) + [r.count];
  }

  /** If all dimensions can be parsed, so can the first n; if the n-th one cannot, they all cannot. */
  lemma {:induction false} RangesPrefix(dims: seq<string>, n: nat)
    requires n <= |dims|
    ensures ParseRanges(dims).Some? ==> ParseRanges(dims[..n]).Some?
    decreases |dims|
  {
    if n < |dims| {
      RangesPrefix(dims[..|dims| - 1], n);
      assert dims[..|dims| - 1][..n] == dims[..n];
    } else {
      assert dims[..n] == dims;
    }
  }

  lemma RangesNext(dims: seq<string>, d: nat, row: seq<Range>)
    requires d < |dims| && ParseRanges(dims[..d]) == Some(row)
    ensures ParseRange(dims[d]).None? ==> ParseRanges(dims).None?
    ensures ParseRange(dims[d]).Some? ==> ParseRanges(dims[..d + 1]) == Some(row + [ParseRange(dims[d]).value])
  {
    RangesPrefix(dims, d + 1);
    assert dims[..d + 1][..d] == dims[..d];
  }

  lemma RowsNext(slices: seq<string>, k: nat, rank: nat, rows: seq<seq<Range>>)
    requires k < |slices| && ParseRows(slices[..k], rank) == Some(rows)
    ensures |Dimensions(slices[k])| != rank || ParseRanges(Dimensions(slices[k])).None? ==>
              ParseRows(slices, rank).None?
    ensures |Dimensions(slices[k])| == rank && ParseRanges(Dimensions(slices[k])).Some? ==>
              ParseRows(slices[..k + 1], rank) == Some(rows + [ParseRanges(Dimensions(slices[k])).value])
  {
    RowsPrefix(slices, rank, k + 1);
    assert slices[..k + 1][..k] == slices[..k];
  }

  lemma {:induction false} RowsPrefix(slices: seq<string>, rank: nat, n: nat)
    requires n <= |slices|
    ensures ParseRows(slices, rank).Some? ==> ParseRows(slices[..n], rank).Some?
    decreases |slices|
  {
    if n < |slices| {
      RowsPrefix(slices[..|slices| - 1], rank, n);
      assert slices[..|slices| - 1][..n] == slices[..n];
    } else {
      assert slices[..n] == slices;
    }
  }

  lemma OneMoreSlice(rows: seq<seq<Range>>, row: seq<Range>)
    ensures Flatten(Starts(rows + [row])) == Flatten(Starts(rows)) + StartsOf(row)
    ensures Flatten(Counts(rows + [row])) == Flatten(Counts(rows)) + CountsOf(row)
  {
    FlattenAppend(Starts(rows), StartsOf(row));
    FlattenAppend(Counts(rows), CountsOf(row));
    assert Starts(rows + [row]) == Starts(rows) + [StartsOf(row)]
           && Counts(rows + [row]) == Counts(rows) + [CountsOf(row)];
  }

  /** The constructor from a string. The number of dimensions is that of the first slice. */
  method FromString(s: string) returns (ok: bool, slice: SliceInfo)
    ensures fresh(slice) && (ok <==> ParseSlices(s).Some?)
    ensures ok ==> slice.View() == ParseSlices(s).value
  {
    if |s| > MAX_STRING_LENGTH { slice := new SliceInfo(0, 0); return false, slice; }
    var slices := Split(s, ';');
    var rank := |Dimensions(slices[0])|;
    if |slices| > MAX_SLICES || rank > MAX_DIMENSIONS { slice := new SliceInfo(0, 0); return false, slice; }
    slice := new SliceInfo(|slices|, rank);
    ok := ParseAll(slices, rank, slice);
  }

  /** The arrays hold the slices read so far. */
  ghost predicate Parsed(xs: seq<int>, ys: seq<int>, rows: seq<seq<Range>>) {
    xs == Flatten(Starts(rows)) && ys == Flatten(Counts(rows))
  }

  method ParseAll(slices: seq<string>, rank: nat, slice: SliceInfo) returns (ok: bool)
    requires rank <= MAX_DIMENSIONS && slice.starts != slice.counts
    requires slice.starts.Length == slice.counts.Length && RowStart(slice.starts.Length, |slices|, rank)
    modifies slice.starts, slice.counts
    ensures ok <==> ParseRows(slices, rank).Some?
    ensures ok ==> Parsed(slice.starts[..], slice.counts[..], ParseRows(slices, rank).value)
  {
    var k: nat, offset: nat := 0, 0;
    ghost var rows: seq<seq<Range>> := [];
    assert slices[..0] == [];
    while k < |slices|
      invariant 0 <= k <= |slices| && RowStart(offset, k, rank) && offset <= slice.starts.Length
      invariant ParseRows(slices[..k], rank) == Some(rows)
      invariant Parsed(slice.starts[..offset], slice.counts[..offset], rows)
    {
      NextRow(offset, k, slice.starts.Length, |slices|, rank);
      ok := ParseOne(slices, k, rank, slice, offset, rows);
      if !ok { return false; }
      rows := rows + [ParseRanges(Dimensions(slices[k])).value];
      offset := offset + rank;
      k := k + 1;
    }
    assert slices[..|slices|] == slices;
    assert offset == slice.starts.Length;
    WholeArray(slice.starts[..], offset);
    WholeArray(slice.counts[..], offset);
    return true;
  }

  lemma WholeArray(xs: seq<int>, n: nat)
    requires n == |xs|
    ensures xs[..n] == xs
  {}

  /** Where the entries of slice k start. */
  ghost predicate RowStart(offset: nat, k: nat, rank: nat) {
    offset == k * rank
  }

  lemma NextRow(offset: nat, k: nat, total: nat, n: nat, rank: nat)
    requires RowStart(offset, k, rank) && RowStart(total, n, rank) && k < n
    ensures RowStart(offset + rank, k + 1, rank) && offset + rank <= total
  {
    assert (k + 1) * rank == k * rank + rank;
    MulLe(k + 1, n, rank);
  }

  /** One more slice. */
  method ParseOne(slices: seq<string>, k: nat, rank: nat, slice: SliceInfo, offset: nat, ghost rows: seq<seq<Range>>)
    returns (ok: bool)
    requires k < |slices| && rank <= MAX_DIMENSIONS && slice.starts != slice.counts
    requires offset + rank <= slice.starts.Length == slice.counts.Length
    requires ParseRows(slices[..k], rank) == Some(rows)
    requires Parsed(slice.starts[..offset], slice.counts[..offset], rows)
    modifies slice.starts, slice.counts
    ensures !ok ==> ParseRows(slices, rank).None?
    ensures ok ==> ParseRanges(Dimensions(slices[k])).Some?
    ensures ok ==> var more := rows + [ParseRanges(Dimensions(slices[k])).value];
      && ParseRows(slices[..k + 1], rank) == Some(more)
      && Parsed(slice.starts[..offset + rank], slice.counts[..offset + rank], more)
  {
    RowsNext(slices, k, rank, rows);
    var dims := Dimensions(slices[k]);
    if |dims| > MAX_DIMENSIONS { return false; }
    if |dims| != rank { return false; }
    ok := slice.ParseRow(dims, offset);
    if ok { OneMoreSlice(rows, ParseRanges(dims).value); }
  }

  /** What a request holds: a string, or an array of dimensions. */
  ghost function Requested(ts: seq<Token>): Option<Slices> {
    if ts == [] then None
    else match ts[0]
      case StrT(s) => ParseSlices(s)
      case ArrayT(_) => (match ReadSlices(ts) case Failed => None case Ok(slices, _) => Some(slices))
      case _ => None
  }

  /** fromUnpacker. */
  method FromUnpacker(u: Unpacker) returns (ok: bool, slice: SliceInfo?)
    modifies u
    ensures ok <==> Requested(old(u.input)).Some?
    ensures ok ==> slice != null && fresh(slice) && slice.View() == Requested(old(u.input)).value
  {
    ok, slice := false, null;
    if u.input == [] { return; }
    match u.input[0]
    case StrT(s) => ok, slice := FromString(s);
    case ArrayT(_) =>
      var dims := new DimensionArray();
      ok := dims.Unpack(u);
      if ok { slice := GetSliceInfo(dims.dims); }
    case _ => return;
  }
}
