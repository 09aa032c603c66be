/**
 Slice descriptors in requests: packing a list of slices and reading it back
 (webapp SliceInfo.java, DimensionArray.java, DimensionInfo.java and MsgpackUtils.java). Starts and
 counts beyond the first dimension are sent once, and counts in the first one too if they are equal.
 */
module SliceDescriptor {
  import opened Basics
  import opened Msgpack

  const MAX_SLICES: nat := 16777216
  const MAX_DIMENSIONS: nat := 8

  /** The start and count of every slice in every dimension, slice by slice. */
  datatype Slices = Slices(nrSlices: nat, rank: nat, starts: seq<int>, counts: seq<int>)

  ghost predicate WellShaped(s: Slices) {
    s.nrSlices >= 1 && |s.starts| == |s.counts| == s.nrSlices * s.rank
  }

  lemma IndexOk(k: nat, d: nat, n: nat, rank: nat)
    requires k < n && d < rank
    ensures k * rank + d < n * rank
  {
    MulLe(k + 1, n, rank);
  }

  /** The entry of slice k in dimension d. */
  function At(xs: seq<int>, n: nat, rank: nat, k: nat, d: nat): int
    requires |xs| == n * rank && k < n && d < rank
  {
    IndexOk(k, d, n, rank);
    xs[k * rank + d]
  }

  /** The entries of all slices in one dimension. */
  function Column(xs: seq<int>, n: nat, rank: nat, d: nat): (c: seq<int>)
    requires |xs| == n * rank && d < rank
    ensures |c| == n && forall k :: 0 <= k < n ==> c[k] == At(xs, n, rank, k, d)
  {
    seq(n, k requires 0 <= k < n => At(xs, n, rank, k, d))
  }

  // ---------- packing ----------

  function IntTokens(xs: seq<int>): (ts: seq<Token>)
    ensures |ts| == |xs| && forall i :: 0 <= i < |ts| ==> ts[i] == IntT(xs[i])
  {
    seq(|xs|, i requires 0 <= i < |xs| => IntT(xs[i]))
  }

  function ArrayTokens(xs: seq<int>): seq<Token> {
    [ArrayT(|xs|)] + IntTokens(xs)
  }

  predicate AllEqual(xs: seq<int>) {
    forall i :: 0 <= i < |xs| ==> xs[i] == xs[0]
  }

  /** The starts in the first dimension: a number if there is one slice only. */
  function StartTokens(xs: seq<int>): seq<Token>
    requires xs != []
  {
    if |xs| == 1 then [IntT(xs[0])] else ArrayTokens(xs)
  }

  /** The counts in the first dimension: a number if they are all equal. */
  function CountTokens(xs: seq<int>): seq<Token>
    requires xs != []
  {
    if AllEqual(xs) then [IntT(xs[0])] else ArrayTokens(xs)
  }

  /** What has to be sent for one dimension: all starts and counts in the first one, else those of the first slice. */
  datatype Wire = Wire(starts: seq<int>, counts: seq<int>)

  predicate WireOk(w: Wire) {
    |w.starts| == |w.counts| > 0
  }

  function WireTokens(w: Wire): seq<Token>
    requires WireOk(w)
  {
    [ArrayT(2)] + (StartTokens(w.starts) + CountTokens(w.counts))
  }

  function WiresTokens(ws: seq<Wire>): seq<Token>
    requires forall w :: w in ws ==> WireOk(w)
  {
    if ws == [] then [] else WireTokens(ws[0]) + WiresTokens(ws[1..])
  }

  function WireOf(s: Slices, d: nat): (w: Wire)
    requires WellShaped(s) && d < s.rank
    ensures WireOk(w) && |w.starts| == if d == 0 then s.nrSlices else 1
  {
    if d == 0 then Wire(Column(s.starts, s.nrSlices, s.rank, 0), Column(s.counts, s.nrSlices, s.rank, 0))
    else Wire([At(s.starts, s.nrSlices, s.rank, 0, d)], [At(s.counts, s.nrSlices, s.rank, 0, d)])
  }

  function Wires(s: Slices): (ws: seq<Wire>)
    requires WellShaped(s)
    ensures |ws| == s.rank && forall d :: 0 <= d < |ws| ==> ws[d] == WireOf(s, d) && WireOk(ws[d])
  {
    seq(s.rank, d requires 0 <= d < s.rank => WireOf(s, d))
  }

  function PackTokens(s: Slices): seq<Token>
    requires WellShaped(s)
  {
    [ArrayT(s.rank)] + WiresTokens(Wires(s))
  }

  // ---------- reading ----------

  /** One dimension: a start for every slice or for all of them, and likewise a count. */
  datatype Dimension = Dimension(start: seq<int>, count: seq<int>)

  function ReadInts(n: nat, ts: seq<Token>): (r: Result<seq<int>>)
    ensures r.Ok? ==> |r.value| == n
  {
    if n == 0 then Ok([], ts)
    else if ts == [] || !ts[0].IntT? then Failed
    else match ReadInts(n - 1, ts[1..])
      case Failed => Failed
      case Ok(xs, rest) => Ok([ts[0].n] + xs, rest)
  }

  /** A number, or an array of at most maxLength numbers. */
  function ReadLongs(ts: seq<Token>, maxLength: nat): (r: Result<seq<int>>) {
    if ts == [] then Failed
    else match ts[0]
      case IntT(n) => Ok([n], ts[1..])
      case ArrayT(n) => if n > maxLength then Failed else ReadInts(n, ts[1..])
      case _ => Failed
  }

  predicate DimensionOk(d: Dimension) {
    && (|d.count| == 1 || |d.start| == |d.count|)
    && |d.count| != 0 && |d.start| != 0
  }

  function ReadDimension(ts: seq<Token>): (r: Result<Dimension>)
    ensures r.Ok? ==> DimensionOk(r.value)
  {
    if ts == [] || ts[0] != ArrayT(2) then Failed
    else match ReadLongs(ts[1..], MAX_SLICES)
      case Failed => Failed
      case Ok(start, rest) =>
        match ReadLongs(rest, MAX_SLICES)
        case Failed => Failed
        case Ok(count, rest') =>
          if DimensionOk(Dimension(start, count)) then Ok(Dimension(start, count), rest') else Failed
  }

  function ReadDimensions(n: nat, ts: seq<Token>): (r: Result<seq<Dimension>>)
    ensures r.Ok? ==> |r.value| == n && forall d :: d in r.value ==> DimensionOk(d)
  {
    if n == 0 then Ok([], ts)
    else match ReadDimension(ts)
      case Failed => Failed
      case Ok(d, rest) =>
        match ReadDimensions(n - 1, rest)
        case Failed => Failed
        case Ok(ds, rest') => Ok([d] + ds, rest')
  }

  /** Only the first dimension may have different starts. */
  predicate DimensionsOk(ds: seq<Dimension>) {
    && (forall d :: d in ds ==> DimensionOk(d))
    && forall d :: 1 <= d < |ds| ==> |ds[d].start| <= 1
  }

  function Pick(xs: seq<int>, k: nat): int
    requires |xs| == 1 || k < |xs|
  {
    if |xs| > 1 then xs[k] else xs[0]
  }

  function NrSlices(ds: seq<Dimension>): nat {
    if ds == [] then 1 else |ds[0].start|
  }

  function StartAt(ds: seq<Dimension>, k: nat, d: nat): int
    requires DimensionsOk(ds) && k < NrSlices(ds) && d < |ds|
  {
    assert ds[d] in ds;
    Pick(ds[d].start, k)
  }

  function CountAt(ds: seq<Dimension>, k: nat, d: nat): int
    requires DimensionsOk(ds) && k < NrSlices(ds) && d < |ds|
  {
    assert ds[d] in ds;
    Pick(ds[d].count, k)
  }

  function StartRows(ds: seq<Dimension>): (rows: seq<seq<int>>)
    requires DimensionsOk(ds)
  {
    seq(NrSlices(ds), k requires 0 <= k < NrSlices(ds) => seq(|ds|, d requires 0 <= d < |ds| => StartAt(ds, k, d)))
  }

  function CountRows(ds: seq<Dimension>): (rows: seq<seq<int>>)
    requires DimensionsOk(ds)
  {
    seq(NrSlices(ds), k requires 0 <= k < NrSlices(ds) => seq(|ds|, d requires 0 <= d < |ds| => CountAt(ds, k, d)))
  }

  /** The list of slices that these dimensions describe. */
  function Combine(ds: seq<Dimension>): Slices
    requires DimensionsOk(ds)
  {
    Slices(NrSlices(ds), |ds|, Flatten(StartRows(ds)), Flatten(CountRows(ds)))
  }

  function ReadSlices(ts: seq<Token>): (r: Result<Slices>) {
    if ts == [] || !ts[0].ArrayT? || ts[0].size > MAX_DIMENSIONS then Failed
    else match ReadDimensions(ts[0].size, ts[1..])
      case Failed => Failed
      case Ok(ds, rest) => if DimensionsOk(ds) then Ok(Combine(ds), rest) else Failed
  }

  // ---------- what is read of what was packed ----------

  lemma {:induction false} ReadIntsBack(xs: seq<int>, rest: seq<Token>)
    ensures ReadInts(|xs|, IntTokens(xs) + rest) == Ok(xs, rest)
  {
    if xs == [] {
      assert IntTokens(xs) + rest == rest;
    } else {
      assert (IntTokens(xs) + rest)[1..] == IntTokens(xs[1..]) + rest;
      ReadIntsBack(xs[1..], rest);
      assert [xs[0]] + xs[1..] == xs;
    }
  }

  lemma ReadArrayBack(xs: seq<int>, rest: seq<Token>)
    ensures ReadLongs(ArrayTokens(xs) + rest, MAX_SLICES) == if |xs| <= MAX_SLICES then Ok(xs, rest) else Failed
  {
    assert (ArrayTokens(xs) + rest)[1..] == IntTokens(xs) + rest;
    ReadIntsBack(xs, rest);
  }

  lemma ReadNumberBack(x: int, rest: seq<Token>)
    ensures ReadLongs([IntT(x)] + rest, MAX_SLICES) == Ok([x], rest)
  {
    assert ([IntT(x)] + rest)[1..] == rest;
  }

  lemma ReadStartBack(starts: seq<int>, rest: seq<Token>)
    requires starts != []
    ensures ReadLongs(StartTokens(starts) + rest, MAX_SLICES)
         == if |starts| <= MAX_SLICES then Ok(starts, rest) else Failed
  {
    ReadArrayBack(starts, rest);
    ReadNumberBack(starts[0], rest);
    assert |starts| == 1 ==> starts == [starts[0]];
  }

  /** Equal counts come back as one number. */
  function SentCounts(counts: seq<int>): seq<int>
    requires counts != []
  {
    if AllEqual(counts) then [counts[0]] else counts
  }

  lemma ReadCountBack(counts: seq<int>, rest: seq<Token>)
    requires 0 < |counts| <= MAX_SLICES
    ensures ReadLongs(CountTokens(counts) + rest, MAX_SLICES) == Ok(SentCounts(counts), rest)
  {
    ReadArrayBack(counts, rest);
    ReadNumberBack(counts[0], rest);
  }

  /** The dimension that is read for what was sent. */
  function Received(w: Wire): (d: Dimension)
    requires WireOk(w)
    ensures DimensionOk(d) && |d.start| == |w.starts|
  {
    Dimension(w.starts, SentCounts(w.counts))
  }

  function ReceivedAll(ws: seq<Wire>): (ds: seq<Dimension>)
    requires forall w :: w in ws ==> WireOk(w)
    ensures |ds| == |ws| && forall i :: 0 <= i < |ds| ==> ds[i] == Received(ws[i])
  {
    if ws == [] then [] else [Received(ws[0])] + ReceivedAll(ws[1..])
  }

  lemma ReadWireBack(w: Wire, rest: seq<Token>)
    requires WireOk(w)
    ensures |w.starts| <= MAX_SLICES ==> ReadDimension(WireTokens(w) + rest) == Ok(Received(w), rest)
    ensures |w.starts| > MAX_SLICES ==> ReadDimension(WireTokens(w) + rest) == Failed
  {
    var after := CountTokens(w.counts) + rest;
    var ts := StartTokens(w.starts) + after;
    ReadStartBack(w.starts, after);
    if |w.counts| <= MAX_SLICES { ReadCountBack(w.counts, rest); }
    ReadPair(ts);
    assert WireTokens(w) + rest == [ArrayT(2)] + ts;
  }

  /** A dimension is two lists of numbers after the header. */
  lemma ReadPair(ts: seq<Token>)
    ensures var start := ReadLongs(ts, MAX_SLICES);
            && (start.Failed? ==> ReadDimension([ArrayT(2)] + ts) == Failed)
            && (start.Ok? ==>
                  var count := ReadLongs(start.rest, MAX_SLICES);
                  count.Ok? && DimensionOk(Dimension(start.value, count.value)) ==>
                    ReadDimension([ArrayT(2)] + ts) == Ok(Dimension(start.value, count.value), count.rest))
  {
    assert ([ArrayT(2)] + ts)[1..] == ts;
  }

  predicate Fits(w: Wire) {
    |w.starts| <= MAX_SLICES
  }

  /** Reading one dimension and then the others. */
  lemma ReadDimensionsStep(n: nat, ts: seq<Token>)
    ensures ReadDimension(ts).Failed? ==> ReadDimensions(n + 1, ts) == Failed
    ensures ReadDimension(ts).Ok? && ReadDimensions(n, ReadDimension(ts).rest).Failed? ==>
              ReadDimensions(n + 1, ts) == Failed
    ensures ReadDimension(ts).Ok? && ReadDimensions(n, ReadDimension(ts).rest).Ok? ==>
              ReadDimensions(n + 1, ts)
              == Ok([ReadDimension(ts).value] + ReadDimensions(n, ReadDimension(ts).rest).value,
                                              ReadDimensions(n, ReadDimension(ts).rest).rest)
  {}

  lemma {:induction false} ReadWiresBack(ws: seq<Wire>, rest: seq<Token>)
    requires forall w :: w in ws ==> WireOk(w) && Fits(w)
    ensures ReadDimensions(|ws|, WiresTokens(ws) + rest) == Ok(ReceivedAll(ws), rest)
  {
    if ws == [] {
      assert WiresTokens(ws) + rest == rest;
    } else {
      var w, others := ws[0], ws[1..];
      var after := WiresTokens(others) + rest;
      ReadWireBack(w, after);
      ReadWiresBack(others, rest);
      ReadDimensionsStep(|others|, WireTokens(w) + after);
      assert WiresTokens(ws) + rest == WireTokens(w) + after;
    }
  }

  lemma ReadDimensionsFail(n: nat, ts: seq<Token>)
    requires n > 0 && ReadDimension(ts).Failed?
    ensures ReadDimensions(n, ts) == Failed
  {}

  lemma FirstTooLong(ws: seq<Wire>, rest: seq<Token>)
    requires (forall w :: w in ws ==> WireOk(w)) && ws != [] && !Fits(ws[0])
    ensures ReadDimensions(|ws|, WiresTokens(ws) + rest) == Failed
  {
    var after := WiresTokens(ws[1..]) + rest;
    ReadWireBack(ws[0], after);
    ReadDimensionsFail(|ws|, WireTokens(ws[0]) + after);
    assert WiresTokens(ws) + rest == WireTokens(ws[0]) + after;
  }

  /** The limits on dimensions and slices. */
  predicate Readable(s: Slices) {
    s.rank <= MAX_DIMENSIONS && (s.rank > 0 ==> s.nrSlices <= MAX_SLICES)
  }

  function Sent(s: Slices): seq<Dimension>
    requires WellShaped(s)
  {
    ReceivedAll(Wires(s))
  }

  lemma SentOk(s: Slices)
    requires WellShaped(s)
    ensures DimensionsOk(Sent(s))
  {}

  lemma {:induction false} ReadWires(ws: seq<Wire>, rest: seq<Token>)
    requires (forall w :: w in ws ==> WireOk(w)) && DimensionsOk(ReceivedAll(ws))
    ensures |ws| <= MAX_DIMENSIONS && (forall w :: w in ws ==> Fits(w)) ==>
              ReadSlices([ArrayT(|ws|)] + (WiresTokens(ws) + rest)) == Ok(Combine(ReceivedAll(ws)), rest)
    ensures |ws| > MAX_DIMENSIONS || (ws != [] && !Fits(ws[0])) ==>
              ReadSlices([ArrayT(|ws|)] + (WiresTokens(ws) + rest)) == Failed
  {
    ReadHeader(|ws|, WiresTokens(ws) + rest);
    if forall w :: w in ws ==> Fits(w) {
      ReadWiresBack(ws, rest);
    } else if ws != [] && !Fits(ws[0]) {
      FirstTooLong(ws, rest);
    }
  }

  lemma AllFit(s: Slices)
    requires WellShaped(s)
    ensures if s.rank == 0 || s.nrSlices <= MAX_SLICES then forall w :: w in Wires(s) ==> Fits(w)
            else !Fits(Wires(s)[0])
  {}

  /** The limits decide whether a packed list can be read at all. */
  lemma ReadBack(s: Slices, rest: seq<Token>)
    requires WellShaped(s)
    ensures DimensionsOk(Sent(s))
    ensures Readable(s) ==> ReadSlices(PackTokens(s) + rest) == Ok(Combine(Sent(s)), rest)
    ensures !Readable(s) ==> ReadSlices(PackTokens(s) + rest) == Failed
  {
    var ws := Wires(s);
    SentOk(s);
    AllFit(s);
    ReadWires(ws, rest);
    Associate([ArrayT(s.rank)], WiresTokens(ws), rest);
  }

  lemma ReadHeader(n: nat, body: seq<Token>)
    ensures n > MAX_DIMENSIONS || ReadDimensions(n, body).Failed? ==> ReadSlices([ArrayT(n)] + body) == Failed
    ensures n <= MAX_DIMENSIONS && ReadDimensions(n, body).Ok? && DimensionsOk(ReadDimensions(n, body).value) ==>
              ReadSlices([ArrayT(n)] + body) == Ok(Combine(ReadDimensions(n, body).value), ReadDimensions(n, body).rest)
  {
    assert ([ArrayT(n)] + body)[1..] == body;
  }

  // ---------- when the list comes back unchanged ----------

  /** All slices have the starts and counts of the first one beyond the first dimension. */
  ghost predicate Agree(s: Slices)
    requires WellShaped(s)
  {
    forall k, d :: 0 <= k < s.nrSlices && 1 <= d < s.rank ==>
      && At(s.starts, s.nrSlices, s.rank, k, d) == At(s.starts, s.nrSlices, s.rank, 0, d)
      && At(s.counts, s.nrSlices, s.rank, k, d) == At(s.counts, s.nrSlices, s.rank, 0, d)
  }

  ghost predicate RowsOf(rows: seq<seq<int>>, n: nat, rank: nat) {
    |rows| == n && forall k :: 0 <= k < n ==> |rows[k]| == rank
  }

  lemma FlattenLast(rows: seq<seq<int>>)
    requires rows != []
    ensures Flatten(rows) == Flatten(rows[..|rows| - 1]) + rows[|rows| - 1]
  {
    FlattenAppend(rows[..|rows| - 1], rows[|rows| - 1]);
    assert rows[..|rows| - 1] + [rows[|rows| - 1]] == rows;
  }

  lemma {:induction false} FlattenAt(rows: seq<seq<int>>, n: nat, rank: nat)
    requires RowsOf(rows, n, rank)
    ensures |Flatten(rows)| == n * rank
    ensures forall k, d :: 0 <= k < n && 0 <= d < rank ==> At(Flatten(rows), n, rank, k, d) == rows[k][d]
  {
    if n > 0 {
      FlattenAt(rows[..n - 1], n - 1, rank);
      var before := Flatten(rows[..n - 1]);
      FlattenLast(rows);
      assert |Flatten(rows)| == |before| + rank == n * rank;
      forall k, d | 0 <= k < n && 0 <= d < rank ensures At(Flatten(rows), n, rank, k, d) == rows[k][d] {
        if k < n - 1 {
          IndexOk(k, d, n - 1, rank);
          assert At(before, n - 1, rank, k, d) == rows[..n - 1][k][d];
        }
      }
    }
  }

  /** Two lists with the same entries in all slices and dimensions are equal. */
  lemma SameEntries(xs: seq<int>, ys: seq<int>, n: nat, rank: nat)
    requires |xs| == |ys| == n * rank
    requires forall k, d :: 0 <= k < n && 0 <= d < rank ==> At(xs, n, rank, k, d) == At(ys, n, rank, k, d)
    ensures xs == ys
  {
    forall o | 0 <= o < n * rank ensures xs[o] == ys[o] {
      RowAndColumn(o, n, rank);
      assert At(xs, n, rank, o / rank, o % rank) == At(ys, n, rank, o / rank, o % rank);
    }
  }

  lemma RowAndColumn(o: nat, n: nat, rank: nat)
    requires o < n * rank
    ensures rank > 0 && o / rank < n && 0 <= o % rank < rank && (o / rank) * rank + o % rank == o
  {
    if o / rank >= n { MulLe(n, o / rank, rank); }
  }

  /** The entries of what is read back: those of the first slice beyond the first dimension. */
  lemma CombinedAt(s: Slices)
    requires WellShaped(s) && s.rank > 0
    ensures DimensionsOk(Sent(s)) && Combine(Sent(s)).nrSlices == s.nrSlices && Combine(Sent(s)).rank == s.rank
    ensures WellShaped(Combine(Sent(s)))
    ensures forall k, d :: 0 <= k < s.nrSlices && 0 <= d < s.rank ==>
              && At(Combine(Sent(s)).starts, s.nrSlices, s.rank, k, d)
                 == At(s.starts, s.nrSlices, s.rank, if d == 0 then k else 0, d)
              && At(Combine(Sent(s)).counts, s.nrSlices, s.rank, k, d)
                 == At(s.counts, s.nrSlices, s.rank, if d == 0 then k else 0, d)
  {
    var ds := Sent(s);
    var starts, counts := StartRows(ds), CountRows(ds);
    FlattenAt(starts, s.nrSlices, s.rank);
    FlattenAt(counts, s.nrSlices, s.rank);
    var column := Column(s.counts, s.nrSlices, s.rank, 0);
    forall k, d | 0 <= k < s.nrSlices && 0 <= d < s.rank
      ensures starts[k][d] == At(s.starts, s.nrSlices, s.rank, if d == 0 then k else 0, d)
      ensures counts[k][d] == At(s.counts, s.nrSlices, s.rank, if d == 0 then k else 0, d) {
      assert ds[d] == Received(WireOf(s, d));
      assert AllEqual(column) ==> column[k] == column[0];
    }
  }

  lemma CombinedIsSame(s: Slices)
    requires WellShaped(s) && s.rank > 0 && DimensionsOk(Sent(s))
    ensures Combine(Sent(s)) == s <==> Agree(s)
  {
    var c := Combine(Sent(s));
    CombinedAt(s);
    if Agree(s) {
      SameEntries(c.starts, s.starts, s.nrSlices, s.rank);
      SameEntries(c.counts, s.counts, s.nrSlices, s.rank);
    }
  }

  lemma CombinedScalar(s: Slices)
    requires WellShaped(s) && s.rank == 0 && DimensionsOk(Sent(s))
    ensures Combine(Sent(s)) == s <==> s.nrSlices == 1
  {
    assert Sent(s) == [];
    assert StartRows([]) == [[]] && CountRows([]) == [[]];
    var none: seq<seq<int>> := [[]];
    FlattenLast(none);
  }

  /** When a packed list comes back: within the limits, and alike beyond the first dimension. */
  ghost predicate Packable(s: Slices)
    requires WellShaped(s)
  {
    Readable(s) && if s.rank == 0 then s.nrSlices == 1 else Agree(s)
  }

  /**
   A packed list comes back unchanged exactly if it is within the limits and its slices agree beyond
   the first dimension; a list of scalars only if there is one of them.
   */
  lemma RoundTripIff(s: Slices, rest: seq<Token>)
    requires WellShaped(s)
    ensures ReadSlices(PackTokens(s) + rest) == Ok(s, rest) <==> Packable(s)
  {
    ReadBack(s, rest);
    if s.rank > 0 { CombinedIsSame(s); } else { CombinedScalar(s); }
  }

  lemma {:induction false} WiresTokensJoin(a: seq<Wire>, w: Wire)
    requires (forall v :: v in a ==> WireOk(v)) && WireOk(w)
    ensures forall v :: v in a + [w] ==> WireOk(v)
    ensures WiresTokens(a + [w]) == WiresTokens(a) + WireTokens(w)
  {
    if a == [] {
      assert WiresTokens([w]) == WireTokens(w) + WiresTokens([]);
      assert a + [w] == [w];
    } else {
      assert (a + [w])[1..] == a[1..] + [w];
      WiresTokensJoin(a[1..], w);
    }
  }

  lemma WiresTokensNext(ws: seq<Wire>, d: nat)
    requires (forall v :: v in ws ==> WireOk(v)) && d < |ws|
    ensures forall v :: v in ws[..d + 1] ==> WireOk(v)
    ensures WiresTokens(ws[..d + 1]) == WiresTokens(ws[..d]) + WireTokens(ws[d])
  {
    assert ws[..d + 1] == ws[..d] + [ws[d]];
    WiresTokensJoin(ws[..d], ws[d]);
  }
}
