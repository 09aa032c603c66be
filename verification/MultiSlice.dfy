/**
 Reading several slices of a dataset, one buffer at a time (src/hdf5/multislice.c). Slices may only
 differ in the first dimension, so the cursor walks over rows: positions in that dimension.
 */
module MultiSlice {
  import opened Basics
  import opened Words
  import opened Selection

  const MAX_DIMS: nat := 32
  const MAX_SLICES: nat := 16777216
  const MAX_SELECTIONS_PER_BUFFER: nat := 10 * 1024

  /** One slice: the start and count in each dimension. */
  datatype Slice = Slice(start: seq<nat>, count: seq<nat>)

  /** The rows of a list of slices, in list order. */
  function Rows(slices: seq<Slice>): seq<nat>
    requires forall s :: s in slices ==> |s.start| == |s.count| > 0
  {
    if slices == [] then [] else Range(slices[0].start[0], slices[0].count[0]) + Rows(slices[1..])
  }

  function TotalRows(slices: seq<Slice>): nat
    requires forall s :: s in slices ==> |s.start| == |s.count| > 0
  {
    if slices == [] then 0 else slices[0].count[0] + TotalRows(slices[1..])
  }

  predicate ShapeOk(rank: nat, slices: seq<Slice>) {
    forall s :: s in slices ==> |s.start| == |s.count| == rank
  }

  // ---------- validation ----------

  predicate WithinDims(s: Slice, dims: seq<nat>)
    requires |s.start| == |s.count| == |dims|
  {
    forall d :: 0 <= d < |dims| ==> AddU64(s.start[d], s.count[d]) <= dims[d]
  }

  predicate Follows(s: Slice, t: Slice)
    requires |s.start| == |s.count| == |t.start| == |t.count| > 0
  {
    && t.start[0] >= s.start[0]
    && AddU64(s.start[0], s.count[0]) <= t.start[0]
    && forall d :: 1 <= d < |s.start| ==> s.start[d] == t.start[d] && s.count[d] == t.count[d]
  }

  /** All slices lie within the dataset, in ascending order and without overlap. */
  predicate Laid(slices: seq<Slice>, dims: seq<nat>)
    requires ShapeOk(|dims|, slices) && |dims| > 0
  {
    && (forall k :: 0 <= k < |slices| ==> WithinDims(slices[k], dims))
    && (forall k :: 0 < k < |slices| ==> Follows(slices[k - 1], slices[k]))
  }

  /** What multislice_init checks. A scalar (rank 0) has nothing to check but the number of slices. */
  predicate Accepted(rank: nat, slices: seq<Slice>, dims: seq<nat>)
    requires ShapeOk(rank, slices) && |dims| == rank
  {
    && rank <= MAX_DIMS
    && 1 <= |slices| <= MAX_SLICES
    && (rank > 0 ==> Laid(slices, dims))
  }

  /** Starts and counts fit in a signed 64 bit integer, as the Java layer makes sure. */
  predicate Signed(slices: seq<Slice>) {
    forall s :: s in slices ==>
      && (forall d :: 0 <= d < |s.start| ==> s.start[d] < U64 / 2)
      && (forall d :: 0 <= d < |s.count| ==> s.count[d] < U64 / 2)
  }

  ghost predicate InBounds(slices: seq<Slice>, dims: seq<nat>)
    requires ShapeOk(|dims|, slices)
  {
    forall k, d :: 0 <= k < |slices| && 0 <= d < |dims| ==> slices[k].start[d] + slices[k].count[d] <= dims[d]
  }

  ghost predicate NoWrap(slices: seq<Slice>, dims: seq<nat>)
    requires ShapeOk(|dims|, slices)
  {
    forall k, d :: 0 <= k < |slices| && 0 <= d < |dims| ==> slices[k].start[d] + slices[k].count[d] < U64
  }

  /** An accepted list lies within the dataset exactly if no start plus count wraps around. */
  lemma AcceptedInBoundsIff(rank: nat, slices: seq<Slice>, dims: seq<nat>)
    requires ShapeOk(rank, slices) && |dims| == rank > 0 && Accepted(rank, slices, dims)
    requires forall d :: 0 <= d < rank ==> dims[d] < U64
    ensures InBounds(slices, dims) <==> NoWrap(slices, dims)
  {
    if NoWrap(slices, dims) {
      forall k, d | 0 <= k < |slices| && 0 <= d < |dims|
        ensures slices[k].start[d] + slices[k].count[d] <= dims[d] {
        assert WithinDims(slices[k], dims);
      }
    }
  }

  /** Without the bound of the Java layer, a slice far outside the dataset can be accepted. */
  lemma WrappingSliceAccepted()
    ensures var s := [Slice([U64 - 1], [2])];
            ShapeOk(1, s) && Accepted(1, s, [10]) && !InBounds(s, [10])
  {
    var s := [Slice([U64 - 1], [2])];
    assert AddU64(s[0].start[0], s[0].count[0]) == 1;
    assert WithinDims(s[0], [10]);
    assert s[0].start[0] + s[0].count[0] > [10][0];
  }

  lemma SignedNoWrap(rank: nat, slices: seq<Slice>, dims: seq<nat>)
    requires ShapeOk(rank, slices) && |dims| == rank > 0 && Signed(slices)
    ensures NoWrap(slices, dims)
  {
    forall k, d | 0 <= k < |slices| && 0 <= d < |dims|
      ensures slices[k].start[d] + slices[k].count[d] < U64 {
      assert slices[k] in slices;
    }
  }

  // ---------- the rows of an accepted list ----------

  lemma AscendingJoin(a: seq<nat>, b: seq<nat>, bound: nat)
    requires Ascending(a) && Ascending(b)
    requires forall r :: r in a ==> r < bound
    requires forall r :: r in b ==> bound <= r
    ensures Ascending(a + b)
  {
    forall i, j | 0 <= i < j < |a + b| ensures (a + b)[i] < (a + b)[j] {
      if i < |a| && |a| <= j {
        assert a[i] in a && b[j - |a|] in b;
      }
    }
  }

  lemma {:induction false} RowsAscend(rank: nat, slices: seq<Slice>, dims: seq<nat>)
    requires ShapeOk(rank, slices) && |dims| == rank > 0 && Signed(slices)
    requires Laid(slices, dims)
    ensures Ascending(Rows(slices)) && |Rows(slices)| == TotalRows(slices)
    ensures forall r :: r in Rows(slices) ==> slices[0].start[0] <= r < dims[0]
    ensures slices != [] ==> slices[0].start[0] + TotalRows(slices) <= dims[0]
  {
    if slices != [] {
      var s, rest := slices[0], slices[1..];
      assert s in slices && WithinDims(s, dims);
      var bound := s.start[0] + s.count[0];
      assert bound <= dims[0];
      assert forall k :: 0 <= k < |rest| ==> rest[k] == slices[k + 1];
      assert forall k :: 0 < k < |rest| ==> rest[k - 1] == slices[k];
      RowsAscend(rank, rest, dims);
      assert rest != [] ==> Follows(slices[0], slices[1]);
      assert forall r :: r in Rows(rest) ==> bound <= r;
      AscendingJoin(Range(s.start[0], s.count[0]), Rows(rest), bound);
    }
  }

  /**
   Because the list is ascending, without overlap and within the dataset, its rows are in
   increasing order, each occurs once, and there are no more of them than the dataset has.
   */
  lemma AcceptedRows(rank: nat, slices: seq<Slice>, dims: seq<nat>)
    requires ShapeOk(rank, slices) && |dims| == rank > 0 && Signed(slices) && Accepted(rank, slices, dims)
    ensures Ascending(Rows(slices)) && |Rows(slices)| == TotalRows(slices) <= dims[0]
    ensures forall r :: r in Rows(slices) ==> r < dims[0]
  {
    RowsAscend(rank, slices, dims);
  }

  // ---------- which lists are accepted ----------

  /** All slices agree beyond the first dimension. */
  ghost predicate Agree(rank: nat, slices: seq<Slice>)
    requires ShapeOk(rank, slices)
  {
    forall i, j, d :: 0 <= i < |slices| && 0 <= j < |slices| && 1 <= d < rank ==>
      slices[i].start[d] == slices[j].start[d] && slices[i].count[d] == slices[j].count[d]
  }

  /** Each slice ends, in the first dimension, where or before any later one starts. */
  ghost predicate Ordered(slices: seq<Slice>)
    requires forall s :: s in slices ==> |s.start| == |s.count| > 0
  {
    forall i, j :: 0 <= i < j < |slices| ==> slices[i].start[0] + slices[i].count[0] <= slices[j].start[0]
  }

  /** t comes after s in the first dimension, and agrees with it in the others. */
  ghost predicate Comes(rank: nat, s: Slice, t: Slice)
    requires |s.start| == |s.count| == |t.start| == |t.count| == rank > 0
  {
    && s.start[0] + s.count[0] <= t.start[0]
    && forall d :: 1 <= d < rank ==> s.start[d] == t.start[d] && s.count[d] == t.count[d]
  }

  ghost predicate Chain(rank: nat, slices: seq<Slice>)
    requires ShapeOk(rank, slices) && rank > 0
  {
    forall k :: 0 < k < |slices| ==> Comes(rank, slices[k - 1], slices[k])
  }

  lemma {:induction false} NextIsEnough(rank: nat, slices: seq<Slice>, i: nat, j: nat)
    requires ShapeOk(rank, slices) && rank > 0 && Chain(rank, slices) && i < j < |slices|
    ensures Comes(rank, slices[i], slices[j])
  {
    assert Comes(rank, slices[j - 1], slices[j]);
    if i < j - 1 { NextIsEnough(rank, slices, i, j - 1); }
  }

  lemma ChainIff(rank: nat, slices: seq<Slice>)
    requires ShapeOk(rank, slices) && rank > 0
    ensures Chain(rank, slices) <==> Agree(rank, slices) && Ordered(slices)
  {
    if Chain(rank, slices) {
      forall i, j | 0 <= i < j < |slices| ensures Comes(rank, slices[i], slices[j]) {
        NextIsEnough(rank, slices, i, j);
      }
    }
  }

  lemma LaidIff(rank: nat, slices: seq<Slice>, dims: seq<nat>)
    requires ShapeOk(rank, slices) && |dims| == rank > 0 && Signed(slices)
    ensures Laid(slices, dims) <==> InBounds(slices, dims) && Agree(rank, slices) && Ordered(slices)
  {
    SignedNoWrap(rank, slices, dims);
    assert (forall k :: 0 <= k < |slices| ==> WithinDims(slices[k], dims)) <==> InBounds(slices, dims);
    forall k | 0 < k < |slices| ensures Follows(slices[k - 1], slices[k]) <==> Comes(rank, slices[k - 1], slices[k]) {
      assert slices[k - 1] in slices;
    }
    ChainIff(rank, slices);
  }

  /**
   Below the bound of the Java layer a list is accepted if and only if there are at most 32 dimensions
   and between one and 16777216 slices, all slices lie within the dataset, they agree beyond the first
   dimension, and each ends there where or before any later one starts. Adjacent slices are accepted.
   */
  lemma AcceptedIff(rank: nat, slices: seq<Slice>, dims: seq<nat>)
    requires ShapeOk(rank, slices) && |dims| == rank && Signed(slices)
    ensures Accepted(rank, slices, dims) <==>
            && rank <= 32 && 1 <= |slices| <= 16777216
            && InBounds(slices, dims) && Agree(rank, slices) && (rank > 0 ==> Ordered(slices))
  {
    if rank > 0 { LaidIff(rank, slices, dims); }
  }

  lemma {:induction false} AscendingIsOrdered(slices: seq<Slice>, i: nat, j: nat)
    requires forall s :: s in slices ==> |s.start| == |s.count| > 0 && s.count[0] > 0
    requires Ascending(Rows(slices)) && i < j < |slices|
    ensures slices[i].start[0] + slices[i].count[0] <= slices[j].start[0]
  {
    var s, rest := slices[0], slices[1..];
    var c, rows := s.count[0], Rows(slices);
    assert forall t :: t in rest ==> t in slices;
    assert rows[c..] == Rows(rest);
    if i > 0 {
      AscendingIsOrdered(rest, i - 1, j - 1);
    } else {
      StartIsRow(rest, j - 1);
      var k :| 0 <= k < |Rows(rest)| && Rows(rest)[k] == slices[j].start[0];
      assert rows[c - 1] == s.start[0] + c - 1 && rows[c + k] == slices[j].start[0];
    }
  }

  lemma {:induction false} StartIsRow(slices: seq<Slice>, j: nat)
    requires forall s :: s in slices ==> |s.start| == |s.count| > 0 && s.count[0] > 0
    requires j < |slices|
    ensures slices[j].start[0] in Rows(slices)
  {
    if j > 0 {
      assert forall t :: t in slices[1..] ==> t in slices;
      StartIsRow(slices[1..], j - 1);
    } else {
      assert Rows(slices)[0] == slices[0].start[0];
    }
  }

  /** If no slice is empty in the first dimension, the order is that the rows of all slices are strictly ascending. */
  lemma AcceptedRowsIff(rank: nat, slices: seq<Slice>, dims: seq<nat>)
    requires ShapeOk(rank, slices) && |dims| == rank > 0 && Signed(slices)
    requires forall s :: s in slices ==> s.count[0] > 0
    ensures Accepted(rank, slices, dims) <==>
            && rank <= 32 && 1 <= |slices| <= 16777216
            && InBounds(slices, dims) && Agree(rank, slices) && Ascending(Rows(slices))
  {
    AcceptedIff(rank, slices, dims);
    if Accepted(rank, slices, dims) {
      AcceptedRows(rank, slices, dims);
    } else if Ascending(Rows(slices)) {
      forall i, j | 0 <= i < j < |slices| ensures slices[i].start[0] + slices[i].count[0] <= slices[j].start[0] {
        AscendingIsOrdered(slices, i, j);
      }
    }
  }

  /** An empty slice in the wrong place is refused, although the rows of the list ascend. */
  lemma EmptySliceOutOfOrder()
    ensures var slices := [Slice([5], [0]), Slice([0], [3])];
            && ShapeOk(1, slices) && Signed(slices) && Rows(slices) == [0, 1, 2] && InBounds(slices, [10])
            && !Accepted(1, slices, [10])
  {
    var slices := [Slice([5], [0]), Slice([0], [3])];
    assert Rows(slices) == Range(5, 0) + Rows(slices[1..]) && Rows(slices[1..]) == Range(0, 3) + Rows(slices[2..]);
    assert !Follows(slices[0], slices[1]);
  }

  // ---------- the cursor ----------

  /** The rows from position `offset` of slice k to the end of the list. */
  function RowsFrom(slices: seq<Slice>, k: nat, offset: nat): seq<nat>
    requires forall s :: s in slices ==> |s.start| == |s.count| > 0
    requires k <= |slices| && (k < |slices| ==> offset <= slices[k].count[0])
  {
    if k == |slices| then []
    else Range(slices[k].start[0] + offset, slices[k].count[0] - offset) + Rows(slices[k + 1..])
  }

  lemma RowsFromStart(slices: seq<Slice>)
    requires forall s :: s in slices ==> |s.start| == |s.count| > 0
    ensures RowsFrom(slices, 0, 0) == Rows(slices)
  {}

  /** Reading part of a slice, or all that is left of it, takes that many rows from the front. */
  lemma RowsFromStep(slices: seq<Slice>, k: nat, offset: nat, n: nat, k': nat, offset': nat)
    requires forall s :: s in slices ==> |s.start| == |s.count| > 0
    requires k < |slices| && offset + n <= slices[k].count[0]
    requires if offset + n == slices[k].count[0] then k' == k + 1 && offset' == 0 else k' == k && offset' == offset + n
    ensures RowsFrom(slices, k, offset) == Range(slices[k].start[0] + offset, n) + RowsFrom(slices, k', offset')
  {
    var a, c := slices[k].start[0], slices[k].count[0];
    assert Range(a + offset, c - offset) == Range(a + offset, n) + Range(a + offset + n, c - offset - n);
    if k' == k + 1 < |slices| {
      assert slices[k'..][1..] == slices[k' + 1..];
    }
  }

  // ---------- how the rows are divided into buffers ----------

  /** A slice, and how many of its rows have been read. */
  datatype Position = Position(slice: nat, offset: nat)

  ghost predicate Within(slices: seq<Slice>, p: Position) {
    && (forall s :: s in slices ==> |s.start| == |s.count| > 0)
    && p.slice <= |slices| && (p.slice < |slices| ==> p.offset <= slices[p.slice].count[0])
  }

  ghost function RowsAfter(slices: seq<Slice>, p: Position): seq<nat>
    requires Within(slices, p)
  {
    RowsFrom(slices, p.slice, p.offset)
  }

  /** The rows that are taken from the slice at p, if there is room for `left` rows. */
  ghost function RangeAt(slices: seq<Slice>, p: Position, left: nat): nat
    requires Within(slices, p) && p.slice < |slices|
  {
    Min(slices[p.slice].count[0] - p.offset, left)
  }

  /** The position after n rows of the slice at p. */
  ghost function Past(slices: seq<Slice>, p: Position, n: nat): (q: Position)
    requires Within(slices, p) && p.slice < |slices| && p.offset + n <= slices[p.slice].count[0]
    ensures Within(slices, q)
  {
    if p.offset + n == slices[p.slice].count[0] then Position(p.slice + 1, 0) else Position(p.slice, p.offset + n)
  }

  /** Where a buffer ends that has room for `left` more rows at p, and holds so many ranges already. */
  ghost function BufferEnd(slices: seq<Slice>, p: Position, left: nat, ranges: nat): (q: Position)
    requires Within(slices, p)
    ensures Within(slices, q)
    decreases |slices| - p.slice, left
  {
    if left == 0 || ranges >= MAX_SELECTIONS_PER_BUFFER || p.slice == |slices| then p
    else
      var n := RangeAt(slices, p, left);
      BufferEnd(slices, Past(slices, p, n), left - n, if n > 0 then ranges + 1 else ranges)
  }

  lemma OneRange(slices: seq<Slice>, p: Position, left: nat, ranges: nat)
    requires Within(slices, p) && p.slice < |slices| && left > 0 && ranges < MAX_SELECTIONS_PER_BUFFER
    ensures var n := RangeAt(slices, p, left);
            BufferEnd(slices, Past(slices, p, n), left - n, if n > 0 then ranges + 1 else ranges)
            == BufferEnd(slices, p, left, ranges)
  {}

  /** The position after one more read. */
  ghost function NextRead(slices: seq<Slice>, p: Position, perBuffer: nat): (q: Position)
    requires Within(slices, p)
    ensures Within(slices, q)
  {
    BufferEnd(slices, p, Min(perBuffer, |RowsAfter(slices, p)|), 0)
  }

  /** The position after so many reads. */
  ghost function PositionAfter(slices: seq<Slice>, perBuffer: nat, nrReads: nat): (p: Position)
    requires forall s :: s in slices ==> |s.start| == |s.count| > 0
    requires slices != []
    ensures Within(slices, p)
  {
    if nrReads == 0 then Position(0, 0) else NextRead(slices, PositionAfter(slices, perBuffer, nrReads - 1), perBuffer)
  }

  /** How many rows the first reads return together. */
  ghost function RowsRead(rank: nat, slices: seq<Slice>, perBuffer: nat, nrReads: nat): (n: nat)
    requires ShapeOk(rank, slices) && slices != []
    ensures n <= |Wanted(rank, slices)|
  {
    if Wanted(rank, slices) == [] then 0
    else if rank == 0 then Min(nrReads, 1)
    else
      var p := PositionAfter(slices, perBuffer, nrReads);
      RowsAtMost(slices, p);
      |Rows(slices)| - |RowsAfter(slices, p)|
  }

  lemma {:induction false} RowsAtMost(slices: seq<Slice>, p: Position)
    requires Within(slices, p)
    ensures |RowsAfter(slices, p)| <= |Rows(slices)|
  {
    if p.slice < |slices| {
      assert slices[0] in slices && slices[p.slice] in slices;
      if p.slice > 0 {
        assert slices[1..][p.slice - 1..] == slices[p.slice..];
        assert forall s :: s in slices[1..] ==> s in slices;
        RowsAtMost(slices[1..], Position(p.slice - 1, p.offset));
        assert slices[1..][p.slice - 1] == slices[p.slice] && slices[1..][p.slice..] == slices[p.slice + 1..];
      }
    }
  }

  /** Taking a range takes its rows off the front. */
  lemma PastRows(slices: seq<Slice>, p: Position, n: nat)
    requires Within(slices, p) && p.slice < |slices| && p.offset + n <= slices[p.slice].count[0]
    ensures |RowsAfter(slices, p)| == n + |RowsAfter(slices, Past(slices, p, n))|
  {
    var q := Past(slices, p, n);
    RowsFromStep(slices, p.slice, p.offset, n, q.slice, q.offset);
  }

  /** A buffer takes at most the rows there is room for, and at least one row if it can. */
  lemma {:induction false} BufferTakes(slices: seq<Slice>, p: Position, left: nat, ranges: nat)
    requires Within(slices, p) && left <= |RowsAfter(slices, p)|
    ensures var q := BufferEnd(slices, p, left, ranges);
            && |RowsAfter(slices, p)| - left <= |RowsAfter(slices, q)| <= |RowsAfter(slices, p)|
            && (left > 0 && ranges < MAX_SELECTIONS_PER_BUFFER ==> |RowsAfter(slices, q)| < |RowsAfter(slices, p)|)
    decreases |slices| - p.slice, left
  {
    if left > 0 && ranges < MAX_SELECTIONS_PER_BUFFER && p.slice < |slices| {
      var n := RangeAt(slices, p, left);
      PastRows(slices, p, n);
      BufferTakes(slices, Past(slices, p, n), left - n, if n > 0 then ranges + 1 else ranges);
    }
  }

  /** If the slices left are few enough, a buffer is filled, or everything is read. */
  lemma {:induction false} BufferFills(slices: seq<Slice>, p: Position, left: nat, ranges: nat)
    requires Within(slices, p) && left <= |RowsAfter(slices, p)|
    requires ranges + |slices| - p.slice <= MAX_SELECTIONS_PER_BUFFER
    ensures |RowsAfter(slices, BufferEnd(slices, p, left, ranges))| == |RowsAfter(slices, p)| - left
    decreases |slices| - p.slice, left
  {
    if left > 0 && ranges < MAX_SELECTIONS_PER_BUFFER && p.slice < |slices| {
      var n := RangeAt(slices, p, left);
      var q, ranges' := Past(slices, p, n), if n > 0 then ranges + 1 else ranges;
      PastRows(slices, p, n);
      OneRange(slices, p, left, ranges);
      if n < left {
        assert q.slice == p.slice + 1;
        BufferFills(slices, q, left - n, ranges');
      }
    }
  }

  lemma OneMoreRead(rank: nat, slices: seq<Slice>, perBuffer: nat, nrReads: nat)
    requires ShapeOk(rank, slices) && slices != [] && rank > 0 && Wanted(rank, slices) != [] && perBuffer > 0
    ensures var rest := |Wanted(rank, slices)| - RowsRead(rank, slices, perBuffer, nrReads);
            var more := RowsRead(rank, slices, perBuffer, nrReads + 1) - RowsRead(rank, slices, perBuffer, nrReads);
            && 0 <= more <= rest && more <= perBuffer && (rest > 0 ==> more >= 1)
            && (|slices| <= MAX_SELECTIONS_PER_BUFFER ==> more == Min(perBuffer, rest))
  {
    var p := PositionAfter(slices, perBuffer, nrReads);
    BufferTakes(slices, p, Min(perBuffer, |RowsAfter(slices, p)|), 0);
    RowsAtMost(slices, p);
    RowsAtMost(slices, NextRead(slices, p, perBuffer));
    if |slices| <= MAX_SELECTIONS_PER_BUFFER { BufferFills(slices, p, Min(perBuffer, |RowsAfter(slices, p)|), 0); }
  }

  lemma NoReads(rank: nat, slices: seq<Slice>, perBuffer: nat)
    requires ShapeOk(rank, slices) && slices != []
    ensures RowsRead(rank, slices, perBuffer, 0) == 0
  {
    if rank > 0 { RowsFromStart(slices); }
  }

  /** From k to k + 1, f grows by at most b, not beyond the total, and by at least one below it. */
  ghost predicate Grows(f: nat -> nat, total: nat, b: nat, k: nat) {
    f(k) <= f(k + 1) <= f(k) + b && f(k + 1) <= total && (f(k) < total ==> f(k) < f(k + 1))
  }

  ghost predicate GrowsFully(f: nat -> nat, total: nat, b: nat, k: nat) {
    f(k + 1) == f(k) + Min(b, if f(k) < total then total - f(k) else 0)
  }

  lemma {:induction false} GrowsWithin(f: nat -> nat, total: nat, b: nat, k: nat)
    requires f(0) == 0 && forall i :: Grows(f, total, b, i)
    ensures f(k) <= total && f(k) <= k * b && (k <= f(k) || f(k) == total)
  {
    if k > 0 {
      GrowsWithin(f, total, b, k - 1);
      assert Grows(f, total, b, k - 1);
      Times(k, b);
    }
  }

  lemma {:induction false} GrowsExactly(f: nat -> nat, total: nat, b: nat, k: nat)
    requires f(0) == 0 && forall i :: GrowsFully(f, total, b, i)
    ensures f(k) == if k * b <= total then k * b else total
  {
    if k > 0 {
      GrowsExactly(f, total, b, k - 1);
      assert GrowsFully(f, total, b, k - 1);
      Times(k, b);
    }
  }

  lemma Times(i: nat, b: nat)
    requires i > 0
    ensures i * b == (i - 1) * b + b
  {}

  /** Every read returns at least one row as long as there are any, and at most a buffer full. */
  lemma ReadsBounded(rank: nat, slices: seq<Slice>, perBuffer: nat, nrReads: nat)
    requires ShapeOk(rank, slices) && slices != [] && rank > 0 && Wanted(rank, slices) != [] && perBuffer > 0
    ensures var n := RowsRead(rank, slices, perBuffer, nrReads);
            n <= |Wanted(rank, slices)| && n <= nrReads * perBuffer && (nrReads <= n || n == |Wanted(rank, slices)|)
  {
    var f, total := (i: nat) => RowsRead(rank, slices, perBuffer, i), |Wanted(rank, slices)|;
    forall i ensures Grows(f, total, perBuffer, i) {
      OneMoreRead(rank, slices, perBuffer, i);
    }
    NoReads(rank, slices, perBuffer);
    GrowsWithin(f, total, perBuffer, nrReads);
  }

  /** Once all rows have been read, they stay read. */
  lemma {:induction false} AllStayRead(rank: nat, slices: seq<Slice>, perBuffer: nat, i: nat, j: nat)
    requires ShapeOk(rank, slices) && slices != [] && (rank > 0 && Wanted(rank, slices) != [] ==> perBuffer > 0)
    requires RowsRead(rank, slices, perBuffer, i) == |Wanted(rank, slices)| && i <= j
    ensures RowsRead(rank, slices, perBuffer, j) == |Wanted(rank, slices)|
    decreases j - i
  {
    if i < j && rank > 0 && Wanted(rank, slices) != [] {
      OneMoreRead(rank, slices, perBuffer, i);
      AllStayRead(rank, slices, perBuffer, i + 1, j);
    }
  }

  /** With no more slices than ranges in a buffer, every read but the last one fills the buffer. */
  lemma ReadsExact(rank: nat, slices: seq<Slice>, perBuffer: nat, nrReads: nat)
    requires ShapeOk(rank, slices) && 0 < |slices| <= MAX_SELECTIONS_PER_BUFFER
    requires rank > 0 && Wanted(rank, slices) != [] && perBuffer > 0
    ensures RowsRead(rank, slices, perBuffer, nrReads)
         == if nrReads * perBuffer <= |Wanted(rank, slices)| then nrReads * perBuffer else |Wanted(rank, slices)|
  {
    var f, total := (i: nat) => RowsRead(rank, slices, perBuffer, i), |Wanted(rank, slices)|;
    forall i ensures GrowsFully(f, total, perBuffer, i) {
      OneMoreRead(rank, slices, perBuffer, i);
    }
    NoReads(rank, slices, perBuffer);
    GrowsExactly(f, total, perBuffer, nrReads);
  }

  /** Some dimension of the result has size zero. */
  predicate AnyZero(sizes: seq<nat>) {
    exists d :: 0 <= d < |sizes| && sizes[d] == 0
  }

  /** The shape of the result: the rows of all slices, and the other counts of the first slice. */
  function Shape(rank: nat, slices: seq<Slice>): (shape: seq<nat>)
    requires ShapeOk(rank, slices) && (rank > 0 ==> slices != [])
    ensures |shape| == rank
  {
    if rank == 0 then [] else [TotalRows(slices)] + slices[0].count[1..]
  }

  class Cursor {
    var rank: nat
    var nrSlices: nat
    var slices: seq<Slice>
    var elementsPerBuffer: nat
    var elementsLeftTotal: nat
    var sliceNr: nat
    var offsetInSlice: nat
    const totalCount: array<nat>
    const start: array<nat>
    const count: array<nat>

    constructor ()
      ensures fresh(totalCount) && fresh(start) && fresh(count) && ArraysOk()
    {
      totalCount := new nat[MAX_DIMS];
      start := new nat[MAX_DIMS];
      count := new nat[MAX_DIMS];
    }

    ghost predicate ArraysOk() {
      && totalCount.Length == MAX_DIMS && start.Length == MAX_DIMS && count.Length == MAX_DIMS
      && totalCount != start && totalCount != count && start != count
    }

    ghost predicate PositionOk()
      reads this
    {
      && 0 < rank <= MAX_DIMS && nrSlices == |slices| && ShapeOk(rank, slices)
      && sliceNr <= nrSlices
      && (sliceNr < nrSlices ==> offsetInSlice <= slices[sliceNr].count[0])
    }

    /** The rows after the position, of which there are elementsLeftTotal unless the result is empty. */
    ghost function Left(): seq<nat>
      reads this
      requires PositionOk()
    {
      RowsFrom(slices, sliceNr, offsetInSlice)
    }

    ghost function At(): Position
      reads this
    {
      Position(sliceNr, offsetInSlice)
    }

    /** A buffer with room for `left` more rows, which holds so many ranges already, will end there. */
    ghost predicate EndsAt(left: nat, ranges: nat, end: Position)
      reads this
      requires PositionOk()
    {
      BufferEnd(slices, At(), left, ranges) == end
    }

    ghost predicate Valid()
      reads this
    {
      && ArraysOk()
      && if rank == 0 then nrSlices == 0 && elementsLeftTotal <= 1
         else PositionOk() && (elementsLeftTotal > 0 ==> elementsLeftTotal == |Left()|)
    }

    /** The rows not selected yet. A scalar counts as one row. */
    ghost function Remaining(): (r: seq<nat>)
      reads this
      requires Valid()
      ensures |r| == elementsLeftTotal
    {
      if elementsLeftTotal == 0 then []
      else if rank == 0 then [0]
      else Left()
    }

    /** The bounds and the order of the slices. */
    method CheckSlices(rank: nat, slices: seq<Slice>, dims: seq<nat>) returns (ok: bool)
      requires ShapeOk(rank, slices) && |dims| == rank > 0
      ensures ok <==> Laid(slices, dims)
    {
      var k := 0;
      while k < |slices|
        invariant 0 <= k <= |slices|
        invariant forall j :: 0 <= j < k ==> WithinDims(slices[j], dims)
        invariant forall j :: 0 < j < k ==> Follows(slices[j - 1], slices[j])
      {
        assert slices[k] in slices;
        var within := CheckBounds(rank, slices[k], dims);
        if !within { return false; }
        if k > 0 {
          var follows := CheckFollows(rank, slices[k - 1], slices[k]);
          if !follows { return false; }
        }
        k := k + 1;
      }
      return true;
    }

    method CheckBounds(rank: nat, s: Slice, dims: seq<nat>) returns (ok: bool)
      requires |s.start| == |s.count| == |dims| == rank
      ensures ok <==> WithinDims(s, dims)
    {
      var d := 0;
      while d < rank
        invariant 0 <= d <= rank
        invariant forall e :: 0 <= e < d ==> AddU64(s.start[e], s.count[e]) <= dims[e]
      {
        if AddU64(s.start[d], s.count[d]) > dims[d] { return false; }
        d := d + 1;
      }
      return true;
    }

    method CheckFollows(rank: nat, s: Slice, t: Slice) returns (ok: bool)
      requires |s.start| == |s.count| == |t.start| == |t.count| == rank > 0
      ensures ok <==> Follows(s, t)
    {
      if t.start[0] < s.start[0] { return false; }
      if AddU64(s.start[0], s.count[0]) > t.start[0] { return false; }
      var d := 1;
      while d < rank
        invariant 1 <= d <= rank
        invariant forall e :: 1 <= e < d ==> s.start[e] == t.start[e] && s.count[e] == t.count[e]
      {
        if s.start[d] != t.start[d] { return false; }
        if s.count[d] != t.count[d] { return false; }
        d := d + 1;
      }
      return true;
    }

    /** The rows of all slices together, as 64 bit sums. */
    method SumRows(rank: nat, slices: seq<Slice>) returns (total: nat)
      requires ShapeOk(rank, slices) && rank > 0
      ensures TotalRows(slices) < U64 ==> total == TotalRows(slices)
    {
      total := 0;
      var k := 0;
      while k < |slices|
        invariant 0 <= k <= |slices|
        invariant TotalRows(slices) < U64 ==> total + TotalRows(slices[k..]) == TotalRows(slices)
      {
        assert slices[k] in slices;
        assert slices[k..][1..] == slices[k + 1..];
        total := AddU64(total, slices[k].count[0]);
        k := k + 1;
      }
    }

    /** The sizes of the result and the fixed part of every selection, from the first slice. */
    method SetShape(rank: nat, slices: seq<Slice>)
      requires ArraysOk() && ShapeOk(rank, slices) && slices != [] && rank <= MAX_DIMS
      modifies totalCount, start, count
      ensures rank > 0 ==> start[1..rank] == slices[0].start[1..] && count[1..rank] == slices[0].count[1..]
      ensures rank == 0 || TotalRows(slices) < U64 ==> totalCount[..rank] == Shape(rank, slices)
    {
      assert slices[0] in slices;
      var i := 1;
      while i < rank
        invariant rank > 0 ==> 1 <= i <= rank
        invariant forall j :: 1 <= j < i && j < rank ==>
                    && totalCount[j] == slices[0].count[j]
                    && start[j] == slices[0].start[j] && count[j] == slices[0].count[j]
      {
        totalCount[i] := slices[0].count[i];
        start[i], count[i] := slices[0].start[i], slices[0].count[i];
        i := i + 1;
      }
      if rank > 0 {
        totalCount[0] := SumRows(rank, slices);
      }
    }

    /** If the size is zero in any dimension, there is nothing to read. */
    method ClearIfEmpty()
      requires ArraysOk() && rank <= MAX_DIMS
      modifies this`elementsLeftTotal
      ensures elementsLeftTotal == if AnyZero(totalCount[..rank]) then 0 else old(elementsLeftTotal)
    {
      var i := 0;
      while i < rank
        invariant 0 <= i <= rank
        invariant elementsLeftTotal == if AnyZero(totalCount[..i]) then 0 else old(elementsLeftTotal)
      {
        AnyZeroStep(totalCount[..i], totalCount[i]);
        assert totalCount[..i + 1] == totalCount[..i] + [totalCount[i]];
        if totalCount[i] == 0 { elementsLeftTotal := 0; }
        i := i + 1;
      }
    }

    /** multislice_init. It succeeds exactly on the accepted lists, and then all rows are still to come. */
    method Init(rank: nat, slices: seq<Slice>, elementsPerBuffer: nat, dims: seq<nat>) returns (ok: bool)
      requires ArraysOk() && ShapeOk(rank, slices) && |dims| == rank
      requires forall d :: 0 <= d < rank ==> dims[d] < U64
      modifies this, totalCount, start, count
      ensures ok <==> Accepted(rank, slices, dims)
      ensures ok ==> this.rank == rank && this.elementsPerBuffer == elementsPerBuffer
      ensures ok && rank > 0 ==> start[1..rank] == slices[0].start[1..] && count[1..rank] == slices[0].count[1..]
      ensures ok && Signed(slices) ==> totalCount[..rank] == Shape(rank, slices)
      ensures ok && Signed(slices) ==> Valid() && Remaining() == Wanted(rank, slices)
      ensures ok && rank > 0 ==> this.slices == slices && At() == Position(0, 0)
    {
      this.rank := rank;
      this.nrSlices := if rank > 0 then |slices| else 0;
      this.slices := slices;
      this.elementsPerBuffer := elementsPerBuffer;
      if rank > MAX_DIMS { return false; }
      if |slices| > MAX_SLICES { return false; }
      if |slices| < 1 { return false; }
      if rank > 0 {
        var good := CheckSlices(rank, slices, dims);
        if !good { return false; }
        if Signed(slices) { AcceptedRows(rank, slices, dims); }
      }
      SetShape(rank, slices);
      sliceNr, offsetInSlice := 0, 0;
      elementsLeftTotal := if rank > 0 then totalCount[0] else 1;
      ClearIfEmpty();
      if Signed(slices) { AllToCome(rank, slices, dims); }
      return true;
    }

    lemma AllToCome(rank: nat, slices: seq<Slice>, dims: seq<nat>)
      requires ArraysOk() && ShapeOk(rank, slices) && slices != [] && |dims| == rank <= MAX_DIMS && Signed(slices)
      requires this.rank == rank && this.slices == slices && nrSlices == (if rank > 0 then |slices| else 0)
      requires sliceNr == offsetInSlice == 0 && totalCount[..rank] == Shape(rank, slices)
      requires rank > 0 ==> |Rows(slices)| == TotalRows(slices)
      requires elementsLeftTotal
            == if AnyZero(Shape(rank, slices)) then 0 else if rank > 0 then TotalRows(slices) else 1
      ensures Valid() && Remaining() == Wanted(rank, slices)
    {
      if rank > 0 {
        assert slices[0] in slices;
        RowsFromStart(slices);
      }
    }

    // ---------- selecting the next buffer ----------

    /** The next part of the current slice that fits in the buffer; the position moves past it. */
    method Advance(leftInBuffer: nat) returns (row: nat, n: nat)
      requires PositionOk() && 0 < leftInBuffer <= elementsLeftTotal == |Left()|
      modifies this`sliceNr, this`offsetInSlice, this`elementsLeftTotal
      ensures PositionOk() && n <= leftInBuffer && elementsLeftTotal == old(elementsLeftTotal) - n
      ensures old(Left()) == Range(row, n) + Left()
      ensures sliceNr >= old(sliceNr) && (n == 0 ==> sliceNr > old(sliceNr))
      ensures old(sliceNr) < |slices| && n == RangeAt(slices, old(At()), leftInBuffer)
      ensures At() == Past(slices, old(At()), n)
    {
      assert sliceNr < nrSlices;
      assert slices[sliceNr] in slices;
      ghost var k, offset := sliceNr, offsetInSlice;
      var sliceStart, sliceCount := slices[sliceNr].start[0], slices[sliceNr].count[0];
      n := Min(sliceCount - offsetInSlice, leftInBuffer);
      row := sliceStart + offsetInSlice;
      offsetInSlice := offsetInSlice + n;
      if offsetInSlice >= sliceCount {
        offsetInSlice := 0;
        sliceNr := sliceNr + 1;
        assert sliceNr <= nrSlices;
      }
      RowsFromStep(slices, k, offset, n, sliceNr, offsetInSlice);
      assert |Range(row, n)| == n;
      elementsLeftTotal := elementsLeftTotal - n;
    }

    /** Stores one range after the others. */
    method Record(selectStart: array<nat>, selectCount: array<nat>, ranges: nat, row: nat, n: nat)
      requires ranges < selectStart.Length == selectCount.Length && selectStart != selectCount
      modifies selectStart, selectCount
      ensures RangeRows(selectStart[..ranges + 1], selectCount[..ranges + 1])
           == old(RangeRows(selectStart[..ranges], selectCount[..ranges])) + Range(row, n)
    {
      selectStart[ranges], selectCount[ranges] := row, n;
      assert selectStart[..ranges + 1][..ranges] == old(selectStart[..ranges]);
      assert selectCount[..ranges + 1][..ranges] == old(selectCount[..ranges]);
    }

    /** Takes the next part of a slice and stores it, unless it is empty. */
    method TakeRange(leftInBuffer: nat, selectStart: array<nat>, selectCount: array<nat>, ranges: nat)
      returns (ranges': nat, n: nat)
      requires PositionOk() && 0 < leftInBuffer <= elementsLeftTotal == |Left()|
      requires ranges < MAX_SELECTIONS_PER_BUFFER == selectStart.Length == selectCount.Length
               && selectStart != selectCount
      modifies this`sliceNr, this`offsetInSlice, this`elementsLeftTotal, selectStart, selectCount
      ensures PositionOk() && n <= leftInBuffer && elementsLeftTotal == old(elementsLeftTotal) - n == |Left()|
      ensures ranges' == if n > 0 then ranges + 1 else ranges
      ensures var taken := RangeRows(selectStart[..ranges'], selectCount[..ranges']);
              && |taken| == n + |old(RangeRows(selectStart[..ranges], selectCount[..ranges]))|
              && taken + Left() == old(RangeRows(selectStart[..ranges], selectCount[..ranges]) + Left())
      ensures sliceNr >= old(sliceNr) && (n == 0 ==> sliceNr > old(sliceNr))
      ensures old(sliceNr) < |slices| && n == RangeAt(slices, old(At()), leftInBuffer)
      ensures At() == Past(slices, old(At()), n)
    {
      ghost var rows, before := RangeRows(selectStart[..ranges], selectCount[..ranges]), Left();
      var row;
      row, n := Advance(leftInBuffer);
      ranges' := ranges;
      ghost var part, after := Range(row, n), Left();
      assert rows + before == (rows + part) + after;
      if n > 0 {
        Record(selectStart, selectCount, ranges, row, n);
        ranges' := ranges + 1;
      } else {
        assert rows + part == rows;
      }
    }

    /** `nr` rows have been collected from the front of `rows`; there is room for `left` more, up to `end`. */
    ghost predicate Gathered(selectStart: array<nat>, selectCount: array<nat>, ranges: nat, nr: nat, left: nat,
                             rows: seq<nat>, end: Position)
      reads this, selectStart, selectCount
      requires selectStart.Length == selectCount.Length == MAX_SELECTIONS_PER_BUFFER
    {
      && PositionOk() && left <= elementsLeftTotal == |Left()| && ranges <= MAX_SELECTIONS_PER_BUFFER && nr >= ranges
      && EndsAt(left, ranges, end)
      && |RangeRows(selectStart[..ranges], selectCount[..ranges])| == nr
      && RangeRows(selectStart[..ranges], selectCount[..ranges]) + Left() == rows
    }

    method GatherOne(selectStart: array<nat>, selectCount: array<nat>, ranges: nat, nr: nat, left: nat,
                     ghost rows: seq<nat>, ghost end: Position)
      returns (ranges': nat, nr': nat, left': nat)
      requires selectStart.Length == selectCount.Length == MAX_SELECTIONS_PER_BUFFER && selectStart != selectCount
      requires Gathered(selectStart, selectCount, ranges, nr, left, rows, end)
      requires left > 0 && ranges < MAX_SELECTIONS_PER_BUFFER
      modifies this`sliceNr, this`offsetInSlice, this`elementsLeftTotal, selectStart, selectCount
      ensures left' <= left && nr' + left' == nr + left
      ensures Gathered(selectStart, selectCount, ranges', nr', left', rows, end)
      ensures sliceNr >= old(sliceNr) && (left' == left ==> sliceNr > old(sliceNr))
    {
      ghost var p := At();
      var n;
      ranges', n := TakeRange(left, selectStart, selectCount, ranges);
      OneRange(slices, p, left, ranges);
      nr', left' := nr + n, left - n;
    }

    /** Collects ranges of rows until the buffer is full, all rows are read or there are too many ranges. */
    method Gather(selectStart: array<nat>, selectCount: array<nat>) returns (ranges: nat, nr: nat)
      requires PositionOk() && elementsLeftTotal == |Left()|
      requires selectStart.Length == selectCount.Length == MAX_SELECTIONS_PER_BUFFER && selectStart != selectCount
      modifies this`sliceNr, this`offsetInSlice, this`elementsLeftTotal, selectStart, selectCount
      ensures PositionOk() && elementsLeftTotal == |Left()| && ranges <= MAX_SELECTIONS_PER_BUFFER
      ensures nr <= Min(elementsPerBuffer, old(elementsLeftTotal))
      ensures nr == Min(elementsPerBuffer, old(elementsLeftTotal))
              || (ranges == MAX_SELECTIONS_PER_BUFFER && nr >= ranges)
      ensures |RangeRows(selectStart[..ranges], selectCount[..ranges])| == nr
      ensures RangeRows(selectStart[..ranges], selectCount[..ranges]) + Left() == old(Left())
      ensures At() == old(NextRead(slices, At(), elementsPerBuffer))
    {
      ranges, nr := 0, 0;
      var leftInBuffer: nat := Min(elementsPerBuffer, elementsLeftTotal);
      ghost var rows, end, most := Left(), NextRead(slices, At(), elementsPerBuffer), leftInBuffer;
      NothingGathered(selectStart, selectCount);
      while leftInBuffer > 0 && ranges < MAX_SELECTIONS_PER_BUFFER
        invariant nr + leftInBuffer == most
        invariant Gathered(selectStart, selectCount, ranges, nr, leftInBuffer, rows, end)
        decreases nrSlices - sliceNr, leftInBuffer
      {
        ranges, nr, leftInBuffer := GatherOne(selectStart, selectCount, ranges, nr, leftInBuffer, rows, end);
      }
      EndReached(selectStart, selectCount, ranges, nr, leftInBuffer, rows, end);
    }

    lemma NothingGathered(selectStart: array<nat>, selectCount: array<nat>)
      requires PositionOk() && elementsLeftTotal == |Left()|
      requires selectStart.Length == selectCount.Length == MAX_SELECTIONS_PER_BUFFER
      ensures Gathered(selectStart, selectCount, 0, 0, Min(elementsPerBuffer, elementsLeftTotal), Left(),
                       NextRead(slices, At(), elementsPerBuffer))
    {}

    lemma EndReached(selectStart: array<nat>, selectCount: array<nat>, ranges: nat, nr: nat, left: nat, rows: seq<nat>,
                     end: Position)
      requires selectStart.Length == selectCount.Length == MAX_SELECTIONS_PER_BUFFER
      requires Gathered(selectStart, selectCount, ranges, nr, left, rows, end)
      requires left == 0 || ranges == MAX_SELECTIONS_PER_BUFFER
      ensures PositionOk() && elementsLeftTotal == |Left()| && At() == end && nr >= ranges
      ensures |RangeRows(selectStart[..ranges], selectCount[..ranges])| == nr
      ensures RangeRows(selectStart[..ranges], selectCount[..ranges]) + Left() == rows
    {}

    /** The coordinates selected when these rows are read. */
    ghost function Selection(rows: seq<nat>): seq<Coord>
      reads this, start, count
      requires Valid()
    {
      if rank == 0 then (if rows == [] then [] else [[]]) else Stack(rows, Box(start[1..rank], count[1..rank]))
    }

    /**
     multislice_select_next_buffer_data: 1 if nothing is left, 0 after selecting the next rows, -1 on
     failure, which cannot happen while the rows are all different. Each call takes rows from the
     front of those remaining, as many as fit in the buffer unless the limit on the number of ranges
     comes first.
     */
    method SelectNextBufferData(space: Dataspace) returns (code: int, nr: nat)
      requires Valid() && |space.dims| == rank && Ascending(Remaining())
      modifies this`sliceNr, this`offsetInSlice, this`elementsLeftTotal, start, count, space
      ensures Valid() && start[1..] == old(start[1..]) && count[1..] == old(count[1..])
      ensures code == if old(Remaining()) == [] then 1 else 0
      ensures code == 0 ==> nr <= |old(Remaining())| && Remaining() == old(Remaining())[nr..]
      ensures code == 0 ==> space.selected == Elements(old(Selection(Remaining()[..nr])))
      ensures code == 0 && rank > 0 ==> nr <= elementsPerBuffer
      ensures code == 0 && elementsPerBuffer > 0 ==> nr > 0
      ensures code == 0 && rank > 0 && nr < elementsPerBuffer ==> Remaining() == [] || nr >= MAX_SELECTIONS_PER_BUFFER
      ensures code == 1 ==> Remaining() == []
      ensures code == 0 && rank > 0 ==>
                At() == old(NextRead(slices, At(), elementsPerBuffer)) && elementsLeftTotal == |Left()|
    {
      if elementsLeftTotal == 0 { return 1, 0; }
      if rank == 0 {
        space.selected := {[]};
        elementsLeftTotal := 0;
        assert nrSlices == 0;
        return 0, 1;
      }
      space.SelectNone();
      var selectStart := new nat[MAX_SELECTIONS_PER_BUFFER];
      var selectCount := new nat[MAX_SELECTIONS_PER_BUFFER];
      var ranges;
      ranges, nr := Gather(selectStart, selectCount);
      ghost var rows := RangeRows(selectStart[..ranges], selectCount[..ranges]);
      assert rows == old(Remaining())[..nr];
      AscendingDistinct(rows);
      UnionIsStack(selectStart[..ranges], selectCount[..ranges], Inner(space, start, count));
      var ok := SelectSlices(space, ranges, selectStart, selectCount, start, count);
      if !ok { return -1, nr; }
      code := 0;
    }
  }

  lemma AnyZeroStep(sizes: seq<nat>, n: nat)
    ensures AnyZero(sizes + [n]) <==> AnyZero(sizes) || n == 0
  {
    assert (sizes + [n])[|sizes|] == n;
    assert forall d :: 0 <= d < |sizes| ==> (sizes + [n])[d] == sizes[d];
  }

  /** The rows to read: none if some dimension of the result is empty. A scalar counts as one row. */
  function Wanted(rank: nat, slices: seq<Slice>): seq<nat>
    requires ShapeOk(rank, slices) && (rank > 0 ==> slices != [])
  {
    if rank == 0 then [0] else if AnyZero(Shape(rank, slices)) then [] else Rows(slices)
  }
}
