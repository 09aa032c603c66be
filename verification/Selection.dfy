/**
 Selecting rows of a dataset (src/hdf5/select.c). A selection is a set of coordinates, as
 H5Sselect_hyperslab and H5Scombine_select define it; reading takes the selected elements in
 row-major order.
 */
module Selection {
  import opened Basics
  import opened Words

  type Coord = seq<nat>

  /** The rows a, a + 1, ... of one range. */
  function Range(a: nat, n: nat): seq<nat> {
    seq(n, i requires 0 <= i < n => a + i)
  }

  ghost predicate Ascending(rows: seq<nat>) {
    forall i, j :: 0 <= i < j < |rows| ==> rows[i] < rows[j]
  }

  function Prefix(row: nat, inner: seq<Coord>): seq<Coord> {
    seq(|inner|, i requires 0 <= i < |inner| => [row] + inner[i])
  }

  /** The coordinates with each of the rows in turn and each of the inner coordinates. */
  function Stack(rows: seq<nat>, inner: seq<Coord>): seq<Coord> {
    if rows == [] then [] else Prefix(rows[0], inner) + Stack(rows[1..], inner)
  }

  /** The coordinates of a hyperslab in row-major order. */
  function Box(start: seq<nat>, count: seq<nat>): seq<Coord>
    requires |start| == |count|
  {
    if start == [] then [[]] else Stack(Range(start[0], count[0]), Box(start[1..], count[1..]))
  }

  function Product(s: seq<nat>): nat {
    if s == [] then 1 else s[0] * Product(s[1..])
  }

  function Sum(s: seq<nat>): nat {
    if s == [] then 0 else s[|s| - 1] + Sum(s[..|s| - 1])
  }

  function Elements<T(==)>(s: seq<T>): set<T> {
    set x | x in s
  }

  /** The rows of a number of ranges, one range after the other. */
  function RangeRows(starts: seq<nat>, counts: seq<nat>): seq<nat>
    requires |starts| == |counts|
  {
    if starts == [] then []
    else
      var k := |starts| - 1;
      RangeRows(starts[..k], counts[..k]) + Range(starts[k], counts[k])
  }

  /** The union of a number of hyperslabs that differ in the rows only. */
  function Union(starts: seq<nat>, counts: seq<nat>, inner: seq<Coord>): set<Coord>
    requires |starts| == |counts|
  {
    if starts == [] then {}
    else
      var k := |starts| - 1;
      Union(starts[..k], counts[..k], inner) + Elements(Stack(Range(starts[k], counts[k]), inner))
  }

  // ---------- row-major order ----------

  predicate LexLt(a: Coord, b: Coord) {
    |a| == |b| > 0 && (a[0] < b[0] || (a[0] == b[0] && LexLt(a[1..], b[1..])))
  }

  ghost predicate Sorted(s: seq<Coord>) {
    forall i, j :: 0 <= i < j < |s| ==> LexLt(s[i], s[j])
  }

  /** The selected coordinates in the order in which they are read: the dataset's, row by row. */
  function Keep(all: seq<Coord>, selected: set<Coord>): seq<Coord> {
    if all == [] then []
    else (if all[0] in selected then [all[0]] else []) + Keep(all[1..], selected)
  }

  function ReadOrder(dims: seq<nat>, selected: set<Coord>): seq<Coord> {
    Keep(Box(seq(|dims|, i => 0), dims), selected)
  }

  lemma {:induction false} LexNotBoth(a: Coord, b: Coord)
    ensures !(LexLt(a, b) && LexLt(b, a))
  {
    if |a| == |b| > 0 { LexNotBoth(a[1..], b[1..]); }
  }

  lemma {:induction false} InStack(rows: seq<nat>, inner: seq<Coord>, c: Coord)
    ensures c in Stack(rows, inner) <==> c != [] && c[0] in rows && c[1..] in inner
  {
    if rows != [] {
      InStack(rows[1..], inner, c);
      if c != [] && c[0] == rows[0] && c[1..] in inner {
        var i :| 0 <= i < |inner| && inner[i] == c[1..];
        assert c == [c[0]] + c[1..];
        assert Prefix(rows[0], inner)[i] == c;
      }
      if c in Prefix(rows[0], inner) {
        var i :| 0 <= i < |inner| && Prefix(rows[0], inner)[i] == c;
        assert c[1..] == inner[i];
      }
    }
  }

  lemma InRange(a: nat, n: nat, r: nat)
    ensures r in Range(a, n) <==> a <= r < a + n
  {
    assert a <= r < a + n ==> Range(a, n)[r - a] == r;
  }

  /** c is within the bounds of the hyperslab in every dimension. */
  ghost predicate Within(start: seq<nat>, count: seq<nat>, c: Coord)
    requires |start| == |count|
  {
    |c| == |start| && forall d :: 0 <= d < |start| ==> start[d] <= c[d] < start[d] + count[d]
  }

  lemma WithinStep(start: seq<nat>, count: seq<nat>, c: Coord)
    requires |start| == |count| > 0 && |c| > 0
    ensures Within(start, count, c) <==>
            start[0] <= c[0] < start[0] + count[0] && Within(start[1..], count[1..], c[1..])
  {
    if start[0] <= c[0] < start[0] + count[0] && Within(start[1..], count[1..], c[1..]) {
      forall d | 0 <= d < |start| ensures start[d] <= c[d] < start[d] + count[d] {
        if d > 0 { assert start[1..][d - 1] <= c[1..][d - 1] < start[1..][d - 1] + count[1..][d - 1]; }
      }
    }
  }

  /** A hyperslab is exactly the coordinates within its bounds. */
  lemma {:induction false} InBox(start: seq<nat>, count: seq<nat>, c: Coord)
    requires |start| == |count|
    ensures c in Box(start, count) <==> Within(start, count, c)
  {
    if start != [] {
      InStack(Range(start[0], count[0]), Box(start[1..], count[1..]), c);
      if c != [] {
        InRange(start[0], count[0], c[0]);
        InBox(start[1..], count[1..], c[1..]);
        WithinStep(start, count, c);
      }
    }
  }

  lemma PrefixSorted(row: nat, inner: seq<Coord>)
    requires Sorted(inner)
    ensures Sorted(Prefix(row, inner))
  {
    var p := Prefix(row, inner);
    forall i, j | 0 <= i < j < |p| ensures LexLt(p[i], p[j]) {
      assert p[i][1..] == inner[i] && p[j][1..] == inner[j];
      assert LexLt(inner[i], inner[j]);
    }
  }

  lemma SortedJoin(a: seq<Coord>, b: seq<Coord>)
    requires Sorted(a) && Sorted(b)
    requires forall x, y :: x in a && y in b ==> LexLt(x, y)
    ensures Sorted(a + b)
  {
    forall i, j | 0 <= i < j < |a + b| ensures LexLt((a + b)[i], (a + b)[j]) {
      if i < |a| && |a| <= j {
        assert a[i] in a && b[j - |a|] in b;
      }
    }
  }

  lemma {:induction false} StackSorted(rows: seq<nat>, inner: seq<Coord>)
    requires Ascending(rows) && Sorted(inner)
    requires forall c, d :: c in inner && d in inner ==> |c| == |d|
    ensures Sorted(Stack(rows, inner))
  {
    if rows != [] {
      PrefixSorted(rows[0], inner);
      StackSorted(rows[1..], inner);
      forall x, y | x in Prefix(rows[0], inner) && y in Stack(rows[1..], inner) ensures LexLt(x, y) {
        InStack(rows[1..], inner, y);
        var k :| 0 <= k < |rows[1..]| && rows[1..][k] == y[0];
        assert rows[k + 1] == y[0];
        var i :| 0 <= i < |inner| && Prefix(rows[0], inner)[i] == x;
        assert x[1..] in inner;
      }
      SortedJoin(Prefix(rows[0], inner), Stack(rows[1..], inner));
    }
  }

  /** A hyperslab in row-major order: sorted, and as many coordinates as the counts multiply to. */
  lemma {:induction false} BoxSorted(start: seq<nat>, count: seq<nat>)
    requires |start| == |count|
    ensures Sorted(Box(start, count)) && |Box(start, count)| == Product(count)
    ensures forall c :: c in Box(start, count) ==> |c| == |start|
  {
    if start != [] {
      var rows, inner := Range(start[0], count[0]), Box(start[1..], count[1..]);
      BoxSorted(start[1..], count[1..]);
      StackSorted(rows, inner);
      StackLength(rows, inner);
      forall c | c in Box(start, count) ensures |c| == |start| { InBox(start, count, c); }
    }
  }

  lemma {:induction false} StackLength(rows: seq<nat>, inner: seq<Coord>)
    ensures |Stack(rows, inner)| == |rows| * |inner|
  {
    if rows != [] { StackLength(rows[1..], inner); }
  }

  lemma {:induction false} StackJoin(a: seq<nat>, b: seq<nat>, inner: seq<Coord>)
    ensures Stack(a + b, inner) == Stack(a, inner) + Stack(b, inner)
  {
    if a == [] {
      assert a + b == b;
    } else {
      assert (a + b)[1..] == a[1..] + b;
      StackJoin(a[1..], b, inner);
    }
  }

  lemma SomeMember<T>(s: seq<T>)
    ensures s == [] || exists x :: x in s
  {
    assert s == [] || s[0] in s;
  }

  /** A set of coordinates can be put in row-major order in one way only. */
  lemma {:induction false} SortedUnique(a: seq<Coord>, b: seq<Coord>)
    requires Sorted(a) && Sorted(b)
    requires forall c :: c in a <==> c in b
    ensures a == b
  {
    if a == [] {
      SomeMember(b);
    } else {
      assert a[0] in b;
      var i :| 0 <= i < |b| && b[i] == a[0];
      assert b[0] in a;
      var j :| 0 <= j < |a| && a[j] == b[0];
      LexNotBoth(a[0], b[0]);
      assert i == 0;
      assert a[0] == b[0];
      forall c ensures c in a[1..] <==> c in b[1..] {
        LexNotBoth(a[0], a[0]);
        assert a == [a[0]] + a[1..] && b == [b[0]] + b[1..];
        assert c in a[1..] ==> c != a[0] && c in b;
        assert c in b[1..] ==> c != b[0] && c in a;
      }
      SortedUnique(a[1..], b[1..]);
    }
  }

  lemma {:induction false} KeepSorted(all: seq<Coord>, selected: set<Coord>)
    requires Sorted(all)
    ensures Sorted(Keep(all, selected))
    ensures forall c :: c in Keep(all, selected) <==> c in all && c in selected
  {
    if all != [] {
      KeepSorted(all[1..], selected);
      var first := if all[0] in selected then [all[0]] else [];
      assert all == [all[0]] + all[1..];
      forall x, y | x in first && y in Keep(all[1..], selected) ensures LexLt(x, y) {
        var j :| 0 <= j < |all[1..]| && all[1..][j] == y;
        assert LexLt(all[0], all[j + 1]);
      }
      SortedJoin(first, Keep(all[1..], selected));
    }
  }

  /**
   Reading a selection of whole rows in row-major order gives these rows in list order, if the
   rows are listed in increasing order and the selection lies within the dataset.
   */
  lemma RowsReadInListOrder(dims: seq<nat>, rows: seq<nat>, start: seq<nat>, count: seq<nat>)
    requires |start| == |count| && |dims| == |start| + 1
    requires Ascending(rows) && forall r :: r in rows ==> r < dims[0]
    requires forall d :: 0 <= d < |start| ==> start[d] + count[d] <= dims[d + 1]
    ensures ReadOrder(dims, Elements(Stack(rows, Box(start, count)))) == Stack(rows, Box(start, count))
  {
    var zero := seq(|dims|, i => 0);
    var wanted := Stack(rows, Box(start, count));
    BoxSorted(zero, dims);
    BoxSorted(start, count);
    StackSorted(rows, Box(start, count));
    KeepSorted(Box(zero, dims), Elements(wanted));
    forall c | c in wanted ensures c in Box(zero, dims) { RowsWithin(dims, rows, start, count, c); }
    SortedUnique(ReadOrder(dims, Elements(wanted)), wanted);
  }

  lemma RowsWithin(dims: seq<nat>, rows: seq<nat>, start: seq<nat>, count: seq<nat>, c: Coord)
    requires |start| == |count| && |dims| == |start| + 1
    requires forall r :: r in rows ==> r < dims[0]
    requires forall d :: 0 <= d < |start| ==> start[d] + count[d] <= dims[d + 1]
    requires c in Stack(rows, Box(start, count))
    ensures c in Box(seq(|dims|, i => 0), dims)
  {
    InStack(rows, Box(start, count), c);
    InBox(start, count, c[1..]);
    forall d | 0 <= d < |dims| ensures c[d] < dims[d] {
      if d > 0 { assert c[1..][d - 1] < start[d - 1] + count[d - 1]; }
    }
    InBox(seq(|dims|, i => 0), dims, c);
  }

  // ---------- unions of ranges ----------

  lemma ElementsJoin<T>(a: seq<T>, b: seq<T>)
    ensures Elements(a + b) == Elements(a) + Elements(b)
  {}

  /** The union of two halves is the union of all. */
  lemma {:induction false} UnionSplit(sa: seq<nat>, ca: seq<nat>, sb: seq<nat>, cb: seq<nat>, inner: seq<Coord>)
    requires |sa| == |ca| && |sb| == |cb|
    ensures Union(sa + sb, ca + cb, inner) == Union(sa, ca, inner) + Union(sb, cb, inner)
  {
    if sb == [] {
      assert sa + sb == sa && ca + cb == ca;
    } else {
      var k := |sb| - 1;
      UnionSplit(sa, ca, sb[..k], cb[..k], inner);
      UnionPush(sa + sb[..k], ca + cb[..k], sb[k], cb[k], inner);
      UnionPush(sb[..k], cb[..k], sb[k], cb[k], inner);
      assert sa + sb == sa + sb[..k] + [sb[k]] && ca + cb == ca + cb[..k] + [cb[k]];
      assert sb == sb[..k] + [sb[k]] && cb == cb[..k] + [cb[k]];
    }
  }

  lemma UnionPush(starts: seq<nat>, counts: seq<nat>, start: nat, n: nat, inner: seq<Coord>)
    requires |starts| == |counts|
    ensures Union(starts + [start], counts + [n], inner)
         == Union(starts, counts, inner) + Elements(Stack(Range(start, n), inner))
  {
    assert (starts + [start])[..|starts|] == starts && (counts + [n])[..|starts|] == counts;
  }

  /** The union of hyperslabs is the selection of their rows. */
  lemma {:induction false} UnionIsStack(starts: seq<nat>, counts: seq<nat>, inner: seq<Coord>)
    requires |starts| == |counts|
    ensures Union(starts, counts, inner) == Elements(Stack(RangeRows(starts, counts), inner))
    ensures |RangeRows(starts, counts)| == Sum(counts)
  {
    if starts != [] {
      var k := |starts| - 1;
      var before, last := RangeRows(starts[..k], counts[..k]), Range(starts[k], counts[k]);
      UnionIsStack(starts[..k], counts[..k], inner);
      StackJoin(before, last, inner);
      ElementsJoin(Stack(before, inner), Stack(last, inner));
    }
  }

  lemma {:induction false} DistinctSize<T>(s: seq<T>)
    requires Distinct(s)
    ensures |Elements(s)| == |s|
  {
    if s != [] {
      DistinctSize(s[1..]);
      assert s == [s[0]] + s[1..];
      assert Elements(s) == {s[0]} + Elements(s[1..]);
      assert s[0] !in s[1..];
    }
  }

  lemma PrefixInStack(row: nat, rows: seq<nat>, inner: seq<Coord>)
    ensures row in rows ==> Elements(Prefix(row, inner)) <= Elements(Stack(rows, inner))
    ensures row !in rows ==> Elements(Prefix(row, inner)) !! Elements(Stack(rows, inner))
  {
    forall c | c in Prefix(row, inner) ensures c in Stack(rows, inner) <==> row in rows {
      var i :| 0 <= i < |inner| && Prefix(row, inner)[i] == c;
      assert c[1..] == inner[i];
      InStack(rows, inner, c);
    }
  }

  lemma ElementsStep<T>(x: T, rest: seq<T>)
    ensures Elements([x] + rest) == {x} + Elements(rest)
    ensures |Elements([x] + rest)| == |Elements(rest)| + if x in rest then 0 else 1
  {
    assert Elements([x] + rest) == {x} + Elements(rest);
    assert x in rest ==> {x} + Elements(rest) == Elements(rest);
  }

  /** Listing one more row adds its coordinates, unless the row was there already. */
  lemma PointsStep(row: nat, rest: seq<nat>, inner: seq<Coord>)
    requires Distinct(inner)
    ensures |Elements(Stack([row] + rest, inner))|
         == |Elements(Stack(rest, inner))| + if row in rest then 0 else |inner|
  {
    assert ([row] + rest)[1..] == rest;
    ElementsJoin(Prefix(row, inner), Stack(rest, inner));
    PrefixPoints(row, inner);
    PrefixInStack(row, rest, inner);
    SizeOfUnion(Elements(Prefix(row, inner)), Elements(Stack(rest, inner)), row in rest);
  }

  /** The number of coordinates in a selection of whole rows: each different row counts once. */
  lemma {:induction false} StackPoints(rows: seq<nat>, inner: seq<Coord>)
    requires Distinct(inner)
    ensures |Elements(Stack(rows, inner))| == |Elements(rows)| * |inner|
  {
    if rows != [] {
      var row, rest := rows[0], rows[1..];
      assert rows == [row] + rest;
      StackPoints(rest, inner);
      PointsStep(row, rest, inner);
      ElementsStep(row, rest);
      Multiples(|Elements(rest)|, |inner|);
    }
  }

  lemma SizeOfUnion<T>(a: set<T>, b: set<T>, inside: bool)
    requires if inside then a <= b else a !! b
    ensures |a + b| == |b| + if inside then 0 else |a|
  {
    assert inside ==> a + b == b;
  }

  lemma Multiples(k: nat, n: nat)
    ensures (k + 1) * n == k * n + n
  {}

  lemma PrefixPoints(row: nat, inner: seq<Coord>)
    requires Distinct(inner)
    ensures |Elements(Prefix(row, inner))| == |inner|
  {
    var p := Prefix(row, inner);
    forall i, j | 0 <= i < j < |p| ensures p[i] != p[j] {
      assert p[i][1..] == inner[i] && p[j][1..] == inner[j];
    }
    DistinctSize(p);
  }

  lemma SortedDistinct(s: seq<Coord>)
    requires Sorted(s)
    ensures Distinct(s)
  {
    forall i, j | 0 <= i < j < |s| ensures s[i] != s[j] { LexNotBoth(s[i], s[j]); }
  }

  lemma AscendingDistinct(rows: seq<nat>)
    requires Ascending(rows)
    ensures |Elements(rows)| == |rows|
  {
    DistinctSize(rows);
  }

  // ---------- the dataspace and the three selection functions ----------

  class Dataspace {
    const dims: seq<nat>
    var selected: set<Coord>

    constructor (dims: seq<nat>)
      ensures this.dims == dims && selected == {}
    {
      this.dims := dims;
      selected := {};
    }

    method SelectNone()
      modifies this
      ensures selected == {}
    {
      selected := {};
    }

    /** H5Sselect_hyperslab with H5S_SELECT_OR. */
    method SelectOr(start: array<nat>, count: array<nat>)
      requires |dims| <= start.Length && |dims| <= count.Length
      modifies this
      ensures selected == old(selected) + Elements(Box(start[..|dims|], count[..|dims|]))
    {
      selected := selected + Elements(Box(start[..|dims|], count[..|dims|]));
    }
  }

  /** The arrays given to the selection functions: two lists of ranges and one hyperslab to vary. */
  ghost predicate Arguments(space: Dataspace, selectStart: array<nat>, selectCount: array<nat>,
                            start: array<nat>, count: array<nat>) {
    && 0 < |space.dims| <= start.Length && |space.dims| <= count.Length
    && start != count && start != selectStart && start != selectCount
    && count != selectStart && count != selectCount
  }

  /** The part of the hyperslab that does not vary. */
  ghost function Inner(space: Dataspace, start: array<nat>, count: array<nat>): seq<Coord>
    requires 0 < |space.dims| <= start.Length && |space.dims| <= count.Length
    reads start, count
  {
    Box(start[1..|space.dims|], count[1..|space.dims|])
  }

  /** Adds one range of rows to the selection, as both loops of the source do. */
  method AddRange(space: Dataspace, selectStart: array<nat>, selectCount: array<nat>, k: nat,
                  start: array<nat>, count: array<nat>)
    requires Arguments(space, selectStart, selectCount, start, count)
    requires k < selectStart.Length && k < selectCount.Length
    modifies space, start, count
    ensures start[1..] == old(start[1..]) && count[1..] == old(count[1..])
    ensures space.selected == old(space.selected)
                              + Elements(Stack(Range(selectStart[k], selectCount[k]), old(Inner(space, start, count))))
  {
    ghost var r := |space.dims|;
    start[0] := selectStart[k];
    count[0] := selectCount[k];
    assert start[..r][1..] == old(start[1..r]) && count[..r][1..] == old(count[1..r]);
    space.SelectOr(start, count);
  }

  /** The union of the ranges from lo to hi. */
  ghost function Part(starts: seq<nat>, counts: seq<nat>, lo: nat, hi: nat, inner: seq<Coord>): set<Coord>
    requires lo <= hi <= |starts| && hi <= |counts|
  {
    Union(starts[lo..hi], counts[lo..hi], inner)
  }

  lemma PartOneMore(starts: seq<nat>, counts: seq<nat>, lo: nat, k: nat, inner: seq<Coord>)
    requires lo <= k < |starts| && k < |counts|
    ensures Part(starts, counts, lo, k + 1, inner)
         == Part(starts, counts, lo, k, inner) + Elements(Stack(Range(starts[k], counts[k]), inner))
  {
    assert starts[lo..k + 1][..k - lo] == starts[lo..k];
    assert counts[lo..k + 1][..k - lo] == counts[lo..k];
  }

  lemma PartSplit(starts: seq<nat>, counts: seq<nat>, lo: nat, mid: nat, hi: nat, inner: seq<Coord>)
    requires lo <= mid <= hi <= |starts| && hi <= |counts|
    ensures Part(starts, counts, lo, hi, inner)
         == Part(starts, counts, lo, mid, inner) + Part(starts, counts, mid, hi, inner)
  {
    UnionSplit(starts[lo..mid], counts[lo..mid], starts[mid..hi], counts[mid..hi], inner);
    assert starts[lo..mid] + starts[mid..hi] == starts[lo..hi];
    assert counts[lo..mid] + counts[mid..hi] == counts[lo..hi];
  }

  lemma SameInner(space: Dataspace, s: seq<nat>, c: seq<nat>, s': seq<nat>, c': seq<nat>)
    requires 0 < |space.dims| <= |s| == |s'| && |space.dims| <= |c| == |c'|
    requires s[1..] == s'[1..] && c[1..] == c'[1..]
    ensures s[1..|space.dims|] == s'[1..|space.dims|] && c[1..|space.dims|] == c'[1..|space.dims|]
  {
    var n := |space.dims|;
    assert s[1..n] == s[1..][..n - 1] && s'[1..n] == s'[1..][..n - 1];
    assert c[1..n] == c[1..][..n - 1] && c'[1..n] == c'[1..][..n - 1];
  }

  /** Adds the ranges from lo to hi to the selection, one after the other. */
  method SelectEach(space: Dataspace, lo: nat, hi: nat, selectStart: array<nat>, selectCount: array<nat>,
                    start: array<nat>, count: array<nat>)
    requires Arguments(space, selectStart, selectCount, start, count)
    requires lo <= hi <= selectStart.Length && hi <= selectCount.Length
    modifies space, start, count
    ensures start[1..] == old(start[1..]) && count[1..] == old(count[1..])
    ensures space.selected == Part(selectStart[..], selectCount[..], lo, hi, old(Inner(space, start, count)))
  {
    ghost var inner := Inner(space, start, count);
    space.SelectNone();
    var k := lo;
    while k < hi
      invariant lo <= k <= hi
      invariant start[1..] == old(start[1..]) && count[1..] == old(count[1..])
      invariant space.selected == Part(selectStart[..], selectCount[..], lo, k, inner)
    {
      SameInner(space, start[..], count[..], old(start[..]), old(count[..]));
      AddRange(space, selectStart, selectCount, k, start, count);
      PartOneMore(selectStart[..], selectCount[..], lo, k, inner);
      k := k + 1;
    }
  }

  /** select_slices_direct. */
  method SelectSlicesDirect(space: Dataspace, n: nat, selectStart: array<nat>, selectCount: array<nat>,
                            start: array<nat>, count: array<nat>)
    requires Arguments(space, selectStart, selectCount, start, count)
    requires n <= selectStart.Length && n <= selectCount.Length
    modifies space, start, count
    ensures start[1..] == old(start[1..]) && count[1..] == old(count[1..])
    ensures space.selected == Union(selectStart[..n], selectCount[..n], old(Inner(space, start, count)))
  {
    SelectEach(space, 0, n, selectStart, selectCount, start, count);
    assert selectStart[..][0..n] == selectStart[..n] && selectCount[..][0..n] == selectCount[..n];
  }

  /** select_slices_recursive: a new selection, the union of the two halves if there are many ranges. */
  method SelectSlicesRecursive(space: Dataspace, first: nat, n: nat, selectStart: array<nat>,
                               selectCount: array<nat>, start: array<nat>, count: array<nat>)
    returns (result: Dataspace)
    requires Arguments(space, selectStart, selectCount, start, count)
    requires first + n <= selectStart.Length && first + n <= selectCount.Length
    modifies start, count
    ensures start[1..] == old(start[1..]) && count[1..] == old(count[1..])
    ensures fresh(result) && result.dims == space.dims
    ensures result.selected == Part(selectStart[..], selectCount[..], first, first + n,
                                    old(Inner(space, start, count)))
    decreases n, 1
  {
    if n <= 8 {
      result := new Dataspace(space.dims);
      SelectEach(result, first, first + n, selectStart, selectCount, start, count);
    } else {
      result := Combine(space, first, n / 2, first + n, selectStart, selectCount, start, count);
    }
  }

  /** Selects both halves and combines them. */
  method Combine(space: Dataspace, first: nat, left: nat, end: nat, selectStart: array<nat>,
                 selectCount: array<nat>, start: array<nat>, count: array<nat>)
    returns (result: Dataspace)
    requires Arguments(space, selectStart, selectCount, start, count)
    requires first < first + left < end <= selectStart.Length && end <= selectCount.Length
    modifies start, count
    ensures start[1..] == old(start[1..]) && count[1..] == old(count[1..])
    ensures fresh(result) && result.dims == space.dims
    ensures result.selected == Part(selectStart[..], selectCount[..], first, end, old(Inner(space, start, count)))
    decreases end - first, 0
  {
    var right;
    result := SelectSlicesRecursive(space, first, left, selectStart, selectCount, start, count);
    SameInner(space, start[..], count[..], old(start[..]), old(count[..]));
    right := SelectSlicesRecursive(space, first + left, end - first - left, selectStart, selectCount, start, count);
    PartSplit(selectStart[..], selectCount[..], first, first + left, end, old(Inner(space, start, count)));
    result.selected := result.selected + right.selected;
  }

  /** The number of points listed and the number selected agree, as 64 bit words. */
  ghost predicate CountsAgree(rows: seq<nat>, inner: seq<Coord>) {
    (|rows| * |inner|) % U64 == (|Elements(rows)| * |inner|) % U64
  }

  /** That is so if no row is listed twice, or there is nothing to select, and only then if no count wraps. */
  lemma CountsAgreeIff(rows: seq<nat>, inner: seq<Coord>)
    ensures |Elements(rows)| == |rows| || inner == [] ==> CountsAgree(rows, inner)
    ensures |rows| * |inner| < U64 ==> (CountsAgree(rows, inner) <==> |Elements(rows)| == |rows| || inner == [])
  {
    FewerElements(rows);
    MulLe(|Elements(rows)|, |rows|, |inner|);
    SizesAgree(|Elements(rows)|, |rows|, |inner|);
  }

  lemma {:induction false} FewerElements<T>(s: seq<T>)
    ensures |Elements(s)| <= |s|
  {
    if s != [] {
      FewerElements(s[1..]);
      assert s == [s[0]] + s[1..];
      assert Elements(s) == {s[0]} + Elements(s[1..]);
    }
  }

  /**
   select_slices. The recursion selects what the direct loop selects. The debug check on the number
   of points counts in 64 bits: it succeeds exactly if the number of points listed is that selected.
   */
  method SelectSlices(space: Dataspace, n: nat, selectStart: array<nat>, selectCount: array<nat>,
                      start: array<nat>, count: array<nat>) returns (ok: bool)
    requires Arguments(space, selectStart, selectCount, start, count)
    requires n <= selectStart.Length && n <= selectCount.Length
    modifies space, start, count
    ensures start[1..] == old(start[1..]) && count[1..] == old(count[1..])
    ensures space.selected == Union(selectStart[..n], selectCount[..n], old(Inner(space, start, count)))
    ensures ok <==> CountsAgree(RangeRows(selectStart[..n], selectCount[..n]), old(Inner(space, start, count)))
  {
    ghost var inner, rank := Inner(space, start, count), |space.dims|;
    ghost var rows := RangeRows(selectStart[..n], selectCount[..n]);
    var combined := SelectSlicesRecursive(space, 0, n, selectStart, selectCount, start, count);
    assert selectStart[..][0..n] == selectStart[..n] && selectCount[..][0..n] == selectCount[..n];
    SameInner(space, start[..], count[..], old(start[..]), old(count[..]));
    space.selected := combined.selected;

    UnionIsStack(selectStart[..n], selectCount[..n], inner);
    BoxSorted(start[1..rank], count[1..rank]);
    SortedDistinct(inner);
    StackPoints(rows, inner);
    ok := CheckCount(space, n, selectCount, count, rows, inner);
  }

  /** The debug check. */
  method CheckCount(space: Dataspace, n: nat, selectCount: array<nat>, count: array<nat>, ghost rows: seq<nat>,
                    ghost inner: seq<Coord>)
    returns (ok: bool)
    requires n <= selectCount.Length && 0 < |space.dims| <= count.Length
    requires |rows| == Sum(selectCount[..n]) && |inner| == Product(count[1..|space.dims|])
    requires |space.selected| == |Elements(rows)| * |inner|
    ensures ok <==> CountsAgree(rows, inner)
  {
    var expected := SumRows(selectCount, n);
    expected := TimesOthers(expected, |rows|, |space.dims|, count);
    ok := AsLong(expected) == AsLong(|space.selected|);
    SameWord(|rows| * |inner|, |space.selected|);
  }

  /** Signed words are equal exactly if the unsigned ones are. */
  lemma SameWord(a: nat, b: nat)
    ensures AsLong(a % U64) == AsLong(b) <==> a % U64 == b % U64
  {
    ModShift(a % U64 + U64 / 2, a / U64, U64);
    assert AsLong(a % U64) == AsLong(a);
    if a % U64 == b % U64 {
      ModShift(b + U64 / 2, a / U64 - b / U64, U64);
      assert a == b + (a / U64 - b / U64) * U64;
    }
    if AsLong(a) == AsLong(b) {
      var h := U64 / 2;
      ModShift(b, (a + h) / U64 - (b + h) / U64, U64);
      assert a == b + ((a + h) / U64 - (b + h) / U64) * U64;
    }
  }

  /** The number of rows listed. */
  method SumRows(selectCount: array<nat>, n: nat) returns (rows: nat)
    requires n <= selectCount.Length
    ensures rows == Sum(selectCount[..n]) % U64
  {
    rows := 0;
    var i := 0;
    while i < n
      invariant 0 <= i <= n
      invariant rows == Sum(selectCount[..i]) % U64
    {
      assert selectCount[..i + 1][..i] == selectCount[..i];
      AddMod(Sum(selectCount[..i]), selectCount[i]);
      rows := AddU64(rows, selectCount[i]);
      i := i + 1;
    }
  }

  lemma SizesAgree(a: nat, b: nat, k: nat)
    ensures a * k == b * k <==> a == b || k == 0
  {
    if a != b && k > 0 && a * k == b * k { assert (a - b) * k == 0; }
  }

  lemma Regroup(a: nat, b: nat, c: nat)
    ensures a * (b * c) == (a * b) * c
  {}

  /** The expected number of points: the rows times the counts in the other dimensions. */
  method TimesOthers(rows: nat, ghost exactRows: nat, rank: nat, count: array<nat>) returns (points: nat)
    requires 0 < rank <= count.Length && rows == exactRows % U64
    ensures points == (exactRows * Product(count[1..rank])) % U64
  {
    points := rows;
    ghost var exact: nat := exactRows;
    var i := 1;
    while i < rank
      invariant 1 <= i <= rank && points == exact % U64
      invariant Multiplied(exact, count[i..rank], exactRows * Product(count[1..rank]))
    {
      assert count[i..rank][1..] == count[i + 1..rank];
      MultiplyNext(exact, count[i..rank], exactRows * Product(count[1..rank]));
      MulMod(exact, count[i]);
      points := MulU64(points, count[i]);
      exact := exact * count[i];
      i := i + 1;
    }
  }

  /** Multiplying by the rest of the counts gives the total. */
  ghost predicate Multiplied(points: nat, rest: seq<nat>, total: nat) {
    points * Product(rest) == total
  }

  lemma MultiplyNext(points: nat, rest: seq<nat>, total: nat)
    requires rest != [] && Multiplied(points, rest, total)
    ensures Multiplied(points * rest[0], rest[1..], total)
  {
    Regroup(points, rest[0], Product(rest[1..]));
  }
}
