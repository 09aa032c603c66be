/**
 Slice descriptors as strings (webapp SliceInfo.java): slices separated by semicolons, dimensions by
 commas, and in each dimension a start and an end, or one index.
 */
module SliceString {
  import opened Basics
  import opened Wrappers
  import opened Words
  import opened Text
  import opened SliceDescriptor

  const MAX_STRING_LENGTH: nat := 8 * 1024 * 1024

  /** The elements of a slice in one dimension. */
  datatype Range = Range(start: int, count: int)

  function MakeRange(start: int, end: int): Option<Range> {
    if start < 0 || end < 0 || end - start < 0 then None else Some(Range(start, end - start))
  }

  /** One dimension: an index, or start and end. */
  function RangeOfFields(fields: seq<string>): Option<Range> {
    if |fields| == 1 then
      var start := ParseLong(Trim(fields[0]));
      if start.None? then None else MakeRange(start.value, AsLong(start.value + 1))
    else if |fields| == 2 then
      var start, end := ParseLong(Trim(fields[0])), ParseLong(Trim(fields[1]));
      if start.None? || end.None? then None else MakeRange(start.value, end.value)
    else None
  }

  function ParseRange(s: string): Option<Range> {
    RangeOfFields(Split(s, ':'))
  }

  /** The dimensions of a slice: none if there is nothing but white space. */
  function Dimensions(s: string): seq<string> {
    if Trim(s) == "" then [] else Split(s, ',')
  }

  function ParseRanges(dims: seq<string>): (r: Option<seq<Range>>)
    ensures r.Some? ==> |r.value| == |dims|
  {
    if dims == [] then Some([])
    else
      var rest, last := ParseRanges(dims[..|dims| - 1]), ParseRange(dims[|dims| - 1]);
      if rest.None? || last.None? then None else Some(rest.value + [last.value])
  }

  /** All slices, which must have the same number of dimensions. */
  function ParseRows(slices: seq<string>, rank: nat): (r: Option<seq<seq<Range>>>)
    ensures r.Some? ==> |r.value| == |slices| && forall k :: 0 <= k < |slices| ==> |r.value[k]| == rank
  {
    if slices == [] then Some([])
    else
      var rest, dims := ParseRows(slices[..|slices| - 1], rank), Dimensions(slices[|slices| - 1]);
      if rest.None? || |dims| != rank || ParseRanges(dims).None? then None
      else Some(rest.value + [ParseRanges(dims).value])
  }

  function Starts(rows: seq<seq<Range>>): (r: seq<seq<int>>)
    ensures |r| == |rows|
  {
    seq(|rows|, k requires 0 <= k < |rows| => seq(|rows[k]|, d requires 0 <= d < |rows[k]| => rows[k][d].start))
  }

  function Counts(rows: seq<seq<Range>>): (r: seq<seq<int>>)
    ensures |r| == |rows|
  {
    seq(|rows|, k requires 0 <= k < |rows| => seq(|rows[k]|, d requires 0 <= d < |rows[k]| => rows[k][d].count))
  }

  function FromRows(rows: seq<seq<Range>>, rank: nat): Slices {
    Slices(|rows|, rank, Flatten(Starts(rows)), Flatten(Counts(rows)))
  }

  function ParseSlices(s: string): Option<Slices> {
    var slices := Split(s, ';');
    var rank := |Dimensions(slices[0])|;
    if |s| > MAX_STRING_LENGTH || |slices| > MAX_SLICES || rank > MAX_DIMENSIONS then None
    else
      var rows := ParseRows(slices, rank);
      if rows.None? then None else Some(FromRows(rows.value, rank))
  }

  // ---------- what is parsed is within bounds ----------

  /** Neither the start nor the end of any slice is negative or beyond the largest long. */
  ghost predicate Bounded(s: Slices)
    requires WellShaped(s)
  {
    forall k, d :: 0 <= k < s.nrSlices && 0 <= d < s.rank ==>
      && 0 <= At(s.starts, s.nrSlices, s.rank, k, d)
      && 0 <= At(s.counts, s.nrSlices, s.rank, k, d)
      && At(s.starts, s.nrSlices, s.rank, k, d) + At(s.counts, s.nrSlices, s.rank, k, d) <= MaxLong
  }

  predicate RangeOk(r: Range) {
    0 <= r.start && 0 <= r.count && r.start + r.count <= MaxLong
  }

  lemma ParsedRangeOk(s: string)
    requires ParseRange(s).Some?
    ensures RangeOk(ParseRange(s).value)
  {}

  lemma {:induction false} ParsedRangesOk(dims: seq<string>)
    requires ParseRanges(dims).Some?
    ensures forall d :: 0 <= d < |dims| ==> RangeOk(ParseRanges(dims).value[d])
  {
    if dims != [] {
      ParsedRangesOk(dims[..|dims| - 1]);
      ParsedRangeOk(dims[|dims| - 1]);
    }
  }

  lemma {:induction false} ParsedRowsOk(slices: seq<string>, rank: nat)
    requires ParseRows(slices, rank).Some?
    ensures forall k, d :: 0 <= k < |slices| && 0 <= d < rank ==> RangeOk(ParseRows(slices, rank).value[k][d])
  {
    if slices != [] {
      ParsedRowsOk(slices[..|slices| - 1], rank);
      ParsedRangesOk(Dimensions(slices[|slices| - 1]));
    }
  }

  lemma RowsAt(rows: seq<seq<Range>>, rank: nat)
    requires rows != [] && forall k :: 0 <= k < |rows| ==> |rows[k]| == rank
    ensures WellShaped(FromRows(rows, rank))
    ensures forall k, d :: 0 <= k < |rows| && 0 <= d < rank ==>
              && At(FromRows(rows, rank).starts, |rows|, rank, k, d) == rows[k][d].start
              && At(FromRows(rows, rank).counts, |rows|, rank, k, d) == rows[k][d].count
  {
    FlattenAt(Starts(rows), |rows|, rank);
    FlattenAt(Counts(rows), |rows|, rank);
  }

  /** Whatever string a client sends: what is accepted is well shaped, within the limits and within bounds. */
  lemma ParsedIsBounded(s: string)
    requires ParseSlices(s).Some?
    ensures var r := ParseSlices(s).value; WellShaped(r) && Readable(r) && Bounded(r)
  {
    var slices := Split(s, ';');
    var rank := |Dimensions(slices[0])|;
    var rows := ParseRows(slices, rank).value;
    ParsedRowsOk(slices, rank);
    RowsAt(rows, rank);
    var r := FromRows(rows, rank);
    forall k, d | 0 <= k < r.nrSlices && 0 <= d < r.rank
      ensures 0 <= At(r.starts, r.nrSlices, r.rank, k, d) && 0 <= At(r.counts, r.nrSlices, r.rank, k, d)
      ensures At(r.starts, r.nrSlices, r.rank, k, d) + At(r.counts, r.nrSlices, r.rank, k, d) <= MaxLong {
      assert RangeOk(rows[k][d]);
    }
  }

  // ---------- every list of slices can be written as a string ----------

  /** Start and end, or in short form just the index of a single element. */
  function PrintRange(r: Range, short: bool): string
    requires RangeOk(r)
  {
    if short && r.count == 1 then ToString(r.start) else ToString(r.start) + [':'] + ToString(r.start + r.count)
  }

  predicate RowOk(row: seq<Range>) {
    forall d :: 0 <= d < |row| ==> RangeOk(row[d])
  }

  ghost predicate RowsOk(rows: seq<seq<Range>>, rank: nat) {
    forall k :: 0 <= k < |rows| ==> |rows[k]| == rank && RowOk(rows[k])
  }

  function PrintRanges(row: seq<Range>, short: bool): (parts: seq<string>)
    requires RowOk(row)
    ensures |parts| == |row| && forall d :: 0 <= d < |row| ==> parts[d] == PrintRange(row[d], short)
  {
    seq(|row|, d requires 0 <= d < |row| => PrintRange(row[d], short))
  }

  function PrintRow(row: seq<Range>, short: bool): string
    requires RowOk(row)
  {
    if row == [] then "" else Join(PrintRanges(row, short), ',')
  }

  function PrintRows(rows: seq<seq<Range>>, short: bool): (parts: seq<string>)
    requires forall k :: 0 <= k < |rows| ==> RowOk(rows[k])
    ensures |parts| == |rows| && forall k :: 0 <= k < |rows| ==> parts[k] == PrintRow(rows[k], short)
  {
    seq(|rows|, k requires 0 <= k < |rows| => PrintRow(rows[k], short))
  }

  lemma FieldBack(n: nat)
    requires n <= MaxLong
    ensures ParseLong(Trim(ToString(n))) == Some(n)
  {
    var s := ToString(n);
    assert IsDigit(s[0]) && IsDigit(s[|s| - 1]);
    TrimVisible(s);
    ParseString(n);
  }

  lemma TwoFields(a: string, b: string)
    requires AllDigits(a) && AllDigits(b)
    ensures Split(a + [':'] + b, ':') == [a, b]
  {
    DigitsWithout(a, ':');
    DigitsWithout(b, ':');
    SplitFirst(a, ':', b);
    SplitSingle(b, ':');
  }

  lemma ParseTwo(a: string, b: string, start: int, end: int)
    requires AllDigits(a) && AllDigits(b) && ParseLong(Trim(a)) == Some(start) && ParseLong(Trim(b)) == Some(end)
    ensures ParseRange(a + [':'] + b) == MakeRange(start, end)
  {
    TwoFields(a, b);
    var fields := Split(a + [':'] + b, ':');
    assert fields[0] == a && fields[1] == b;
  }

  /** An index stands for one element; the largest long is refused, as there is no end after it. */
  lemma ParseIndex(n: nat)
    requires n <= MaxLong
    ensures ParseRange(ToString(n)) == if n < MaxLong then Some(Range(n, 1)) else None
  {
    FieldBack(n);
    ParseOne(ToString(n), n);
    NextLong(n);
  }

  lemma ParseOne(a: string, start: int)
    requires AllDigits(a) && ParseLong(Trim(a)) == Some(start)
    ensures ParseRange(a) == MakeRange(start, AsLong(start + 1))
  {
    DigitsWithout(a, ':');
    SplitSingle(a, ':');
  }

  lemma NextLong(n: nat)
    requires n <= MaxLong
    ensures MakeRange(n, AsLong(n + 1)) == if n < MaxLong then Some(Range(n, 1)) else None
  {}

  lemma ParsePair(start: nat, end: nat)
    requires start <= end <= MaxLong
    ensures ParseRange(ToString(start) + [':'] + ToString(end)) == Some(Range(start, end - start))
  {
    FieldBack(start);
    FieldBack(end);
    ParseTwo(ToString(start), ToString(end), start, end);
  }

  lemma ParseRangeBack(r: Range, short: bool)
    requires RangeOk(r)
    ensures ParseRange(PrintRange(r, short)) == Some(r)
  {
    ParsePair(r.start, r.start + r.count);
    if r.count == 1 { ParseIndex(r.start); }
  }

  /** The string contains neither separator, and starts and ends with a digit. */
  ghost predicate Plain(s: string) {
    Without(s, ',') && Without(s, ';') && s != "" && IsDigit(s[0]) && IsDigit(s[|s| - 1])
  }

  lemma PrintRangePlain(r: Range, short: bool)
    requires RangeOk(r)
    ensures Plain(PrintRange(r, short))
  {
    var a, b := ToString(r.start), ToString(r.start + r.count);
    DigitsWithout(a, ',');
    DigitsWithout(b, ',');
    DigitsWithout(a, ';');
    DigitsWithout(b, ';');
  }

  lemma {:induction false} ParseRangesBack(row: seq<Range>, short: bool)
    requires RowOk(row)
    ensures ParseRanges(PrintRanges(row, short)) == Some(row)
  {
    if row != [] {
      var n := |row| - 1;
      ParseRangesBack(row[..n], short);
      ParseRangeBack(row[n], short);
      ParseRangesStep(PrintRanges(row[..n], short), PrintRange(row[n], short), row[..n], row[n]);
      PrintRangesLast(row, short);
    }
  }

  lemma PrintRangesLast(row: seq<Range>, short: bool)
    requires row != [] && RowOk(row)
    ensures PrintRanges(row, short) == PrintRanges(row[..|row| - 1], short) + [PrintRange(row[|row| - 1], short)]
    ensures row == row[..|row| - 1] + [row[|row| - 1]]
  {}

  lemma ParseRangesStep(before: seq<string>, last: string, row: seq<Range>, r: Range)
    requires ParseRanges(before) == Some(row) && ParseRange(last) == Some(r)
    ensures ParseRanges(before + [last]) == Some(row + [r])
  {
    assert (before + [last])[..|before|] == before;
  }

  lemma {:induction false} JoinEnds(parts: seq<string>, c: char)
    requires parts != [] && forall p :: p in parts ==> p != "" && IsDigit(p[0]) && IsDigit(p[|p| - 1])
    ensures Join(parts, c) != "" && IsDigit(Join(parts, c)[0]) && IsDigit(Join(parts, c)[|Join(parts, c)| - 1])
  {
    if |parts| > 1 { JoinEnds(parts[1..], c); }
  }

  lemma PrintRowFacts(row: seq<Range>, short: bool)
    requires RowOk(row)
    ensures Dimensions(PrintRow(row, short)) == PrintRanges(row, short) && Without(PrintRow(row, short), ';')
  {
    if row != [] {
      var parts := PrintRanges(row, short);
      forall p | p in parts ensures Plain(p) {
        var d :| 0 <= d < |row| && parts[d] == p;
        PrintRangePlain(row[d], short);
      }
      SplitJoin(parts, ',');
      JoinWithout(parts, ',', ';');
      JoinEnds(parts, ',');
      TrimVisible(PrintRow(row, short));
    }
  }

  lemma ParseRowsStep(before: seq<string>, last: string, rank: nat, rows: seq<seq<Range>>, row: seq<Range>)
    requires ParseRows(before, rank) == Some(rows)
    requires |Dimensions(last)| == rank && ParseRanges(Dimensions(last)) == Some(row)
    ensures ParseRows(before + [last], rank) == Some(rows + [row])
  {
    assert (before + [last])[..|before|] == before;
  }

  lemma PrintRowsLast(rows: seq<seq<Range>>, short: bool)
    requires rows != [] && forall k :: 0 <= k < |rows| ==> RowOk(rows[k])
    ensures PrintRows(rows, short) == PrintRows(rows[..|rows| - 1], short) + [PrintRow(rows[|rows| - 1], short)]
    ensures rows == rows[..|rows| - 1] + [rows[|rows| - 1]]
  {}

  lemma {:induction false} ParseRowsBack(rows: seq<seq<Range>>, rank: nat, short: bool)
    requires RowsOk(rows, rank)
    ensures ParseRows(PrintRows(rows, short), rank) == Some(rows)
  {
    if rows != [] {
      var n := |rows| - 1;
      ParseRowsBack(rows[..n], rank, short);
      PrintRowFacts(rows[n], short);
      ParseRangesBack(rows[n], short);
      ParseRowsStep(PrintRows(rows[..n], short), PrintRow(rows[n], short), rank, rows[..n], rows[n]);
      PrintRowsLast(rows, short);
    }
  }

  /** The rows of a list of slices. */
  ghost function ToRows(s: Slices): (rows: seq<seq<Range>>)
    requires WellShaped(s)
    ensures |rows| == s.nrSlices && forall k :: 0 <= k < s.nrSlices ==> |rows[k]| == s.rank
  {
    seq(s.nrSlices, k requires 0 <= k < s.nrSlices =>
      seq(s.rank, d requires 0 <= d < s.rank =>
        Range(At(s.starts, s.nrSlices, s.rank, k, d), At(s.counts, s.nrSlices, s.rank, k, d))))
  }

  lemma RowsOfBounded(s: Slices)
    requires WellShaped(s) && Bounded(s)
    ensures RowsOk(ToRows(s), s.rank) && FromRows(ToRows(s), s.rank) == s
  {
    var rows := ToRows(s);
    forall k | 0 <= k < s.nrSlices ensures RowOk(rows[k]) {
      assert forall d :: 0 <= d < s.rank ==> RangeOk(rows[k][d]);
    }
    RowsAt(rows, s.rank);
    SameEntries(FromRows(rows, s.rank).starts, s.starts, s.nrSlices, s.rank);
    SameEntries(FromRows(rows, s.rank).counts, s.counts, s.nrSlices, s.rank);
  }

  ghost function Print(s: Slices, short: bool): string
    requires WellShaped(s) && Bounded(s)
  {
    RowsOfBounded(s);
    Join(PrintRows(ToRows(s), short), ';')
  }

  /**
   Every list of slices within the limits is understood when it is written as a string, unless the
   string gets too long; slices need not agree in any dimension. Single elements may be given by their
   index alone.
   */
  lemma ParsePrinted(s: Slices, short: bool)
    requires WellShaped(s) && Bounded(s) && Readable(s) && s.nrSlices <= MAX_SLICES
    ensures |Print(s, short)| <= MAX_STRING_LENGTH ==> ParseSlices(Print(s, short)) == Some(s)
  {
    RowsOfBounded(s);
    ParseJoined(ToRows(s), s.rank, short);
  }

  lemma {:induction false} ParseJoined(rows: seq<seq<Range>>, rank: nat, short: bool)
    requires 0 < |rows| <= MAX_SLICES && RowsOk(rows, rank) && rank <= MAX_DIMENSIONS
    ensures |Join(PrintRows(rows, short), ';')| <= MAX_STRING_LENGTH ==>
              ParseSlices(Join(PrintRows(rows, short), ';')) == Some(FromRows(rows, rank))
  {
    var parts := PrintRows(rows, short);
    forall p | p in parts ensures Without(p, ';') {
      var k :| 0 <= k < |rows| && parts[k] == p;
      PrintRowFacts(rows[k], short);
    }
    SplitJoin(parts, ';');
    PrintRowFacts(rows[0], short);
    ParseRowsBack(rows, rank, short);
  }
}
