/** The height index of `crates/core/src/book.rs`: row heights, their prefix sums, and the row at an offset. */
module HeightBooks {
  import opened PlanCaches
  import opened LineCounting

  datatype HeightBook = HeightBook(heights: seq<real>, offsets: seq<real>)
  {
    /** One offset in front of every row and one behind the last, each the sum of the heights before it. */
    ghost predicate Valid() {
      |offsets| == |heights| + 1 && forall i :: 0 <= i < |offsets| ==> offsets[i] == Sum(heights[..i])
    }

    /** What a line height that is not negative gives. */
    ghost predicate Rising() {
      forall i :: 0 <= i < |heights| ==> heights[i] >= 0.0
    }

    /** Every row is as high as its lines and the blank above it. */
    ghost predicate Measures(lines: seq<nat>, gaps: seq<bool>, line: real)
      requires |gaps| == |lines|
    {
      |heights| == |lines|
      && forall i :: 0 <= i < |lines| ==> heights[i] == RowHeight(lines[i], gaps[i], line)
    }

    function TotalHeight(): real {
      if offsets == [] then 0.0 else offsets[|offsets| - 1]
    }

    function Offset(index: nat): real {
      if index < |offsets| then offsets[index] else TotalHeight()
    }
  }

  function Sum(s: seq<real>): real {
    if s == [] then 0.0 else Sum(s[..|s| - 1]) + s[|s| - 1]
  }

  /** The height of a row: its lines, and one more where a blank goes above it. */
  function RowHeight(lines: nat, gap: bool, line: real): real {
    (lines + if gap then 1 else 0) as real * line
  }

  function GapBefore<Row>(needsBlank: (Row, Row) -> bool, rows: seq<Row>, index: nat): bool {
    0 < index < |rows| && needsBlank(rows[index - 1], rows[index])
  }

  function Gaps<Row>(needsBlank: (Row, Row) -> bool, rows: seq<Row>): (r: seq<bool>)
    ensures |r| == |rows| && (r != [] ==> !r[0])
    ensures forall i :: 0 <= i && i + 1 < |rows| ==> r[i + 1] == needsBlank(rows[i], rows[i + 1])
  {
    seq(|rows|, i requires 0 <= i => GapBefore(needsBlank, rows, i))
  }

  lemma ProductNotNegative(a: real, b: real)
    requires a >= 0.0 && b >= 0.0
    ensures a * b >= 0.0
  {
  }

  method With<Row(==,!new), Metrics(==,!new), Expansion(==,!new), Line(!new)>(
    req: Request<Row, Metrics, Expansion, Line>, cache: PlanCache?<Row, Metrics, Expansion, Line>, threads: nat,
    needsBlank: (Row, Row) -> bool, line: real) returns (book: HeightBook)
    requires threads >= 1
    modifies if cache == null then {} else {cache}
    ensures book.Valid() && (line >= 0.0 ==> book.Rising())
    ensures book.Measures(req.Counts(old(Known(req, cache))), Gaps(needsBlank, req.rows), line)
    ensures (cache == null || old(cache.Coherent(req.planner, req.frame))) ==>
              book.Measures(req.PureCounts(), Gaps(needsBlank, req.rows), line)
              && (cache != null ==> cache.Coherent(req.planner, req.frame))
  {
    hide Known, AllPure, Gaps, req.Counts, req.PureCounts;
    var counts := LineCounts(req, cache, threads);
    book := Build(counts[..], Gaps(needsBlank, req.rows), line);
  }

  /** The loop over the rows. */
  method Build(lines: seq<nat>, gaps: seq<bool>, line: real) returns (book: HeightBook)
    requires |gaps| == |lines|
    ensures book.Valid() && (line >= 0.0 ==> book.Rising())
    ensures book.Measures(lines, gaps, line)
    ensures forall i :: 0 <= i < |lines| ==> book.heights[i] == lines[i] as real * line + if gaps[i] then line else 0.0
  {
    hide Sum;
    var n := |lines|;
    var heights := new real[n](_ => 0.0);
    var offsets := new real[n + 1](_ => 0.0);
    EmptySum(heights[..]);
    for i := 0 to n
      invariant forall k :: 0 <= k < i ==> heights[k] == RowHeight(lines[k], gaps[k], line)
      invariant forall k :: 0 <= k <= i ==> offsets[k] == Sum(heights[..k])
    {
      ghost var before := heights[..];
      heights[i] := RowHeight(lines[i], gaps[i], line);
      offsets[i + 1] := offsets[i] + heights[i];
      assert forall k :: 0 <= k <= i ==> heights[..k] == before[..k];
      OneMoreTerm(heights[..], i);
      assert heights[..][..i] == heights[..i] && heights[..][..i + 1] == heights[..i + 1];
    }
    book := HeightBook(heights[..], offsets[..]);
    forall i | 0 <= i < n && line >= 0.0 ensures book.heights[i] >= 0.0 {
      ProductNotNegative((lines[i] + if gaps[i] then 1 else 0) as real, line);
    }
    assert forall i :: 0 <= i < n + 1 ==> book.heights[..i] == heights[..i];
    forall i | 0 <= i < n ensures book.heights[i] == lines[i] as real * line + if gaps[i] then line else 0.0 {
      HeightIs(lines[i], gaps[i], line);
    }
  }

  /** A row is as high as its lines, and one line more with a blank above it. */
  lemma HeightIs(lines: nat, gap: bool, line: real)
    ensures RowHeight(lines, gap, line) == lines as real * line + if gap then line else 0.0
  {
    assert gap ==> (lines + 1) as real == lines as real + 1.0;
  }

  /** All the lines there are to draw, blanks between rows included. */
  function AllLines(lines: seq<nat>, gaps: seq<bool>): nat
    requires |gaps| == |lines|
  {
    if lines == [] then 0
    else AllLines(lines[1..], gaps[1..]) + lines[0] + if gaps[0] then 1 else 0
  }

  lemma {:induction false} SumFromFront(s: seq<real>)
    requires s != []
    ensures Sum(s) == s[0] + Sum(s[1..])
  {
    var n := |s| - 1;
    if n > 0 {
      SumFromFront(s[..n]);
      assert s[..n][1..] == s[1..][..n - 1];
    } else {
      assert s[..0] == [] && s[1..] == [];
    }
  }

  /** So many lines high. */
  function High(n: nat, line: real): real {
    n as real * line
  }

  lemma HighBoth(a: nat, b: nat, line: real)
    ensures High(a + b, line) == High(a, line) + High(b, line) && High(0, line) == 0.0
  {
    assert (a + b) as real == a as real + b as real;
  }

  lemma {:induction false} SumOfHeights(heights: seq<real>, lines: seq<nat>, gaps: seq<bool>, line: real)
    requires |heights| == |lines| == |gaps|
    requires forall i :: 0 <= i < |lines| ==> heights[i] == High(lines[i] + if gaps[i] then 1 else 0, line)
    ensures Sum(heights) == High(AllLines(lines, gaps), line)
  {
    hide High;
    if lines == [] {
      HighBoth(0, 0, line);
    } else {
      SumFromFront(heights);
      SumOfHeights(heights[1..], lines[1..], gaps[1..], line);
      HighBoth(AllLines(lines[1..], gaps[1..]), lines[0] + if gaps[0] then 1 else 0, line);
    }
  }

  /** The whole is as high as all its lines and blanks, no height is lost between the offsets. */
  lemma TotalIsAllLines(book: HeightBook, lines: seq<nat>, gaps: seq<bool>, line: real)
    requires |gaps| == |lines| && book.Valid() && book.Measures(lines, gaps, line)
    ensures book.TotalHeight() == High(AllLines(lines, gaps), line)
  {
    SumOfHeights(book.heights, lines, gaps, line);
    assert book.heights[..|book.heights|] == book.heights;
  }

  /** A row's offset is the height of what stands above it; past the last row it is the whole height. */
  lemma OffsetIsWhatIsAbove(book: HeightBook, index: nat)
    requires book.Valid()
    ensures book.Offset(index) == Sum(book.heights[..if index <= |book.heights| then index else |book.heights|])
  {
  }

  lemma EmptySum(s: seq<real>)
    ensures Sum(s[..0]) == 0.0
  {
  }

  lemma OneMoreTerm(s: seq<real>, i: nat)
    requires i < |s|
    ensures Sum(s[..i + 1]) == Sum(s[..i]) + s[i]
  {
    assert s[..i + 1][..i] == s[..i];
  }

  // ----- from an offset to a row

  /** The last of the first `n` rows that starts at or before `y`, the first where none does. */
  function LastStart(offsets: seq<real>, n: nat, y: real): (r: nat)
    requires 0 < n <= |offsets|
    ensures r < n
  {
    if n == 1 || offsets[n - 1] <= y then n - 1 else LastStart(offsets, n - 1, y)
  }

  lemma {:induction false} LastStartMeans(offsets: seq<real>, n: nat, y: real, i: nat)
    requires 0 < n <= |offsets| && i < n
    ensures var r := LastStart(offsets, n, y);
            (r > 0 ==> offsets[r] <= y) && (i > r ==> offsets[i] > y)
  {
    if n > 1 && offsets[n - 1] > y {
      LastStartMeans(offsets, n - 1, y, if i < n - 1 then i else 0);
    }
  }

  lemma {:induction false} OffsetsAscend(book: HeightBook, i: nat, j: nat)
    requires book.Valid() && book.Rising() && i <= j < |book.offsets|
    ensures book.offsets[i] <= book.offsets[j]
    decreases j
  {
    if i < j {
      OffsetsAscend(book, i, j - 1);
      OneMoreTerm(book.heights, j - 1);
    }
  }

  /** The binary search finds the last row that starts at or before the offset. */
  method RowIndexAtOffset(book: HeightBook, y: real) returns (row: nat)
    requires book.Valid()
    ensures book.heights == [] ==> row == 0
    ensures book.heights != [] && book.Rising() ==> row == LastStart(book.offsets, |book.heights|, y)
  {
    if |book.heights| == 0 {
      return 0;
    }
    var low, high := 0, |book.heights| - 1;
    ghost var found := LastStart(book.offsets, |book.heights|, y);
    while low < high
      invariant 0 <= low <= high < |book.heights|
      invariant book.Rising() ==> low <= found <= high
    {
      var mid := DivCeil(low + high, 2);
      if book.offsets[mid] <= y {
        LastStartMeans(book.offsets, |book.heights|, y, mid);
        low := mid;
      } else {
        LastStartMeans(book.offsets, |book.heights|, y, mid);
        if book.Rising() && mid <= found {
          OffsetsAscend(book, mid, found);
        }
        high := mid - 1;
      }
    }
    row := low;
  }

  /** The index inverts itself: a point strictly inside a row maps back to that row, and so does its start. */
  lemma PointInRowMapsBack(book: HeightBook, i: nat, y: real)
    requires book.Valid() && book.Rising() && i < |book.heights|
    requires book.offsets[i] <= y < book.offsets[i + 1]
    ensures LastStart(book.offsets, |book.heights|, y) == i
  {
    var n := |book.heights|;
    var r := LastStart(book.offsets, n, y);
    LastStartMeans(book.offsets, n, y, i);
    if r > i {
      OffsetsAscend(book, i + 1, r);
    }
  }

  /** The start of a row maps back to the row exactly when it has a height or is the last one. */
  lemma StartMapsBackIff(book: HeightBook, i: nat)
    requires book.Valid() && book.Rising() && i < |book.heights|
    ensures LastStart(book.offsets, |book.heights|, book.offsets[i]) == i
            <==> book.heights[i] > 0.0 || i == |book.heights| - 1
  {
    var n := |book.heights|;
    OneMoreTerm(book.heights, i);
    LastStartMeans(book.offsets, n, book.offsets[i], n - 1);
    if i < n - 1 {
      LastStartMeans(book.offsets, n, book.offsets[i], i + 1);
    }
    if book.heights[i] > 0.0 {
      PointInRowMapsBack(book, i, book.offsets[i]);
    }
  }

  /** Every offset from 0 to the end of the last row lies in the row it maps to. */
  lemma {:induction false} OffsetLiesInItsRow(book: HeightBook, y: real)
    requires book.Valid() && book.heights != [] && 0.0 <= y < book.TotalHeight()
    ensures var r := LastStart(book.offsets, |book.heights|, y);
            book.offsets[r] <= y < book.offsets[r] + book.heights[r]
  {
    var n := |book.heights|;
    var r := LastStart(book.offsets, n, y);
    LastStartMeans(book.offsets, n, y, if r < n - 1 then r + 1 else r);
    OneMoreTerm(book.heights, r);
    EmptySum(book.heights);
  }
}
