/** `tail_lines` of `crates/core/src/engine.rs`: the last lines of a transcript, planned from its end and no further than
    needed. */
module TailLines {
  import opened LineCounting

  function PlanAll<Row, Line>(plan: Row -> seq<Line>, rows: seq<Row>): (r: seq<seq<Line>>)
    ensures |r| == |rows| && forall i :: 0 <= i < |rows| ==> r[i] == plan(rows[i])
  {
    if rows == [] then [] else [plan(rows[0])] + PlanAll(plan, rows[1..])
  }

  /** All the lines of all the rows, in order. */
  function AllLines<Row, Line>(plan: Row -> seq<Line>, rows: seq<Row>): seq<Line> {
    Flatten(PlanAll(plan, rows))
  }

  function Last<T>(s: seq<T>, most: nat): seq<T> {
    if |s| <= most then s else s[|s| - most..]
  }

  lemma OneRowEarlier<Row, Line>(plan: Row -> seq<Line>, rows: seq<Row>, i: nat)
    requires i < |rows|
    ensures AllLines(plan, rows[i..]) == plan(rows[i]) + AllLines(plan, rows[i + 1..])
  {
    assert rows[i..][1..] == rows[i + 1..];
    var all := PlanAll(plan, rows[i..]);
    assert all[1..] == PlanAll(plan, rows[i + 1..]);
  }

  lemma FirstRow<Row, Line>(plan: Row -> seq<Line>, rows: seq<Row>)
    requires rows != []
    ensures AllLines(plan, rows) == plan(rows[0]) + AllLines(plan, rows[1..])
  {
    OneRowEarlier(plan, rows, 0);
    assert rows[0..] == rows;
  }

  lemma {:induction false} LinesOfBoth<Row, Line>(plan: Row -> seq<Line>, a: seq<Row>, b: seq<Row>)
    ensures AllLines(plan, a + b) == AllLines(plan, a) + AllLines(plan, b)
  {
    if a == [] {
      assert a + b == b;
    } else {
      hide AllLines;
      assert (a + b)[1..] == a[1..] + b;
      FirstRow(plan, a);
      FirstRow(plan, a + b);
      LinesOfBoth(plan, a[1..], b);
    }
  }

  /** What the rows behind `i` give is enough once there are `most` lines of it. */
  lemma EnoughBehind<Row, Line>(plan: Row -> seq<Line>, rows: seq<Row>, i: nat, most: nat)
    requires i <= |rows| && (i == 0 || |AllLines(plan, rows[i..])| >= most)
    ensures Last(AllLines(plan, rows[i..]), most) == Last(AllLines(plan, rows), most)
  {
    hide AllLines;
    assert rows == rows[..i] + rows[i..];
    LinesOfBoth(plan, rows[..i], rows[i..]);
    assert i == 0 ==> rows[i..] == rows;
  }

  method Tail<Row, Line>(plan: Row -> seq<Line>, rows: seq<Row>, most: nat) returns (lines: seq<Line>)
    ensures lines == Last(AllLines(plan, rows), most)
  {
    hide AllLines, Flatten, Joined, Last;
    NothingJoined<Line>();
    var chunks: seq<seq<Line>> := [];
    var total: nat, index: nat := 0, |rows|;
    NoRows(plan, rows);
    while index > 0 && total < most
      invariant index <= |rows| && total == |AllLines(plan, rows[index..])|
      invariant Joined(chunks) == AllLines(plan, rows[index..])
      decreases index
    {
      index := index - 1;
      var planned := plan(rows[index]);
      total := total + |planned|;
      OneRowEarlier(plan, rows, index);
      OneMoreChunk(chunks, planned);
      chunks := chunks + [planned];
    }
    EnoughBehind(plan, rows, index, most);
    lines := [];
    assert chunks[..|chunks|] == chunks;
    var k: nat := |chunks|;
    while k > 0
      invariant k <= |chunks| && Joined(chunks) == lines + Joined(chunks[..k])
    {
      k := k - 1;
      OneMoreChunk(chunks[..k], chunks[k]);
      assert chunks[..k + 1] == chunks[..k] + [chunks[k]];
      assert lines + (chunks[k] + Joined(chunks[..k])) == lines + chunks[k] + Joined(chunks[..k]);
      lines := lines + chunks[k];
    }
    assert chunks[..0] == [] && lines + [] == lines;
    LastIs(lines, most);
    if |lines| > most {
      lines := lines[|lines| - most..];
    }
  }

  lemma NothingJoined<T>()
    ensures Joined<T>([]) == []
  {
  }

  lemma LastIs<T>(s: seq<T>, n: nat)
    ensures Last(s, n) == if |s| > n then s[|s| - n..] else s
  {
  }

  /** Chunks in the order they were planned, the last row's first. */
  function Joined<T>(chunks: seq<seq<T>>): seq<T> {
    if chunks == [] then [] else chunks[|chunks| - 1] + Joined(chunks[..|chunks| - 1])
  }

  lemma OneMoreChunk<T>(chunks: seq<seq<T>>, chunk: seq<T>)
    ensures Joined(chunks + [chunk]) == chunk + Joined(chunks)
  {
    assert (chunks + [chunk])[..|chunks|] == chunks;
  }

  lemma NoRows<Row, Line>(plan: Row -> seq<Line>, rows: seq<Row>)
    ensures AllLines(plan, rows[|rows|..]) == []
  {
  }
}
