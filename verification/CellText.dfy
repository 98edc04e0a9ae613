/** Whole texts: `wrapped_ranges` and `clipped`, and what the wrapper's byte ranges are worth to someone who holds the
    text they point into. */
module CellText {
  import opened Utf8
  import opened CellLayout
  import opened Cells
  import opened WrapTheorems
  import opened WrapLimits

  // ----- clusters and bytes

  lemma {:induction false} JoinedSplit(cs: seq<string>, a: nat, b: nat)
    requires a <= b <= |cs|
    ensures Joined(cs[..b]) == Joined(cs[..a]) + Joined(cs[a..b])
  {
    if a < b {
      JoinedSplit(cs, a, b - 1);
      assert cs[..b][..b - 1] == cs[..b - 1];
      assert cs[a..b][..b - 1 - a] == cs[a..b - 1];
    } else {
      assert cs[a..b] == [];
    }
  }

  lemma {:induction false} OffsetIsPrefixLength(cs: seq<string>, k: nat)
    requires k <= |cs|
    ensures Offset(cs, k) == |Encode(Joined(cs[..k]))|
  {
    if k > 0 {
      OffsetIsPrefixLength(cs, k - 1);
      assert cs[..k][..k - 1] == cs[..k - 1];
      EncodeAppend(Joined(cs[..k - 1]), cs[k - 1]);
    }
  }

  /** Cutting the encoded line at two cluster offsets gives the encoding of the clusters between them. */
  lemma SliceOfLine(cs: seq<string>, a: nat, b: nat)
    requires a <= b <= |cs|
    ensures Offset(cs, a) <= Offset(cs, b) <= |Encode(Joined(cs))|
    ensures Encode(Joined(cs))[Offset(cs, a)..Offset(cs, b)] == Encode(Joined(cs[a..b]))
  {
    var n := |cs|;
    OffsetIsPrefixLength(cs, a);
    OffsetIsPrefixLength(cs, b);
    JoinedSplit(cs, a, b);
    EncodeAppend(Joined(cs[..a]), Joined(cs[a..b]));
    JoinedSplit(cs, b, n);
    assert cs[..n] == cs;
    EncodeAppend(Joined(cs[..b]), Joined(cs[b..n]));
  }

  lemma ClustersTakeBytes(cs: seq<string>, a: nat, b: nat)
    requires a < b <= |cs| && forall i :: 0 <= i < |cs| ==> cs[i] != ""
    ensures Offset(cs, a) < Offset(cs, b)
  {
    SliceOfLine(cs, a, b - 1);
    assert |Encode(cs[b - 1])| >= |cs[b - 1]|;
  }

  // ----- partition

  ghost predicate Ascends(cuts: seq<nat>, s: nat, n: nat, strict: bool)
    decreases |cuts|
  {
    var next := if cuts == [] then n else cuts[0];
    && (if strict then s < next else s <= next)
    && (cuts == [] || Ascends(cuts[1..], cuts[0], n, strict))
  }

  /** Breaks never go back, whatever the width; on a roomy line they move on every time. */
  lemma {:induction false} BreaksAscend(line: seq<Glyph>, cols: nat, s: nat, placed: bool)
    requires s <= |line| && (placed ==> s < |line|)
    ensures Ascends(Breaks(line, cols, s, placed), s, |line|, false)
    ensures Roomy(line, cols) && s < |line| ==> Ascends(Breaks(line, cols, s, placed), s, |line|, true)
    decreases |line| - s, if placed then 0 else 1
  {
    var k := FirstOverflow(line, cols, s, if placed then s + 1 else s);
    if s < |line| && Roomy(line, cols) {
      FirstOverflowFromStart(line, cols, s);
    }
    if k < |line| {
      var t := TokenStart(line, k);
      if Column(line, t) > Column(line, s) {
        if t <= s { ColumnMonotone(line, t, s); }
        BreaksAscend(line, cols, t, false);
      } else {
        BreaksAscend(line, cols, k, true);
      }
    }
  }

  /** `ranges` cover the bytes from `from` to `to` in order and without gaps. */
  ghost predicate Partition(ranges: seq<Range>, from: nat, to: nat, nonEmpty: bool) {
    && ranges != []
    && ranges[0].start == from
    && (if nonEmpty then from < ranges[0].end else from <= ranges[0].end)
    && if |ranges| == 1 then ranges[0].end == to else Partition(ranges[1..], ranges[0].end, to, nonEmpty)
  }

  lemma PrependRange(r: Range, rest: seq<Range>, to: nat, nonEmpty: bool)
    requires Partition(rest, r.end, to, nonEmpty) && (if nonEmpty then r.start < r.end else r.start <= r.end)
    ensures Partition([r] + rest, r.start, to, nonEmpty)
  {
    assert ([r] + rest)[1..] == rest;
  }

  lemma {:induction false} RangesPartition(cs: seq<string>, s: nat, cuts: seq<nat>, base: nat, strict: bool)
    requires forall i :: 0 <= i < |cs| ==> cs[i] != ""
    requires s <= |cs| && Ascends(cuts, s, |cs|, strict)
    ensures Partition(RangesFrom(cs, s, cuts, base), base + Offset(cs, s), base + Offset(cs, |cs|), strict)
    decreases |cuts|
  {
    hide Encode, Joined, Offset;
    var next := if cuts == [] then |cs| else cuts[0];
    AscendsWithin(cuts, s, |cs|, strict);
    SliceOfLine(cs, s, next);
    if strict {
      ClustersTakeBytes(cs, s, next);
    }
    if cuts != [] {
      RangesPartition(cs, cuts[0], cuts[1..], base, strict);
      PrependRange(RangeOf(cs, s, cuts[0], base), RangesFrom(cs, cuts[0], cuts[1..], base),
                   base + Offset(cs, |cs|), strict);
    }
  }

  lemma {:induction false} AscendsWithin(cuts: seq<nat>, s: nat, n: nat, strict: bool)
    requires Ascends(cuts, s, n, strict)
    ensures s <= n && (cuts != [] ==> s <= cuts[0] <= n)
    decreases |cuts|
  {
    if cuts != [] {
      AscendsWithin(cuts[1..], cuts[0], n, strict);
    }
  }

  /** The clusters of a line are non-empty, spell it out, and take all its bytes. */
  lemma {:induction false} ClustersOf(u: Unicode, line: string)
    requires u.Valid()
    ensures var cs := u.graphemes(line);
            && Joined(cs) == line
            && (forall i :: 0 <= i < |cs| ==> cs[i] != "")
            && Offset(cs, 0) == 0 && Offset(cs, |cs|) == |Encode(line)|
            && (line != "" ==> cs != [])
  {
    var cs := u.graphemes(line);
    assert u.SplitsUp(line);
    OffsetIsPrefixLength(cs, |cs|);
    assert cs[..|cs|] == cs;
  }

  /** The ranges of a hard line cover its bytes in order and without gaps at any width, and at every width but one
      column none of them is empty; nor is any at one column when the line has no wide glyph. */
  lemma WrapPartitions(u: Unicode, line: string, cols: nat, base: nat)
    requires u.Valid()
    ensures Partition(LineRanges(u, line, cols, base), base, base + |Encode(line)|,
                      line != "" && (cols == 0 || Roomy(LineGlyphs(u, line), cols)))
  {
    hide Unicode.Valid, Unicode.SplitsUp, Joined, Offset, Encode, Breaks, GlyphOf, Ascends;
    ClustersOf(u, line);
    if cols > 0 {
      var glyphs := LineGlyphs(u, line);
      BreaksAscend(glyphs, cols, 0, false);
      RangesPartition(u.graphemes(line), 0, LineBreaks(glyphs, cols), base, line != "" && Roomy(glyphs, cols));
    }
  }

  lemma {:induction false} RangesCount(cs: seq<string>, s: nat, cuts: seq<nat>, base: nat)
    ensures |RangesFrom(cs, s, cuts, base)| == |cuts| + 1
    decreases |cuts|
  {
    if cuts != [] {
      RangesCount(cs, cuts[0], cuts[1..], base);
    }
  }

  /** When every word of a line fits, no choice of breaks at token boundaries whose lines fit makes fewer lines than the
      wrapper emits. */
  lemma WrapEmitsFewestLines(u: Unicode, line: string, cols: nat, base: nat, other: seq<nat>)
    requires cols >= 1 && WordsFit(LineGlyphs(u, line), cols)
    requires Feasible(LineGlyphs(u, line), cols, 0, other)
    ensures |LineRanges(u, line, cols, base)| <= |other| + 1
  {
    hide Feasible, WordsFit, RangesFrom, LineGlyphs, LineBreaks;
    GreedyIsOptimal(LineGlyphs(u, line), cols, other);
    RangesCount(u.graphemes(line), 0, LineBreaks(LineGlyphs(u, line), cols), base);
  }

  // ----- rewrapping strings

  /** A piece of a line between two cluster boundaries shows the layout the glyphs it had in the line. */
  lemma PieceGlyphs(u: Unicode, line: string, a: nat, b: nat)
    requires u.Valid() && a <= b <= |u.graphemes(line)|
    ensures LineGlyphs(u, Joined(u.graphemes(line)[a..b])) == LineGlyphs(u, line)[a..b]
  {
    hide Unicode.SplitsUp, GlyphOf, Joined;
    assert u.SplitsLocally(line, a, b);
  }

  lemma {:induction false} ManyRanges(u: Unicode, line: string, cols: nat, base: nat)
    requires cols > 0
    ensures |LineRanges(u, line, cols, base)| == |LineBreaks(LineGlyphs(u, line), cols)| + 1
  {
    hide LineGlyphs, LineBreaks, RangesFrom;
    RangesCount(u.graphemes(line), 0, LineBreaks(LineGlyphs(u, line), cols), base);
  }

  /** Idempotence on strings, exactly: a line that came out of the wrapper wraps into itself, unless a tab in it widens or
      it holds a cluster wider than the only column. */
  lemma {:induction false} RewrapIff(u: Unicode, line: string, cols: nat, i: nat, base: nat)
    requires u.Valid() && cols >= 1
    requires i <= |LineBreaks(LineGlyphs(u, line), cols)|
    ensures var glyphs, cs := LineGlyphs(u, line), u.graphemes(line);
            var cuts := LineBreaks(glyphs, cols);
            var a, b := LineStart(cuts, 0, i), LineEnd(cuts, |glyphs|, i);
            && a <= b <= |cs|
            && (LineRanges(u, Joined(cs[a..b]), cols, base) == [Range(base, base + |Encode(Joined(cs[a..b]))|)]
                <==> !TabWidens(glyphs, cols, a, b) && !(cols == 1 && WideWithin(glyphs, a, b)))
  {
    hide Unicode.Valid, Joined, Encode, Breaks, LineRanges, TabWidens, WideWithin;
    var glyphs := LineGlyphs(u, line);
    var cuts := LineBreaks(glyphs, cols);
    RewrapIsIdentityIff(glyphs, cols, i);
    var a, b := LineStart(cuts, 0, i), LineEnd(cuts, |glyphs|, i);
    var piece := Joined(u.graphemes(line)[a..b]);
    PieceGlyphs(u, line, a, b);
    if LineBreaks(glyphs[a..b], cols) == [] {
      OneRange(u, piece, cols, base);
    } else {
      ManyRanges(u, piece, cols, base);
    }
  }

  /** Idempotence on strings: every line a plain ASCII line is wrapped into wraps into itself. */
  lemma {:induction false} RewrapAscii(u: Unicode, line: string, cols: nat, i: nat, base: nat)
    requires u.Valid() && Printable(line) && cols >= 1
    requires i <= |LineBreaks(LineGlyphs(u, line), cols)|
    ensures var cuts := LineBreaks(LineGlyphs(u, line), cols);
            var a, b := LineStart(cuts, 0, i), LineEnd(cuts, |line|, i);
            a <= b <= |line| && LineRanges(u, line[a..b], cols, base) == [Range(base, base + |Encode(line[a..b])|)]
  {
    hide Unicode.Valid, Unicode.SplitsUp, Joined, Offset, Encode, Breaks, GlyphOf, LineRanges, Roomy, TabFree, Printable;
    AsciiGlyphs(u, line);
    var glyphs := LineGlyphs(u, line);
    var cuts := LineBreaks(glyphs, cols);
    RewrapIsIdentity(glyphs, cols, i);
    var a, b := LineStart(cuts, 0, i), LineEnd(cuts, |line|, i);
    var piece := line[a..b];
    AsciiSlice(line, a, b);
    AsciiGlyphs(u, piece);
    assert LineGlyphs(u, piece) == glyphs[a..b];
    OneRange(u, piece, cols, base);
  }

  lemma AsciiSlice(line: string, a: nat, b: nat)
    requires Printable(line) && a <= b <= |line|
    ensures Printable(line[a..b])
  {
  }

  lemma OneRange(u: Unicode, line: string, cols: nat, base: nat)
    requires u.Valid() && cols > 0 && LineBreaks(LineGlyphs(u, line), cols) == []
    ensures LineRanges(u, line, cols, base) == [Range(base, base + |Encode(line)|)]
  {
    hide Unicode.Valid, Unicode.SplitsUp, Joined, Offset, Encode, Breaks, GlyphOf;
    ClustersOf(u, line);
  }

  /** On plain ASCII every character is a glyph of one cell, and none is a tab. */
  lemma {:induction false} AsciiGlyphs(u: Unicode, line: string)
    requires u.Valid() && Printable(line)
    ensures var glyphs := LineGlyphs(u, line);
            && |glyphs| == |line|
            && (forall i :: 0 <= i < |line| ==> glyphs[i] == GlyphOf(u, [line[i]], true))
            && (forall cols :: cols >= 1 ==> Roomy(glyphs, cols))
            && TabFree(glyphs)
  {
    FastPathIsSlowPath(u, line);
    PlainIsPrintable(line);
    assert LineGlyphs(u, line) == Glyphs(u, Singles(line), true);
  }

  // ----- texts

  /** The pieces of `text` between newlines. */
  function HardLines(text: string): (r: seq<string>)
    ensures r != []
  {
    if text == "" then
      [""]
    else
      var rest := HardLines(text[1..]);
      if text[0] == '\n' then [""] + rest else [[text[0]] + rest[0]] + rest[1..]
  }

  function JoinLines(lines: seq<string>): string
    requires lines != []
  {
    if |lines| == 1 then lines[0] else lines[0] + "\n" + JoinLines(lines[1..])
  }

  lemma {:induction false} JoinHardLines(text: string)
    ensures JoinLines(HardLines(text)) == text
  {
    if text != "" {
      var rest := HardLines(text[1..]);
      JoinHardLines(text[1..]);
      assert [text[0]] + text[1..] == text;
      if text[0] == '\n' {
        assert ([""] + rest)[1..] == rest;
      } else {
        assert ([[text[0]] + rest[0]] + rest[1..])[1..] == rest[1..];
        if |rest| > 1 {
          assert [text[0]] + rest[0] + "\n" + JoinLines(rest[1..]) == [text[0]] + (rest[0] + "\n" + JoinLines(rest[1..]));
        }
      }
    }
  }

  /** Hard lines are what stands between the newlines: none holds one, and joined by newlines they are the text. */
  lemma {:induction false} HardLinesAre(text: string)
    ensures JoinLines(HardLines(text)) == text
    ensures forall i :: 0 <= i < |HardLines(text)| ==> '\n' !in HardLines(text)[i]
  {
    JoinHardLines(text);
    if text != "" {
      HardLinesAre(text[1..]);
    }
  }

  ghost function TextRanges(u: Unicode, lines: seq<string>, cols: nat, base: nat): seq<Range> {
    if lines == [] then
      []
    else
      LineRanges(u, lines[0], cols, base) + TextRanges(u, lines[1..], cols, base + |Encode(lines[0])| + 1)
  }

  lemma FirstLineRanges(u: Unicode, lines: seq<string>, i: nat, cols: nat, base: nat, out: seq<Range>)
    requires i < |lines|
    ensures out + TextRanges(u, lines[i..], cols, base)
         == out + LineRanges(u, lines[i], cols, base)
            + TextRanges(u, lines[i + 1..], cols, base + |Encode(lines[i])| + 1)
  {
    hide LineRanges, Encode;
    assert lines[i..][1..] == lines[i + 1..];
  }

  method WrappedRanges(u: Unicode, text: string, cols: nat) returns (out: seq<Range>)
    requires u.Valid()
    ensures out == TextRanges(u, HardLines(text), cols, 0)
  {
    hide Unicode.Valid, LineRanges, Encode, HardLines;
    out := [];
    var base: nat := 0;
    var lines := HardLines(text);
    assert lines[0..] == lines;
    for i := 0 to |lines|
      invariant out + TextRanges(u, lines[i..], cols, base) == TextRanges(u, lines, cols, 0)
    {
      FirstLineRanges(u, lines, i, cols, base, out);
      hide TextRanges;
      var exact;
      out, exact := WrapInto(u, lines[i], cols, base, out);
      base := base + |Encode(lines[i])| + 1;
    }
  }

  /** The bytes that ranges pick out of `bytes`, one after the other. */
  ghost function Picked(bytes: seq<byte>, ranges: seq<Range>): seq<byte> {
    if ranges == [] then
      []
    else
      var r := ranges[0];
      (if r.start <= r.end <= |bytes| then bytes[r.start..r.end] else []) + Picked(bytes, ranges[1..])
  }

  lemma {:induction false} PartitionPicksAll(bytes: seq<byte>, ranges: seq<Range>, from: nat, to: nat, nonEmpty: bool)
    requires Partition(ranges, from, to, nonEmpty) && to <= |bytes|
    ensures from <= to && Picked(bytes, ranges) == bytes[from..to]
    decreases |ranges|
  {
    if |ranges| > 1 {
      PartitionPicksAll(bytes, ranges[1..], ranges[0].end, to, nonEmpty);
    } else {
      assert Picked(bytes, ranges[1..]) == [];
    }
  }

  /** The text read back through the ranges: each hard line's pieces in a row, newlines between hard lines. */
  ghost function ReadBack(u: Unicode, bytes: seq<byte>, lines: seq<string>, cols: nat, base: nat): seq<byte>
    requires lines != []
  {
    var first := Picked(bytes, LineRanges(u, lines[0], cols, base));
    if |lines| == 1 then
      first
    else
      first + [0x0A] + ReadBack(u, bytes, lines[1..], cols, base + |Encode(lines[0])| + 1)
  }

  lemma LineReadsBack(u: Unicode, bytes: seq<byte>, line: string, cols: nat, base: nat)
    requires u.Valid() && base + |Encode(line)| <= |bytes|
    ensures Picked(bytes, LineRanges(u, line, cols, base)) == bytes[base..base + |Encode(line)|]
  {
    hide Unicode.Valid, LineRanges, Encode, Picked, Partition, Roomy;
    WrapPartitions(u, line, cols, base);
    PartitionPicksAll(bytes, LineRanges(u, line, cols, base), base, base + |Encode(line)|,
                      line != "" && (cols == 0 || Roomy(LineGlyphs(u, line), cols)));
  }

  /** Bytes that start with a line, a newline and more, taken apart. */
  lemma SplitBytes(bytes: seq<byte>, base: nat, first: seq<byte>, rest: seq<byte>)
    requires base <= |bytes| && bytes[base..] == first + [0x0A] + rest
    ensures base + |first| + 1 <= |bytes|
    ensures bytes[base..base + |first|] == first && bytes[base + |first| + 1..] == rest
  {
    assert bytes[base..base + |first|] == bytes[base..][..|first|];
    assert bytes[base + |first| + 1..] == bytes[base..][|first| + 1..];
  }

  lemma EncodeWithNewline(line: string, rest: string)
    ensures Encode(line + "\n" + rest) == Encode(line) + [0x0A] + Encode(rest)
  {
    EncodeAppend(line + "\n", rest);
    EncodeAppend(line, "\n");
    assert Encode("\n") == EncodeChar('\n') + Encode("");
  }

  lemma {:induction false} ReadBackFrom(u: Unicode, bytes: seq<byte>, lines: seq<string>, cols: nat, base: nat)
    requires u.Valid() && lines != [] && base <= |bytes| && bytes[base..] == Encode(JoinLines(lines))
    ensures ReadBack(u, bytes, lines, cols, base) == bytes[base..]
    decreases |lines|
  {
    hide Unicode.Valid, LineRanges, Encode, Picked;
    var line := lines[0];
    if |lines| > 1 {
      var rest := JoinLines(lines[1..]);
      EncodeWithNewline(line, rest);
      SplitBytes(bytes, base, Encode(line), Encode(rest));
      ReadBackFrom(u, bytes, lines[1..], cols, base + |Encode(line)| + 1);
    } else {
      assert bytes[base..base + |Encode(line)|] == bytes[base..];
    }
    LineReadsBack(u, bytes, line, cols, base);
  }

  /** Joining, with newlines, the hard lines read through `wrapped_ranges` gives back the text, byte for byte. */
  lemma WrappedTextReadsBack(u: Unicode, text: string, cols: nat)
    requires u.Valid()
    ensures ReadBack(u, Encode(text), HardLines(text), cols, 0) == Encode(text)
  {
    JoinHardLines(text);
    ReadBackFrom(u, Encode(text), HardLines(text), cols, 0);
  }

  // ----- clipping

  function WidthOf(u: Unicode, clusters: seq<string>, n: nat): nat
    requires n <= |clusters|
  {
    if n == 0 then 0 else WidthOf(u, clusters, n - 1) + ClusterCells(u, clusters[n - 1]).0
  }

  function TextWidth(u: Unicode, text: string): nat {
    WidthOf(u, u.graphemes(text), |u.graphemes(text)|)
  }

  lemma {:induction false} WidthMonotone(u: Unicode, clusters: seq<string>, a: nat, b: nat)
    requires a <= b <= |clusters|
    ensures WidthOf(u, clusters, a) <= WidthOf(u, clusters, b)
  {
    if a < b {
      WidthMonotone(u, clusters, a, b - 1);
    }
  }

  const ELLIPSIS: string := "\U{2026}"

  lemma NoWidth(u: Unicode, cs: seq<string>)
    ensures WidthOf(u, cs, 0) == 0 && Joined(cs[..0]) == ""
  {
  }

  lemma OneMoreCluster(u: Unicode, cs: seq<string>, k: nat)
    requires k < |cs|
    ensures WidthOf(u, cs, k + 1) == WidthOf(u, cs, k) + ClusterCells(u, cs[k]).0
    ensures Joined(cs[..k + 1]) == Joined(cs[..k]) + cs[k]
  {
    hide ClusterCells;
    assert cs[..k + 1][..k] == cs[..k];
  }

  lemma LongestFits(u: Unicode, cs: seq<string>, kept: nat, cells: nat)
    requires kept < |cs| && WidthOf(u, cs, kept) <= cells < WidthOf(u, cs, kept + 1)
    ensures forall n :: 0 <= n <= |cs| ==> (WidthOf(u, cs, n) <= cells <==> n <= kept)
  {
    hide WidthOf;
    forall n | 0 <= n <= |cs|
      ensures WidthOf(u, cs, n) <= cells <==> n <= kept
    {
      if n <= kept {
        WidthMonotone(u, cs, n, kept);
      } else {
        WidthMonotone(u, cs, kept + 1, n);
      }
    }
  }

  /** A text that fits is kept; one that does not becomes its longest prefix of whole clusters that leaves a cell for
      the ellipsis, and the ellipsis. */
  method Clipped(u: Unicode, text: string, cols: nat) returns (clipped: string, ghost kept: nat)
    requires u.Valid()
    ensures cols == 0 ==> clipped == ""
    ensures cols > 0 && TextWidth(u, text) <= cols ==> clipped == text
    ensures cols > 0 && TextWidth(u, text) > cols ==>
              var cs := u.graphemes(text);
              && kept < |cs| && clipped == Joined(cs[..kept]) + "\U{2026}"
              && (forall n :: 0 <= n <= |cs| ==> (WidthOf(u, cs, n) <= cols - 1 <==> n <= kept))
  {
    hide ClusterCells, WidthOf, Joined;
    kept := 0;
    if cols == 0 {
      return "", 0;
    }
    var cs := u.graphemes(text);
    assert u.SplitsUp(text);
    hide Unicode.Valid, Unicode.SplitsUp;
    var width: nat, i: nat := 0, 0;
    NoWidth(u, cs);
    while i < |cs| && width <= cols
      invariant i <= |cs| && width == WidthOf(u, cs, i)
    {
      OneMoreCluster(u, cs, i);
      width := width + ClusterCells(u, cs[i]).0;
      i := i + 1;
    }
    WidthMonotone(u, cs, i, |cs|);
    if width <= cols {
      return text, 0;
    }
    var head, used: nat, k: nat := "", 0, 0;
    while k < |cs| && used + ClusterCells(u, cs[k]).0 <= cols - 1
      invariant k <= |cs| && head == Joined(cs[..k])
      invariant used == WidthOf(u, cs, k) <= cols - 1
    {
      OneMoreCluster(u, cs, k);
      head := head + cs[k];
      used := used + ClusterCells(u, cs[k]).0;
      k := k + 1;
    }
    kept := k;
    if k < |cs| {
      OneMoreCluster(u, cs, k);
    }
    LongestFits(u, cs, kept, cols - 1);
    clipped := head + ELLIPSIS;
  }
}
