/** What the wrapper does to a plain ASCII line, said in its characters alone. */
module AsciiText {
  import opened Utf8
  import opened CellLayout
  import opened Cells
  import opened WrapTheorems
  import opened CellText

  /** No token ends behind character `a` up to character `b`. */
  ghost predicate OneToken(line: string, a: nat, b: nat)
    requires a <= b < |line|
  {
    forall k :: a < k <= b ==> !TokenEnds(line, k)
  }

  /** The line that starts at character `a` ends in front of `b`: blanks at its end aside it takes at most `cols` characters,
      with the next word up to some character of it would take more, and that word starts at `b`, or is too long for any
      line and fills this one. */
  ghost predicate LineEndsAt(line: string, cols: nat, a: nat, b: nat) {
    && a < b <= |line|
    && (forall k :: a <= k < b && line[k] != ' ' ==> k < a + cols)
    && (b < |line| ==>
          && line[b] != ' '
          && (exists e :: b <= e < |line| && a + cols <= e && OneToken(line, b, e))
          && (TokenEnds(line, b) || (b == a + cols && OneToken(line, a, b))))
  }

  /** The byte ranges of the lines from character `a` on; in plain ASCII a character is a byte. */
  ghost predicate AsciiLines(line: string, cols: nat, base: nat, a: nat, ranges: seq<Range>)
    decreases |ranges|
  {
    && ranges != [] && ranges[0].start == base + a && ranges[0].end > base
    && var b := ranges[0].end - base;
       && LineEndsAt(line, cols, a, b)
       && if |ranges| == 1 then b == |line| else AsciiLines(line, cols, base, b, ranges[1..])
  }

  // ----- characters as glyphs

  /** Glyphs that are the characters of a plain ASCII line to the layout. */
  ghost predicate AreAscii(line: string, glyphs: seq<Glyph>) {
    && |glyphs| == |line|
    && (forall k :: 0 <= k < |line| ==> !glyphs[k].Wide() && (glyphs[k].Blank() <==> line[k] == ' '))
    && (forall k :: 0 <= k <= |line| ==> Column(glyphs, k) == k)
    && (forall k :: 0 < k < |line| ==> (Cut(glyphs, k) <==> TokenEnds(line, k)))
  }

  lemma {:induction false} AsciiLineGlyphs(u: Unicode, line: string)
    requires u.Valid() && Printable(line)
    ensures AreAscii(line, LineGlyphs(u, line))
  {
    hide LineGlyphs, Unicode.Valid, Cut, TokenEnds, Column;
    var glyphs := LineGlyphs(u, line);
    AsciiLength(u, line);
    forall k | 0 <= k < |line|
      ensures !glyphs[k].Wide() && (glyphs[k].Blank() <==> line[k] == ' ')
    {
      AsciiGlyph(u, line, k);
    }
    forall k | 0 <= k <= |line|
      ensures Column(glyphs, k) == k
    {
      AsciiColumns(u, line, k);
    }
    forall k | 0 < k < |line|
      ensures Cut(glyphs, k) <==> TokenEnds(line, k)
    {
      AsciiCut(u, line, k);
    }
  }

  lemma {:induction false} AsciiOffset(line: string, k: nat)
    requires Printable(line) && k <= |line|
    ensures Offset(Singles(line), k) == k
  {
    if k > 0 {
      AsciiOffset(line, k - 1);
      assert Singles(line)[k - 1] == [line[k - 1]];
      assert ' ' <= line[k - 1] <= '~';
      OneByte(line[k - 1]);
    }
  }

  lemma OneByte(c: char)
    requires c <= '~'
    ensures |Encode([c])| == 1
  {
    assert [c][1..] == "";
  }

  // ----- breaks

  /** The break behind a line that starts at `s`. */
  lemma {:induction false} BreakOfAscii(line: string, glyphs: seq<Glyph>, cols: nat, s: nat, placed: bool) returns (c: nat, placedNext: bool)
    requires AreAscii(line, glyphs) && cols >= 1 && s < |line| && Breaks(glyphs, cols, s, placed) != []
    ensures s < c < |line| && Breaks(glyphs, cols, s, placed) == [c] + Breaks(glyphs, cols, c, placedNext)
    ensures LineEndsAt(line, cols, s, c)
  {
    hide Column, Cut, TokenEnds;
    NoOverflowAtStart(glyphs, cols, s);
    var k := FirstOverflow(glyphs, cols, s, if placed then s + 1 else s);
    var t := TokenStart(glyphs, k);
    TokenIsUniform(glyphs, t, k + 1, k);
    forall j | t <= j <= k
      ensures line[j] != ' '
    {
      TokenIsUniform(glyphs, t, k + 1, j);
    }
    assert forall j :: t < j <= k ==> !Cut(glyphs, j);
    if t > s {
      c, placedNext := t, false;
    } else {
      c, placedNext := k, true;
      assert !Overflows(glyphs, cols, s, k - 1);
      assert k == s + cols;
    }
    assert OneToken(line, c, k);
    forall j | s <= j < c && line[j] != ' '
      ensures j < s + cols
    {
      assert !Overflows(glyphs, cols, s, j);
    }
  }

  lemma {:induction false} LastOfAscii(line: string, glyphs: seq<Glyph>, cols: nat, s: nat, placed: bool)
    requires AreAscii(line, glyphs) && cols >= 1 && s < |line| && Breaks(glyphs, cols, s, placed) == []
    ensures LineEndsAt(line, cols, s, |line|)
  {
    hide Cut, TokenEnds;
    NoBreak(glyphs, cols, s, placed);
    forall j | s <= j < |line| && line[j] != ' '
      ensures j < s + cols
    {
      assert !Overflows(glyphs, cols, s, j);
    }
  }

  lemma {:induction false} BreaksOfAscii(line: string, glyphs: seq<Glyph>, cols: nat, base: nat, s: nat, placed: bool)
    requires AreAscii(line, glyphs) && Printable(line) && cols >= 1 && s < |line|
    ensures AsciiLines(line, cols, base, s, RangesFrom(Singles(line), s, Breaks(glyphs, cols, s, placed), base))
    decreases |line| - s
  {
    hide AreAscii, Printable, LineEndsAt, Offset, Singles;
    SameLength(line, glyphs);
    AsciiOffset(line, s);
    var cuts := Breaks(glyphs, cols, s, placed);
    if cuts == [] {
      AsciiOffset(line, |line|);
      LastOfAscii(line, glyphs, cols, s, placed);
    } else {
      var c, placedNext := BreakOfAscii(line, glyphs, cols, s, placed);
      hide Breaks;
      AsciiOffset(line, c);
      BreaksOfAscii(line, glyphs, cols, base, c, placedNext);
      assert cuts[1..] == Breaks(glyphs, cols, c, placedNext);
      var ranges := RangesFrom(Singles(line), s, cuts, base);
      assert ranges[1..] == RangesFrom(Singles(line), c, cuts[1..], base);
    }
  }

  lemma SameLength(line: string, glyphs: seq<Glyph>)
    requires AreAscii(line, glyphs)
    ensures |glyphs| == |Singles(line)| == |line|
  {
  }

  /** The lines a plain ASCII line is wrapped into, told from its characters. */
  lemma {:induction false} AsciiWraps(u: Unicode, line: string, cols: nat, base: nat)
    requires u.Valid() && Printable(line) && cols >= 1
    ensures if line == "" then LineRanges(u, line, cols, base) == [Range(base, base)]
            else AsciiLines(line, cols, base, 0, LineRanges(u, line, cols, base))
  {
    hide Unicode.Valid, AreAscii, LineGlyphs, AsciiLines, Breaks;
    assert u.graphemes(line) == Singles(line) by { AsciiClusters(u, line); }
    AsciiLineGlyphs(u, line);
    if line == "" {
      EmptyLine(u, line, cols, base);
    } else {
      BreaksOfAscii(line, LineGlyphs(u, line), cols, base, 0, false);
    }
  }

  lemma AsciiClusters(u: Unicode, line: string)
    requires u.Valid() && Printable(line)
    ensures u.graphemes(line) == Singles(line)
  {
    assert u.SplitsUp(line);
  }
}
