/** Where the promises of the wrapper end: exactly which emitted lines are broken again when they are wrapped on their
    own, exactly when every line fits, and exactly when an empty line comes out. */
module WrapLimits {
  import opened CellLayout
  import opened WrapTheorems

  // ----- wrapping again

  /** Some glyph from `a` up to `b` is too wide for one column. */
  ghost predicate WideWithin(line: seq<Glyph>, a: nat, b: nat)
    requires a <= b <= |line|
  {
    exists k :: a <= k < b && line[k].Wide()
  }

  /** The first break of a line, and how the line after it is opened. */
  lemma BreakAt(line: seq<Glyph>, cols: nat, s: nat, placed: bool) returns (c: nat, placedNext: bool)
    requires s <= |line| && (placed ==> s < |line|) && Breaks(line, cols, s, placed) != []
    ensures s <= c < |line| && Breaks(line, cols, s, placed) == [c] + Breaks(line, cols, c, placedNext)
    ensures c == s ==> !placed && placedNext
    ensures forall j :: s <= j < c && (placed ==> s < j) ==> !Overflows(line, cols, s, j)
  {
    var k := FirstOverflow(line, cols, s, if placed then s + 1 else s);
    var t := TokenStart(line, k);
    if Column(line, t) > Column(line, s) {
      if t <= s { ColumnMonotone(line, t, s); }
      c, placedNext := t, false;
    } else {
      c, placedNext := k, true;
    }
  }

  /** A line on which nothing behind a placed glyph sticks out fits, or the placed glyph is wider than the only column. */
  lemma PlacedLineFits(line: seq<Glyph>, cols: nat, s: nat, placed: bool, end: nat)
    requires cols >= 1 && s <= end <= |line| && (placed ==> s < end)
    requires forall j :: s <= j < end && (placed ==> s < j) ==> !Overflows(line, cols, s, j)
    ensures Fits(line, cols, s, end) || (cols == 1 && WideWithin(line, s, end))
  {
    if placed && Overflows(line, cols, s, s) {
      assert line[s].Wide();
    }
  }

  /** A line the wrapper emits fits, or holds a glyph wider than the only column. */
  lemma {:induction false} EmittedFits(line: seq<Glyph>, cols: nat, s: nat, placed: bool, i: nat)
    requires cols >= 1 && s <= |line| && (placed ==> s < |line|) && i <= |Breaks(line, cols, s, placed)|
    ensures var cuts := Breaks(line, cols, s, placed);
            var a, b := LineStart(cuts, s, i), LineEnd(cuts, |line|, i);
            a <= b <= |line| && (Fits(line, cols, a, b) || (cols == 1 && WideWithin(line, a, b)))
    decreases i
  {
    hide Fits, WideWithin, Overflows, FirstOverflow, TokenStart;
    if Breaks(line, cols, s, placed) == [] {
      assert FirstOverflow(line, cols, s, if placed then s + 1 else s) == |line|;
      hide Breaks;
      PlacedLineFits(line, cols, s, placed, |line|);
    } else {
      hide Breaks;
      var c, placedNext := BreakAt(line, cols, s, placed);
      if i > 0 {
        EmittedFits(line, cols, c, placedNext, i - 1);
      } else {
        PlacedLineFits(line, cols, s, placed, c);
      }
    }
  }

  /** The first tab from `a` up to `b`; `b` where there is none. */
  function FirstTab(line: seq<Glyph>, a: nat, b: nat): (f: nat)
    requires a <= b <= |line|
    ensures a <= f <= b && (f < b ==> line[f].kind.Tab?)
    ensures forall k :: a <= k < f ==> !line[k].kind.Tab?
    decreases b - a
  {
    if a == b || line[a].kind.Tab? then a else FirstTab(line, a + 1, b)
  }

  /** How much further right than before everything behind the first tab stands once the line is taken out of the hard
      line: nothing where it started at an even column. */
  function TabShift(line: seq<Glyph>, a: nat, b: nat, k: nat): int
    requires a <= b <= |line| && a <= k <= b
  {
    var f := FirstTab(line, a, b);
    if k <= f || Column(line, a) % TAB_SIZE == 0 then 0
    else if Column(line, f) % TAB_SIZE == 1 then 1
    else -1
  }

  lemma NextColumn(line: seq<Glyph>, k: nat)
    ensures Column(line, 0) == 0
    ensures k < |line| ==> Column(line, k + 1) == Advance(Column(line, k), line[k])
  {
  }

  /** One glyph, at column `col` of the hard line and at `col - start + shift` of the piece. */
  lemma Shifted(col: nat, start: nat, shift: int, g: Glyph)
    requires col - start + shift >= 0
    ensures !g.kind.Tab? || (shift - start) % TAB_SIZE == 0 ==>
              Advance(col - start + shift, g) == Advance(col, g) - start + shift
    ensures g.kind.Tab? && (shift - start) % TAB_SIZE == 1 ==>
              Advance(col - start + shift, g) == Advance(col, g) - start + shift + if col % TAB_SIZE == 1 then 1 else -1
  {
  }

  lemma ShiftSteps(line: seq<Glyph>, a: nat, b: nat, k: nat)
    requires a <= k < b <= |line|
    ensures var start, shift := Column(line, a), TabShift(line, a, b, k);
            if !line[k].kind.Tab? || (shift - start) % TAB_SIZE == 0 then TabShift(line, a, b, k + 1) == shift
            else TabShift(line, a, b, k + 1) == shift + if Column(line, k) % TAB_SIZE == 1 then 1 else -1
  {
    hide Column;
    var f := FirstTab(line, a, b);
    assert k < f ==> !line[k].kind.Tab?;
  }

  /** The columns of a piece on its own: those of the hard line, but for the one cell its first tab may gain or lose. */
  lemma {:induction false} PieceColumns(line: seq<Glyph>, a: nat, b: nat, k: nat)
    requires a <= k <= b <= |line|
    ensures Column(line[a..b], k - a) == Column(line, k) - Column(line, a) + TabShift(line, a, b, k)
    decreases k
  {
    hide FirstTab, Column;
    if k > a {
      var g, before := line[k - 1], Column(line, k - 1);
      PieceColumns(line, a, b, k - 1);
      assert line[a..b][k - 1 - a] == g;
      NextColumn(line, k - 1);
      NextColumn(line[a..b], k - 1 - a);
      Shifted(before, Column(line, a), TabShift(line, a, b, k - 1), g);
      ShiftSteps(line, a, b, k - 1);
    } else {
      NextColumn(line[a..b], 0);
    }
  }

  /** Out of the hard line the first tab is one cell wider, and a word behind it ended in the last column. */
  ghost predicate TabWidens(line: seq<Glyph>, cols: nat, a: nat, b: nat)
    requires a <= b <= |line|
  {
    var f := FirstTab(line, a, b);
    && f < b
    && Column(line, a) % TAB_SIZE == 1 && Column(line, f) % TAB_SIZE == 1
    && exists k :: f < k < b && !line[k].Blank() && Column(line, k + 1) - Column(line, a) == cols
  }

  /** A stretch that fits in its hard line fits on its own unless a tab in it widens. */
  lemma FittingPiece(line: seq<Glyph>, cols: nat, a: nat, b: nat)
    requires a <= b <= |line| && Fits(line, cols, a, b)
    ensures Fits(line[a..b], cols, 0, b - a) <==> !TabWidens(line, cols, a, b)
  {
    var piece := line[a..b];
    forall k | a <= k < b
      ensures Overflows(piece, cols, 0, k - a) <==>
              !line[k].Blank() && TabShift(line, a, b, k + 1) == 1 && Column(line, k + 1) - Column(line, a) == cols
    {
      PieceColumns(line, a, b, k + 1);
      assert piece[k - a] == line[k] && !Overflows(line, cols, a, k);
    }
    if TabWidens(line, cols, a, b) {
      var k :| FirstTab(line, a, b) < k < b && !line[k].Blank() && Column(line, k + 1) - Column(line, a) == cols;
      assert Overflows(piece, cols, 0, k - a);
    } else {
      forall j | 0 <= j < b - a
        ensures !Overflows(piece, cols, 0, j)
      {
        assert line[j + a].Blank() || FirstTab(line, a, b) != j + a;
      }
    }
  }

  lemma WidePieceBreaks(line: seq<Glyph>, a: nat, b: nat)
    requires a <= b <= |line| && WideWithin(line, a, b)
    ensures !Fits(line[a..b], 1, 0, b - a)
  {
    var k :| a <= k < b && line[k].Wide();
    assert line[a..b][k - a] == line[k];
    assert Overflows(line[a..b], 1, 0, k - a);
  }

  /** Idempotence, exactly: a line the wrapper emitted, wrapped again on its own at the same width, is one line unless a
      tab in it widens, or it holds a glyph wider than the only column. */
  lemma {:induction false} RewrapIsIdentityIff(line: seq<Glyph>, cols: nat, i: nat)
    requires cols >= 1 && i <= |LineBreaks(line, cols)|
    ensures var cuts := LineBreaks(line, cols);
            var a, b := LineStart(cuts, 0, i), LineEnd(cuts, |line|, i);
            && a <= b <= |line|
            && (LineBreaks(line[a..b], cols) == []
                <==> !TabWidens(line, cols, a, b) && !(cols == 1 && WideWithin(line, a, b)))
  {
    hide Breaks, Fits, TabWidens, WideWithin;
    var cuts := LineBreaks(line, cols);
    var a, b := LineStart(cuts, 0, i), LineEnd(cuts, |line|, i);
    EmittedFits(line, cols, 0, false, i);
    OneLineIffItFits(line[a..b], cols);
    if cols == 1 && WideWithin(line, a, b) {
      WidePieceBreaks(line, a, b);
    } else {
      FittingPiece(line, cols, a, b);
    }
  }

  ghost predicate TabFree(line: seq<Glyph>) {
    forall k :: 0 <= k < |line| ==> !line[k].kind.Tab?
  }

  /** Idempotence for what printable text is: no tabs, and room for every glyph. */
  lemma {:induction false} RewrapIsIdentity(line: seq<Glyph>, cols: nat, i: nat)
    requires Roomy(line, cols) && TabFree(line) && i <= |LineBreaks(line, cols)|
    ensures var cuts := LineBreaks(line, cols);
            var a, b := LineStart(cuts, 0, i), LineEnd(cuts, |line|, i);
            a <= b <= |line| && LineBreaks(line[a..b], cols) == []
  {
    hide Breaks;
    RewrapIsIdentityIff(line, cols, i);
  }

  /** Five columns cut `aaaa aa<tab>aa` in front of the second word, whose tab is one cell wide there and two cells wide
      at the start of a line. */
  lemma {:induction false} TabsCanSplitAgain()
    ensures var a := Glyph(Plain, 1, true);
            var line := [a, a, a, a, Glyph(Space, 1, true), a, a, Glyph(Tab, 0, true), a, a];
            && LineBreaks(line, 5) == [5]
            && LineBreaks(line[5..], 5) != []
  {
    var a := Glyph(Plain, 1, true);
    var line := [a, a, a, a, Glyph(Space, 1, true), a, a, Glyph(Tab, 0, true), a, a];
    EveryGlyphOneColumn(line, 10);
    hide Column;
    assert TokenStart(line, 5) == 5;
    FirstOverflowIs(line, 5, 0, 0, 5);
    FirstOverflowIs(line, 5, 5, 5, 10);
    assert FirstTab(line, 5, 10) == 7;
    assert !line[9].Blank() && Column(line, 9 + 1) - Column(line, 5) == 5;
    assert TabWidens(line, 5, 5, 10);
    hide TabWidens, TokenStart, FirstTab;
    RewrapIsIdentityIff(line, 5, 1);
    assert line[5..10] == line[5..];
  }

  /** Where every glyph goes one column on, as a tab does right in front of a stop. */
  lemma {:induction false} EveryGlyphOneColumn(line: seq<Glyph>, n: nat)
    requires n <= |line| && forall k :: 0 <= k < n ==> Advance(k, line[k]) == k + 1
    ensures forall k :: 0 <= k <= n ==> Column(line, k) == k
  {
    if n > 0 {
      EveryGlyphOneColumn(line, n - 1);
    }
  }

  // ----- lines that do not fit

  lemma {:induction false} FittingLinesHaveNoWide(line: seq<Glyph>, s: nat, cuts: seq<nat>, k: nat)
    requires s <= k < |line| && LinesFit(line, 1, s, cuts)
    ensures !line[k].Wide()
    decreases |cuts|
  {
    if cuts != [] && cuts[0] <= k {
      FittingLinesHaveNoWide(line, cuts[0], cuts[1..], k);
    } else {
      assert !Overflows(line, 1, s, k);
      ColumnMonotone(line, s, k);
    }
  }

  /** Every line the wrapper emits fits exactly when no glyph is wider than a whole line. */
  lemma LinesFitIff(line: seq<Glyph>, cols: nat)
    requires cols >= 1
    ensures LinesFit(line, cols, 0, LineBreaks(line, cols)) <==> Roomy(line, cols)
  {
    hide Breaks, LinesFit;
    if Roomy(line, cols) {
      BreaksFit(line, cols, 0, false);
    } else {
      var k :| 0 <= k < |line| && line[k].Wide();
      if LinesFit(line, 1, 0, LineBreaks(line, 1)) {
        FittingLinesHaveNoWide(line, 0, LineBreaks(line, 1), k);
      }
    }
  }

  // ----- empty lines

  /** A line that starts at `s` and is broken at `cuts` has an empty piece in front of some break. */
  predicate HasEmptyLine(s: nat, cuts: seq<nat>)
    decreases cuts
  {
    cuts != [] && (cuts[0] == s || HasEmptyLine(cuts[0], cuts[1..]))
  }

  /** The cells taken on a line of one column once glyph `k` is on it, given those taken before it: blanks hang, and a
      glyph that would stick out starts a line. */
  function TakenAfter(line: seq<Glyph>, k: nat, taken: nat): nat
    requires k < |line|
  {
    if line[k].Blank() then taken + (Advance(Column(line, k), line[k]) - Column(line, k))
    else if taken + line[k].cells > 1 then line[k].cells
    else taken + line[k].cells
  }

  /** From glyph `k` on, some wide glyph finds cells taken on its line. */
  predicate WideFindsCells(line: seq<Glyph>, k: nat, taken: nat)
    requires k <= |line|
    decreases |line| - k
  {
    k < |line| && ((line[k].Wide() && taken > 0) || WideFindsCells(line, k + 1, TakenAfter(line, k, taken)))
  }

  lemma TokenWideness(line: seq<Glyph>, k: nat)
    requires k < |line| && !line[k].Blank()
    ensures var t := TokenStart(line, k);
            && (line[k].Wide() ==> t == k)
            && (t < k ==> !line[t].Wide())
            && forall j :: t <= j <= k ==> !line[j].Blank()
  {
    var t := TokenStart(line, k);
    forall j | t <= j <= k
      ensures !line[j].Blank()
    {
      TokenIsUniform(line, t, k + 1, j);
      TokenIsUniform(line, t, k + 1, k);
    }
    assert t < k ==> !Cut(line, k) && !Cut(line, t + 1);
  }

  /** Glyphs without a width take nothing. */
  lemma {:induction false} NothingTaken(line: seq<Glyph>, t: nat, k: nat)
    requires t <= k <= |line| && Column(line, t) == Column(line, k)
    requires forall j :: t <= j < k ==> !line[j].Blank()
    ensures WideFindsCells(line, t, 0) <==> WideFindsCells(line, k, 0)
    decreases k - t
  {
    if t < k {
      ColumnMonotone(line, t + 1, k);
      NothingTaken(line, t + 1, k);
    }
  }

  /** The walk over a line of one column that started at `s`, from glyph `k` on; nothing before `k` sticks out. */
  lemma {:induction false} EmptyLineFrom(line: seq<Glyph>, s: nat, placed: bool, k: nat)
    requires s <= k <= |line| && (placed ==> s < k)
    requires forall j :: s <= j < k && (placed ==> s < j) ==> !Overflows(line, 1, s, j)
    ensures Column(line, s) <= Column(line, k)
    ensures HasEmptyLine(s, Breaks(line, 1, s, placed))
            <==> (k == s && s < |line| && line[s].Wide()) || WideFindsCells(line, k, Column(line, k) - Column(line, s))
    decreases |line| - s, if placed then 0 else 1, |line| - k
  {
    ColumnMonotone(line, s, k);
    var from := if placed then s + 1 else s;
    if k < |line| && !Overflows(line, 1, s, k) {
      EmptyLineFrom(line, s, placed, k + 1);
    } else {
      FirstOverflowIs(line, 1, s, from, k);
      if k < |line| {
        OverflowAt(line, s, placed, k);
      }
    }
  }

  lemma OneMoreBreak(s: nat, c: nat, rest: seq<nat>)
    ensures HasEmptyLine(s, [c] + rest) <==> c == s || HasEmptyLine(c, rest)
  {
    assert ([c] + rest)[1..] == rest;
  }

  /** Where glyph `k` moves to the next line with the word it stands in, it finds nothing taken there. */
  lemma {:induction false} WordMovesOn(line: seq<Glyph>, s: nat, t: nat, k: nat)
    requires s < t <= k < |line| && Column(line, s) < Column(line, t) && t == TokenStart(line, k)
    requires Overflows(line, 1, s, k) && forall j :: s < j < k ==> !Overflows(line, 1, s, j)
    ensures Column(line, s) < Column(line, k)
    ensures line[t].Wide() || WideFindsCells(line, t, 0)
            <==> WideFindsCells(line, k, Column(line, k) - Column(line, s))
  {
    TokenWideness(line, k);
    ColumnMonotone(line, t, k);
    hide TokenStart, Column;
    if t < k {
      NextColumn(line, k - 1);
      assert !Overflows(line, 1, s, k - 1);
      NothingTaken(line, t, k);
    }
    NextColumn(line, k);
  }

  /** Where it moves on alone it takes its own cells there, and is wide if nothing stood in front of it. */
  lemma GlyphMovesOn(line: seq<Glyph>, s: nat, k: nat)
    requires s <= k < |line| && Column(line, TokenStart(line, k)) <= Column(line, s) <= Column(line, k)
    requires Overflows(line, 1, s, k)
    ensures 0 <= Column(line, k + 1) - Column(line, k)
    ensures k == s || WideFindsCells(line, k + 1, Column(line, k + 1) - Column(line, k))
            <==> (k == s && line[s].Wide()) || WideFindsCells(line, k, Column(line, k) - Column(line, s))
  {
    NextColumn(line, k);
    TokenWideness(line, k);
    hide TokenStart, Column;
  }

  lemma {:induction false} OverflowAt(line: seq<Glyph>, s: nat, placed: bool, k: nat)
    requires s <= k < |line| && (placed ==> s < k)
    requires forall j :: s <= j < k && (placed ==> s < j) ==> !Overflows(line, 1, s, j)
    requires FirstOverflow(line, 1, s, if placed then s + 1 else s) == k && Column(line, s) <= Column(line, k)
    ensures HasEmptyLine(s, Breaks(line, 1, s, placed))
            <==> (k == s && line[s].Wide()) || WideFindsCells(line, k, Column(line, k) - Column(line, s))
    decreases |line| - s, if placed then 0 else 1, |line| - k, 0
  {
    hide HasEmptyLine;
    var t := TokenStart(line, k);
    assert Overflows(line, 1, s, k);
    if Column(line, t) > Column(line, s) {
      if t <= s { ColumnMonotone(line, t, s); }
      assert Breaks(line, 1, s, placed) == [t] + Breaks(line, 1, t, false);
      hide Breaks, TokenStart, FirstOverflow, Overflows, Column, WideFindsCells;
      EmptyLineFrom(line, t, false, t);
      OneMoreBreak(s, t, Breaks(line, 1, t, false));
      WordMovesOn(line, s, t, k);
    } else {
      assert Breaks(line, 1, s, placed) == [k] + Breaks(line, 1, k, true);
      GlyphMovesOn(line, s, k);
      hide Breaks, TokenStart, FirstOverflow, Overflows, Column, WideFindsCells;
      EmptyLineFrom(line, k, true, k + 1);
      OneMoreBreak(s, k, Breaks(line, 1, k, true));
    }
  }

  /** At one column an empty line comes out exactly when the first glyph is wide, or a wide glyph finds cells taken on its
      line. */
  lemma EmptyLineIff(line: seq<Glyph>)
    ensures HasEmptyLine(0, LineBreaks(line, 1)) <==> (line != [] && line[0].Wide()) || WideFindsCells(line, 0, 0)
  {
    EmptyLineFrom(line, 0, false, 0);
  }

  lemma {:induction false} EveryGlyphTakes(line: seq<Glyph>, k: nat, taken: nat)
    requires k <= |line| && taken > 0 && forall j :: 0 <= j < |line| && !line[j].Blank() ==> line[j].cells > 0
    ensures WideFindsCells(line, k, taken) <==> WideWithin(line, k, |line|)
    decreases |line| - k
  {
    if k < |line| {
      EveryGlyphTakes(line, k + 1, TakenAfter(line, k, taken));
      if j :| k <= j < |line| && line[j].Wide() {
        assert j > k ==> WideWithin(line, k + 1, |line|);
      }
    }
  }

  /** Where every glyph has a width, an empty line comes out exactly when there is a wide one. */
  lemma EmptyLineIffWide(line: seq<Glyph>)
    requires forall j :: 0 <= j < |line| && !line[j].Blank() ==> line[j].cells > 0
    ensures HasEmptyLine(0, LineBreaks(line, 1)) <==> WideWithin(line, 0, |line|)
  {
    EmptyLineIff(line);
    if line != [] {
      EveryGlyphTakes(line, 1, TakenAfter(line, 0, 0));
      if j :| 0 <= j < |line| && line[j].Wide() {
        assert j > 0 ==> WideWithin(line, 1, |line|);
      }
    }
  }

  /** A wide glyph alone at one column: an empty line, and the glyph on the next. */
  lemma WideGlyphAtOneColumn(g: Glyph)
    requires g.Wide()
    ensures LineBreaks([g], 1) == [0]
  {
    var line := [g];
    FirstOverflowIs(line, 1, 0, 0, 0);
    FirstOverflowIs(line, 1, 0, 1, 1);
    assert Breaks(line, 1, 0, true) == [];
  }

  /** A wide glyph that opens the line gets an empty line in front of it. One behind glyphs without a width does not, nor
      one that such a glyph carried to the next line. */
  lemma {:induction false} EmptyLineExamples()
    ensures var zero, wide := Glyph(Plain, 0, true), Glyph(Plain, 2, false);
            && HasEmptyLine(0, LineBreaks([wide], 1))
            && !HasEmptyLine(0, LineBreaks([zero, wide], 1))
            && !HasEmptyLine(0, LineBreaks([Glyph(Plain, 1, true), Glyph(Space, 1, true), zero, wide], 1))
  {
    var zero, wide := Glyph(Plain, 0, true), Glyph(Plain, 2, false);
    var three := [Glyph(Plain, 1, true), Glyph(Space, 1, true), zero, wide];
    hide Breaks;
    EmptyLineIff([wide]);
    EmptyLineIff([zero, wide]);
    EmptyLineIff(three);
    assert !WideFindsCells([zero, wide], 2, 2) && !WideFindsCells([zero, wide], 1, 0);
    assert Column(three, 1) == 1;
    assert !WideFindsCells(three, 4, 2) && !WideFindsCells(three, 3, 0);
    assert !WideFindsCells(three, 2, 2);
  }
}
