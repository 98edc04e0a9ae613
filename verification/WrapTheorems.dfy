/** What the breaks chosen by the wrapper are good for: lines are non-empty and fit, no choice of breaks at token
    boundaries needs fewer lines. */
module WrapTheorems {
  import opened CellLayout

  /** No glyph is wider than a whole line. */
  ghost predicate Roomy(line: seq<Glyph>, cols: nat) {
    cols >= 2 || (cols == 1 && forall k :: 0 <= k < |line| ==> !line[k].Wide())
  }

  lemma NoOverflowAtStart(line: seq<Glyph>, cols: nat, s: nat)
    requires Roomy(line, cols) && s < |line|
    ensures !Overflows(line, cols, s, s)
  {
  }

  /** On a roomy line whether a glyph was placed makes no difference: it fits anyway. */
  lemma FirstOverflowFromStart(line: seq<Glyph>, cols: nat, s: nat)
    requires Roomy(line, cols) && s < |line|
    ensures FirstOverflow(line, cols, s, s) == FirstOverflow(line, cols, s, s + 1) > s
  {
    NoOverflowAtStart(line, cols, s);
  }

  /** The next break of a line that starts at `s`, and how it opens the line after it. */
  lemma NextBreak(line: seq<Glyph>, cols: nat, s: nat, placed: bool) returns (c: nat, placedNext: bool)
    requires Roomy(line, cols) && s < |line| && Breaks(line, cols, s, placed) != []
    ensures s < c < |line| && Fits(line, cols, s, c)
    ensures Breaks(line, cols, s, placed) == [c] + Breaks(line, cols, c, placedNext)
  {
    FirstOverflowFromStart(line, cols, s);
    var k := FirstOverflow(line, cols, s, if placed then s + 1 else s);
    var t := TokenStart(line, k);
    if Column(line, t) > Column(line, s) {
      if t <= s { ColumnMonotone(line, t, s); }
      c, placedNext := t, false;
    } else {
      c, placedNext := k, true;
    }
  }

  lemma NoBreak(line: seq<Glyph>, cols: nat, s: nat, placed: bool)
    requires Roomy(line, cols) && s <= |line| && (placed ==> s < |line|) && Breaks(line, cols, s, placed) == []
    ensures Fits(line, cols, s, |line|)
  {
    if s < |line| {
      FirstOverflowFromStart(line, cols, s);
    }
  }

  lemma IncreasingCons(c: nat, rest: seq<nat>, s: nat, n: nat)
    requires s < c < n && Increasing(rest, c, n)
    ensures Increasing([c] + rest, s, n)
  {
  }

  /** Partition: the breaks strictly increase and lie strictly inside the line, so no line is empty. */
  lemma {:induction false} BreaksIncrease(line: seq<Glyph>, cols: nat, s: nat, placed: bool)
    requires Roomy(line, cols) && s <= |line| && (placed ==> s < |line|)
    ensures Increasing(Breaks(line, cols, s, placed), s, |line|)
    decreases |line| - s
  {
    if s < |line| && Breaks(line, cols, s, placed) != [] {
      hide Breaks, Increasing;
      var c, placedNext := NextBreak(line, cols, s, placed);
      BreaksIncrease(line, cols, c, placedNext);
      IncreasingCons(c, Breaks(line, cols, c, placedNext), s, |line|);
    }
  }

  /** Fit: every line is at most `cols` wide once its trailing blanks are ignored. */
  lemma {:induction false} BreaksFit(line: seq<Glyph>, cols: nat, s: nat, placed: bool)
    requires Roomy(line, cols) && s <= |line| && (placed ==> s < |line|)
    ensures LinesFit(line, cols, s, Breaks(line, cols, s, placed))
    decreases |line| - s
  {
    if s < |line| && Breaks(line, cols, s, placed) != [] {
      hide Breaks, Fits;
      var c, placedNext := NextBreak(line, cols, s, placed);
      BreaksFit(line, cols, c, placedNext);
      assert ([c] + Breaks(line, cols, c, placedNext))[1..] == Breaks(line, cols, c, placedNext);
    } else {
      NoBreak(line, cols, s, placed);
    }
  }

  // ----- greedy is optimal

  /** Every word token fits on a line of its own: measured at each of its glyphs, so also at its last. */
  ghost predicate WordsFit(line: seq<Glyph>, cols: nat) {
    forall k :: 0 <= k < |line| && !line[k].Blank() ==>
      Column(line, k + 1) - Column(line, TokenStart(line, k)) <= cols
  }

  /** A line of words that fit is roomy: a wide glyph is a word of its own. */
  lemma WordsFitIsRoomy(line: seq<Glyph>, cols: nat)
    requires cols >= 1 && WordsFit(line, cols)
    ensures Roomy(line, cols)
  {
    forall k | 0 <= k < |line| && line[k].Wide()
      ensures cols >= 2
    {
      assert Column(line, k + 1) - Column(line, TokenStart(line, k)) <= cols;
      ColumnMonotone(line, TokenStart(line, k), k);
    }
  }

  /** A choice of breaks at token boundaries whose lines all fit. */
  ghost predicate Feasible(line: seq<Glyph>, cols: nat, s: nat, cuts: seq<nat>)
    requires s <= |line|
  {
    && Increasing(cuts, s, |line|)
    && (forall i :: 0 <= i < |cuts| ==> Cut(line, cuts[i]))
    && LinesFit(line, cols, s, cuts)
  }

  lemma FitsShrinks(line: seq<Glyph>, cols: nat, a: nat, s: nat, b: nat)
    requires a <= s <= b <= |line| && Fits(line, cols, a, b)
    ensures Fits(line, cols, s, b)
  {
    ColumnMonotone(line, a, s);
    assert forall k :: s <= k < b ==> !Overflows(line, cols, a, k) && !Overflows(line, cols, s, k);
  }

  lemma FeasibleTail(line: seq<Glyph>, cols: nat, s: nat, cuts: seq<nat>)
    requires s <= |line| && Feasible(line, cols, s, cuts) && cuts != []
    ensures s < cuts[0] < |line| && Cut(line, cuts[0]) && Fits(line, cols, s, cuts[0])
    ensures Feasible(line, cols, cuts[0], cuts[1..])
  {
  }

  /** With every word fitting, the first break is the start of the token that sticks out. */
  lemma {:induction false} FirstBreak(line: seq<Glyph>, cols: nat, s: nat)
    requires WordsFit(line, cols) && s <= |line|
    ensures var k := FirstOverflow(line, cols, s, s);
            if k == |line| then Breaks(line, cols, s, false) == []
            else var t := TokenStart(line, k);
                 s < t <= k && !line[t].Blank() && Breaks(line, cols, s, false) == [t] + Breaks(line, cols, t, false)
  {
    var k := FirstOverflow(line, cols, s, s);
    if k < |line| {
      var t := TokenStart(line, k);
      assert Column(line, k + 1) - Column(line, t) <= cols;
      if t <= s { ColumnMonotone(line, t, s); }
      TokenIsUniform(line, t, k + 1, k);
    }
  }

  /** The induction behind `GreedyIsOptimal`: a wrapper that is already further along never needs more lines. */
  lemma {:induction false} GreedyStaysAhead(line: seq<Glyph>, cols: nat, a: nat, s: nat, other: seq<nat>)
    requires WordsFit(line, cols) && a <= s <= |line| && Feasible(line, cols, a, other)
    ensures |Breaks(line, cols, s, false)| <= |other|
    decreases |other|
  {
    FirstBreak(line, cols, s);
    var k := FirstOverflow(line, cols, s, s);
    if other == [] {
      FitsShrinks(line, cols, a, s, |line|);
    } else {
      hide Feasible, Breaks, Cut, TokenStart;
      var c, rest := other[0], other[1..];
      FeasibleTail(line, cols, a, other);
      if c <= s {
        GreedyStaysAhead(line, cols, c, s, rest);
      } else if k < |line| {
        FitsShrinks(line, cols, a, s, c);
        var t := TokenStart(line, k);
        CutsAreOutside(line, t, k + 1, c);
        GreedyStaysAhead(line, cols, c, t, rest);
      }
    }
  }

  /** Greedy wrapping is optimal: when every word fits, the wrapper's own breaks are a feasible choice, all of them
      at word starts, and no feasible choice of breaks has fewer. */
  lemma GreedyIsOptimal(line: seq<Glyph>, cols: nat, other: seq<nat>)
    requires cols >= 1 && WordsFit(line, cols)
    ensures Feasible(line, cols, 0, LineBreaks(line, cols))
    ensures forall i :: 0 <= i < |LineBreaks(line, cols)| ==> LineBreaks(line, cols)[i] < |line| && !line[LineBreaks(line, cols)[i]].Blank()
    ensures Feasible(line, cols, 0, other) ==> |LineBreaks(line, cols)| <= |other|
  {
    WordsFitIsRoomy(line, cols);
    BreaksIncrease(line, cols, 0, false);
    BreaksFit(line, cols, 0, false);
    BreaksAreWordStarts(line, cols, 0);
    if Feasible(line, cols, 0, other) {
      GreedyStaysAhead(line, cols, 0, 0, other);
    }
  }

  lemma {:induction false} BreaksAreWordStarts(line: seq<Glyph>, cols: nat, s: nat)
    requires WordsFit(line, cols) && s <= |line|
    ensures forall c :: c in Breaks(line, cols, s, false) ==> c < |line| && Cut(line, c) && !line[c].Blank()
    decreases |line| - s
  {
    FirstBreak(line, cols, s);
    var k := FirstOverflow(line, cols, s, s);
    if k < |line| {
      BreaksAreWordStarts(line, cols, TokenStart(line, k));
    }
  }

  /** A line is left in one piece exactly when it fits. */
  lemma OneLineIffItFits(line: seq<Glyph>, cols: nat)
    ensures LineBreaks(line, cols) == [] <==> Fits(line, cols, 0, |line|)
  {
    var k := FirstOverflow(line, cols, 0, 0);
    assert k < |line| ==> LineBreaks(line, cols) != [];
  }
}
