/** The layout rules of a hard line, over glyphs that carry only what the rules look at.

    Nothing here follows the control flow of the tokenizer or of the wrapper: token boundaries are a local test
    between two neighbouring glyphs, and a wrapped line ends where the first glyph that sticks out tells it to.
    `Cells` proves that the loops compute exactly these. */
module CellLayout {

  const TAB_SIZE: nat := 2

  datatype Kind = Space | Tab | Dash | Digit | Plain

  type Width = w: nat | w <= 2

  /** One grapheme cluster: what it is to the tokenizer, its cells, and whether its width is certain. */
  datatype Glyph = Glyph(kind: Kind, cells: Width, exact: bool) {
    predicate Blank() {
      kind.Space? || kind.Tab?
    }

    predicate Wide() {
      !Blank() && cells > 1
    }
  }

  datatype Token = Token(space: bool, width: nat, exact: bool, start: nat, end: nat)

  /** The column after `g`, given the one before it. */
  function Advance(col: nat, g: Glyph): (r: nat)
    ensures col <= r <= col + 2
  {
    match g.kind
    case Space => col + 1
    case Tab => (col / TAB_SIZE + 1) * TAB_SIZE
    case _ => col + g.cells
  }

  /** The column at which the glyph with index `k` starts, counted from the start of the hard line. */
  function Column(line: seq<Glyph>, k: nat): nat
    requires k <= |line|
  {
    if k == 0 then 0 else Advance(Column(line, k - 1), line[k - 1])
  }

  lemma {:induction false} ColumnMonotone(line: seq<Glyph>, a: nat, b: nat)
    requires a <= b <= |line|
    ensures Column(line, a) <= Column(line, b)
  {
    if a < b {
      ColumnMonotone(line, a, b - 1);
    }
  }

  /** A tab moves to the next multiple of `TAB_SIZE`, strictly forward and never past it. */
  lemma TabStops(line: seq<Glyph>, k: nat)
    requires k < |line| && line[k].kind.Tab?
    ensures Column(line, k + 1) % TAB_SIZE == 0
    ensures Column(line, k) < Column(line, k + 1) <= Column(line, k) + TAB_SIZE
  {
  }

  // ----- tokens

  /** Whether a token ends and another starts between glyphs `k - 1` and `k`. */
  ghost predicate Cut(line: seq<Glyph>, k: nat)
    requires k <= |line|
  {
    || k == 0
    || k == |line|
    || line[k - 1].Blank() != line[k].Blank()
    || (&& !line[k].Blank()
        && (|| line[k - 1].Wide()
            || line[k].Wide()
            || (line[k - 1].kind.Dash? && !line[k].kind.Digit?)))
  }

  ghost predicate NoCutBetween(line: seq<Glyph>, a: nat, b: nat)
    requires a <= b <= |line|
  {
    forall k :: a < k < b ==> !Cut(line, k)
  }

  lemma CutsAreOutside(line: seq<Glyph>, a: nat, b: nat, k: nat)
    requires a <= b <= |line| && NoCutBetween(line, a, b)
    requires k <= |line| && Cut(line, k)
    ensures k <= a || b <= k
  {
  }

  ghost predicate AllExact(line: seq<Glyph>, a: nat, b: nat)
    requires a <= b <= |line|
  {
    forall k :: a <= k < b ==> line[k].Blank() || line[k].exact
  }

  ghost predicate IsToken(line: seq<Glyph>, t: Token) {
    && t.start < t.end <= |line|
    && Cut(line, t.start) && Cut(line, t.end) && NoCutBetween(line, t.start, t.end)
    && t.space == line[t.start].Blank()
    && t.width == Column(line, t.end) - Column(line, t.start)
    && (t.exact <==> AllExact(line, t.start, t.end))
  }

  /** `tokens` are, in order, the tokens of the first `upto` glyphs of `line`. */
  ghost predicate Tokenizes(line: seq<Glyph>, tokens: seq<Token>, upto: nat) {
    if tokens == [] then
      upto == 0
    else
      var last := tokens[|tokens| - 1];
      last.end == upto && IsToken(line, last) && Tokenizes(line, tokens[..|tokens| - 1], last.start)
  }

  /** A line has one tokenization. */
  lemma {:induction false} TokenizationIsUnique(line: seq<Glyph>, one: seq<Token>, two: seq<Token>, upto: nat)
    requires Tokenizes(line, one, upto) && Tokenizes(line, two, upto)
    ensures one == two
  {
    if one != [] && two != [] {
      var a, b := one[|one| - 1], two[|two| - 1];
      CutsAreOutside(line, a.start, upto, b.start);
      CutsAreOutside(line, b.start, upto, a.start);
      TokenizationIsUnique(line, one[..|one| - 1], two[..|two| - 1], a.start);
    }
  }

  /** Tokens are contiguous and start at the start of the line. */
  lemma {:induction false} TokensAreContiguous(line: seq<Glyph>, tokens: seq<Token>, upto: nat, i: nat)
    requires Tokenizes(line, tokens, upto) && i < |tokens|
    ensures IsToken(line, tokens[i]) && tokens[i].end <= upto
    ensures i == 0 ==> tokens[i].start == 0
    ensures i > 0 ==> tokens[i - 1].end == tokens[i].start
    ensures i == |tokens| - 1 ==> tokens[i].end == upto
  {
    var front := tokens[..|tokens| - 1];
    if i < |front| {
      TokensAreContiguous(line, front, tokens[|front|].start, i);
    } else if i > 0 {
      TokensAreContiguous(line, front, tokens[i].start, i - 1);
    }
  }

  /** Glyphs of one token are alike: all blank, or all word glyphs. */
  lemma {:induction false} TokenIsUniform(line: seq<Glyph>, a: nat, b: nat, k: nat)
    requires a < b <= |line| && NoCutBetween(line, a, b) && a <= k < b
    ensures line[k].Blank() == line[a].Blank()
  {
    if k > a {
      assert !Cut(line, k);
      TokenIsUniform(line, a, b, k - 1);
    }
  }

  function SumCells(line: seq<Glyph>, a: nat, b: nat): nat
    requires a <= b <= |line|
  {
    if a == b then 0 else SumCells(line, a, b - 1) + line[b - 1].cells
  }

  lemma {:induction false} WordColumns(line: seq<Glyph>, a: nat, b: nat)
    requires a <= b <= |line|
    requires forall k :: a <= k < b ==> !line[k].Blank()
    ensures Column(line, b) == Column(line, a) + SumCells(line, a, b)
  {
    if a < b {
      WordColumns(line, a, b - 1);
    }
  }

  lemma {:induction false} TokenGlyphs(line: seq<Glyph>, t: Token, k: nat)
    requires IsToken(line, t) && t.start <= k < t.end
    ensures line[k].Blank() == t.space
    ensures line[k].Wide() ==> t.end == t.start + 1
    ensures line[k].kind.Dash? && k + 1 < t.end ==> line[k + 1].kind.Digit?
  {
    TokenIsUniform(line, t.start, t.end, k);
    if line[k].Wide() {
      assert t.start < k ==> !Cut(line, k);
      assert k + 1 < t.end ==> !Cut(line, k + 1);
    }
    if line[k].kind.Dash? && k + 1 < t.end {
      assert !Cut(line, k + 1);
    }
  }

  /** What a tokenization promises its users: tokens are non-empty, contiguous and cover the line; a token is all
      blank or all word; a word is as wide as its cells; a wide glyph stands alone; and a dash stays inside a word
      only in front of a digit. */
  lemma TokenFacts(line: seq<Glyph>, tokens: seq<Token>, i: nat)
    requires Tokenizes(line, tokens, |line|) && i < |tokens|
    ensures tokens[0].start == 0 && tokens[|tokens| - 1].end == |line|
    ensures tokens[i].start < tokens[i].end <= |line|
    ensures i > 0 ==> tokens[i - 1].end == tokens[i].start
    ensures !tokens[i].space ==> tokens[i].width == SumCells(line, tokens[i].start, tokens[i].end)
    ensures forall k :: tokens[i].start <= k < tokens[i].end ==>
              && line[k].Blank() == tokens[i].space
              && (line[k].Wide() ==> tokens[i].end == tokens[i].start + 1)
              && (line[k].kind.Dash? && k + 1 < tokens[i].end ==> line[k + 1].kind.Digit?)
  {
    var t := tokens[i];
    TokensAreContiguous(line, tokens, |line|, 0);
    TokensAreContiguous(line, tokens, |line|, i);
    TokensAreContiguous(line, tokens, |line|, |tokens| - 1);
    forall k | t.start <= k < t.end
      ensures line[k].Blank() == t.space
      ensures line[k].Wide() ==> t.end == t.start + 1
      ensures line[k].kind.Dash? && k + 1 < t.end ==> line[k + 1].kind.Digit?
    {
      TokenGlyphs(line, t, k);
    }
    if !t.space {
      WordColumns(line, t.start, t.end);
    }
  }

  /** Tokens end exactly where the rules cut. */
  lemma {:induction false} TokensEndAtCuts(line: seq<Glyph>, tokens: seq<Token>, upto: nat, k: nat)
    requires Tokenizes(line, tokens, upto) && 0 < k < upto <= |line|
    ensures (exists i :: 0 <= i < |tokens| && tokens[i].end == k) <==> Cut(line, k)
  {
    var before, last := tokens[..|tokens| - 1], tokens[|tokens| - 1];
    assert Cut(line, last.start) && NoCutBetween(line, last.start, upto);
    hide Cut, IsToken;
    if k < last.start {
      TokensEndAtCuts(line, before, last.start, k);
      assert forall i :: 0 <= i < |before| ==> before[i] == tokens[i];
    } else if k == last.start {
      assert before[|before| - 1].end == k && before[|before| - 1] == tokens[|before| - 1];
    } else {
      forall i | 0 <= i < |tokens|
        ensures tokens[i].end != k
      {
        if i < |before| {
          TokensAreContiguous(line, before, last.start, i);
          assert before[i] == tokens[i];
        }
      }
    }
  }

  /** The start of the token that holds glyph `k`. */
  ghost function TokenStart(line: seq<Glyph>, k: nat): (r: nat)
    requires k < |line|
    ensures r <= k && Cut(line, r) && NoCutBetween(line, r, k + 1)
  {
    if Cut(line, k) then k else TokenStart(line, k - 1)
  }

  lemma TokenStartIs(line: seq<Glyph>, t: Token, k: nat)
    requires IsToken(line, t) && t.start <= k < t.end
    ensures TokenStart(line, k) == t.start
  {
    var r := TokenStart(line, k);
    CutsAreOutside(line, r, k + 1, t.start);
    CutsAreOutside(line, t.start, t.end, r);
  }

  // ----- wrapping

  /** Glyph `k`, on a line that starts at glyph `s`, sticks out past `cols`. Blanks hang and never do. */
  ghost predicate Overflows(line: seq<Glyph>, cols: nat, s: nat, k: nat)
    requires s <= k < |line|
  {
    !line[k].Blank() && Column(line, k + 1) - Column(line, s) > cols
  }

  /** The glyphs from `a` up to `b` fit on one line: its width, trailing blanks ignored, is at most `cols`. */
  ghost predicate Fits(line: seq<Glyph>, cols: nat, a: nat, b: nat)
    requires a <= b <= |line|
  {
    forall k :: a <= k < b ==> !Overflows(line, cols, a, k)
  }

  /** The first glyph from `from` on that sticks out of a line started at `s`, or the end of the hard line. */
  ghost function FirstOverflow(line: seq<Glyph>, cols: nat, s: nat, from: nat): (r: nat)
    requires s <= from <= |line|
    ensures from <= r <= |line|
    ensures forall k :: from <= k < r ==> !Overflows(line, cols, s, k)
    ensures r < |line| ==> Overflows(line, cols, s, r)
    decreases |line| - from
  {
    if from == |line| || Overflows(line, cols, s, from) then from else FirstOverflow(line, cols, s, from + 1)
  }

  /** The breaks of a line that starts at `s`. A line breaks in front of the token that holds the first glyph
      sticking out, if anything with a width stands before that token on the line, and in front of the glyph itself
      otherwise. `placed` says that glyph `s` opened the line whatever its width. */
  ghost function Breaks(line: seq<Glyph>, cols: nat, s: nat, placed: bool): seq<nat>
    requires s <= |line| && (placed ==> s < |line|)
    decreases |line| - s, if placed then 0 else 1
  {
    var k := FirstOverflow(line, cols, s, if placed then s + 1 else s);
    if k == |line| then
      []
    else
      var t := TokenStart(line, k);
      if Column(line, t) > Column(line, s) then
        assert t > s by { if t <= s { ColumnMonotone(line, t, s); } }
        [t] + Breaks(line, cols, t, false)
      else
        [k] + Breaks(line, cols, k, true)
  }

  ghost function LineBreaks(line: seq<Glyph>, cols: nat): seq<nat> {
    Breaks(line, cols, 0, false)
  }

  lemma FirstOverflowIs(line: seq<Glyph>, cols: nat, s: nat, from: nat, k: nat)
    requires s <= from <= k <= |line|
    requires forall j :: from <= j < k ==> !Overflows(line, cols, s, j)
    requires k < |line| ==> Overflows(line, cols, s, k)
    ensures FirstOverflow(line, cols, s, from) == k
  {
  }

  // ----- a list of breaks as lines

  /** Line `i` of the glyphs from `s` to `n`, broken at `cuts`, starts here. */
  function LineStart(cuts: seq<nat>, s: nat, i: nat): nat
    requires i <= |cuts|
  {
    if i == 0 then s else cuts[i - 1]
  }

  function LineEnd(cuts: seq<nat>, n: nat, i: nat): nat
    requires i <= |cuts|
  {
    if i == |cuts| then n else cuts[i]
  }

  ghost predicate Increasing(cuts: seq<nat>, s: nat, n: nat) {
    && (forall i :: 0 <= i < |cuts| ==> s < cuts[i] < n)
    && (forall i, j :: 0 <= i < j < |cuts| ==> cuts[i] < cuts[j])
  }

  /** Every line cut out of `line[s..]` by `cuts` fits `cols`. */
  ghost predicate LinesFit(line: seq<Glyph>, cols: nat, s: nat, cuts: seq<nat>)
    requires s <= |line|
    decreases |cuts|
  {
    if cuts == [] then
      Fits(line, cols, s, |line|)
    else
      s <= cuts[0] <= |line| && Fits(line, cols, s, cuts[0]) && LinesFit(line, cols, cuts[0], cuts[1..])
  }
}
