/** The tokenizer, the wrapper and the clipper of `crates/core/src/cells.rs`. Strings are sequences of Unicode scalar
    values, emitted ranges are UTF-8 byte offsets, and positions inside a line count its grapheme clusters. */
module Cells {
  import opened Utf8
  import opened CellLayout

  /** A range of bytes. */
  datatype Range = Range(start: nat, end: nat)

  // ----- the Unicode data the rules look at

  function Joined(clusters: seq<string>): string {
    if clusters == [] then "" else Joined(clusters[..|clusters| - 1]) + clusters[|clusters| - 1]
  }

  function Singles(s: string): (r: seq<string>)
    ensures |r| == |s| && forall i :: 0 <= i < |s| ==> r[i] == [s[i]]
  {
    seq(|s|, i requires 0 <= i < |s| => [s[i]])
  }

  /** Every character is printable ASCII. */
  ghost predicate Printable(s: string) {
    forall i :: 0 <= i < |s| ==> ' ' <= s[i] <= '~'
  }

  /** The test for the fast path, byte by byte. */
  predicate IsPlainAscii(s: string) {
    forall i :: 0 <= i < |Encode(s)| ==> 0x20 <= Encode(s)[i] <= 0x7E
  }

  /** It holds exactly of printable ASCII, as every other character has a byte past it. */
  lemma {:induction false} PlainIsPrintable(s: string)
    ensures IsPlainAscii(s) <==> Printable(s)
  {
    hide EncodeChar;
    if s != "" {
      var first, rest := EncodeChar(s[0]), Encode(s[1..]);
      assert Encode(s) == first + rest;
      PlainCharacter(s[0]);
      PlainIsPrintable(s[1..]);
      assert forall i :: 0 <= i < |first| ==> Encode(s)[i] == first[i];
      assert forall i :: 0 <= i < |rest| ==> Encode(s)[|first| + i] == rest[i];
      assert forall i :: 0 < i < |s| ==> s[i] == s[1..][i - 1];
    }
  }

  lemma PlainCharacter(c: char)
    ensures (forall i :: 0 <= i < |EncodeChar(c)| ==> 0x20 <= EncodeChar(c)[i] <= 0x7E) <==> ' ' <= c <= '~'
  {
    assert c as int >= 0x80 ==> EncodeChar(c)[0] > 0x7E;
    assert c as int < 0x80 ==> EncodeChar(c) == [c as int] && EncodeChar(c)[0] == c as int;
  }

  /** Segmentation and the character tables, left abstract but for the facts the code relies on. */
  datatype Unicode = Unicode(
    graphemes: string -> seq<string>,
    emojiPresentation: char -> bool,
    wide: char -> bool,
    numeric: char -> bool)
  {
    /** Clusters are non-empty and spell the string out, and printable ASCII splits into single characters (section
        3.1.1 of UAX #29). */
    ghost predicate SplitsUp(s: string) {
      && Joined(graphemes(s)) == s
      && (forall i :: 0 <= i < |graphemes(s)| ==> graphemes(s)[i] != "")
      && (Printable(s) ==> graphemes(s) == Singles(s))
    }

    /** Segmentation is local: text between two cluster boundaries splits into the clusters between them. */
    ghost predicate SplitsLocally(s: string, i: nat, j: nat) {
      i <= j <= |graphemes(s)| ==> graphemes(Joined(graphemes(s)[i..j])) == graphemes(s)[i..j]
    }

    ghost predicate Valid() {
      && (forall s :: SplitsUp(s))
      && (forall s, i, j :: SplitsLocally(s, i, j))
      // Every wide range starts past Latin-1, and the ASCII digits are ASCII's numeric characters.
      && (forall c :: c as int < 0x1100 ==> !wide(c))
      && (forall c :: c as int < 0x80 ==> (numeric(c) <==> '0' <= c <= '9'))
    }
  }

  function ClusterCells(u: Unicode, cluster: string): (r: (Width, bool)) {
    if exists c :: c in cluster && (c == '\U{200D}' || c == '\U{FE0F}') then (2, false)
    else if cluster == "" then (0, true)
    else
      var v := cluster[0];
      if v as int >= 0x231A && u.emojiPresentation(v) then (2, false)
      else if u.wide(v) then (2, false)
      else if v as int < 0x20 then (0, true)
      else (1, true)
  }

  predicate IsNumberCluster(u: Unicode, cluster: string) {
    cluster != "" && u.numeric(cluster[0])
  }

  /** What the layout rules see of a cluster. `ascii` is the fast path: every cluster one cell, no table consulted. */
  function GlyphOf(u: Unicode, cluster: string, ascii: bool): Glyph {
    var kind :=
      if cluster == " " then Space
      else if cluster == "\t" then Tab
      else if cluster == "-" || cluster == "?" then Dash
      else if IsNumberCluster(u, cluster) then Digit
      else Plain;
    var (cells, exact) := if ascii then (1, true) else ClusterCells(u, cluster);
    Glyph(kind, cells, exact)
  }

  function Glyphs(u: Unicode, clusters: seq<string>, ascii: bool): (r: seq<Glyph>)
    ensures |r| == |clusters|
    ensures forall i :: 0 <= i < |clusters| ==> r[i] == GlyphOf(u, clusters[i], ascii)
  {
    seq(|clusters|, i requires 0 <= i < |clusters| => GlyphOf(u, clusters[i], ascii))
  }

  /** The glyphs of a line by the slow path: grapheme clusters, each measured. The reference for both paths. */
  function LineGlyphs(u: Unicode, line: string): seq<Glyph> {
    Glyphs(u, u.graphemes(line), false)
  }

  /** The clusters the iterator yields: single characters on the fast path, grapheme clusters otherwise. */
  function Clusters(u: Unicode, line: string, ascii: bool): seq<string> {
    if ascii then Singles(line) else u.graphemes(line)
  }

  /** Fast path equals slow path: on a plain ASCII line the byte iterator with unit widths shows the layout the very
      glyphs the grapheme iterator with measured widths shows it. */
  lemma {:induction false} FastPathIsSlowPath(u: Unicode, line: string)
    requires u.Valid()
    ensures var ascii := IsPlainAscii(line);
            Clusters(u, line, ascii) == u.graphemes(line) &&
            Glyphs(u, Clusters(u, line, ascii), ascii) == LineGlyphs(u, line)
  {
    assert u.SplitsUp(line);
    PlainIsPrintable(line);
    hide IsPlainAscii;
    if Printable(line) {
      var cs := Singles(line);
      forall i | 0 <= i < |cs|
        ensures GlyphOf(u, cs[i], true) == GlyphOf(u, cs[i], false)
      {
        assert ' ' <= cs[i][0] <= '~';
        assert ClusterCells(u, cs[i]) == (1, true);
      }
    }
  }

  /** What a measured cluster is to the layout, told from its characters. Its width is uncertain exactly where it is two
      cells: with a joiner or an emoji selector in it, or with an emoji or a wide character in front. */
  lemma GlyphIs(u: Unicode, cluster: string)
    requires u.Valid()
    ensures var g := GlyphOf(u, cluster, false);
            && (g.kind == Space <==> cluster == " ")
            && (g.kind == Tab <==> cluster == "\t")
            && (g.kind == Dash <==> cluster == "-" || cluster == "?")
            && (g.kind == Digit <==> cluster != "" && u.numeric(cluster[0]))
            && (g.exact <==> g.cells != 2)
            && (g.cells == 2 <==> || '\U{200D}' in cluster || '\U{FE0F}' in cluster
                                  || (cluster != "" && 0x231A <= cluster[0] as int && u.emojiPresentation(cluster[0]))
                                  || (cluster != "" && u.wide(cluster[0])))
            && (g.cells == 0 <==> cluster == "" || (cluster[0] < ' ' && g.cells != 2))
  {
  }

  // ----- plain ASCII, character by character

  /** Between two characters of a plain ASCII line a token ends where blanks meet others, and behind a dash or a question
      mark that no digit follows. */
  predicate TokenEnds(line: string, k: nat)
    requires 0 < k < |line|
  {
    || (line[k - 1] == ' ') != (line[k] == ' ')
    || (line[k] != ' ' && (line[k - 1] == '-' || line[k - 1] == '?') && !('0' <= line[k] <= '9'))
  }

  lemma {:induction false} AsciiGlyph(u: Unicode, line: string, k: nat)
    requires u.Valid() && k < |line| && Printable(line)
    ensures u.graphemes(line) == Singles(line) && |LineGlyphs(u, line)| == |line|
    ensures var g := LineGlyphs(u, line)[k];
            && g.cells == 1 && g.exact && g.kind != Tab
            && (g.kind == Space <==> line[k] == ' ')
            && (g.kind == Dash <==> line[k] == '-' || line[k] == '?')
            && (g.kind == Digit <==> '0' <= line[k] <= '9')
  {
    hide GlyphOf;
    assert u.SplitsUp(line);
    GlyphIs(u, [line[k]]);
  }

  lemma {:induction false} AsciiCut(u: Unicode, line: string, k: nat)
    requires u.Valid() && 0 < k < |line| && Printable(line)
    ensures |LineGlyphs(u, line)| == |line| && (Cut(LineGlyphs(u, line), k) <==> TokenEnds(line, k))
  {
    hide GlyphOf, LineGlyphs, Unicode.Valid;
    AsciiGlyph(u, line, k - 1);
    AsciiGlyph(u, line, k);
  }

  // ----- tokens

  /** The macro `flush_word`: ends the word that runs up to `index`, if there is one. */
  function Flushed(tokens: seq<Token>, wordStart: nat, wordWidth: nat, wordExact: bool, index: nat): seq<Token> {
    if (wordWidth > 0 || wordStart < index) && wordStart < index then
      tokens + [Token(false, wordWidth, wordExact, wordStart, index)]
    else
      tokens
  }

  lemma AddToken(line: seq<Glyph>, tokens: seq<Token>, t: Token)
    requires Tokenizes(line, tokens, t.start) && IsToken(line, t)
    ensures Tokenizes(line, tokens + [t], t.end)
  {
    assert (tokens + [t])[..|tokens|] == tokens;
  }

  /** The word being read: clusters `wordStart..k`, all word glyphs, none of them closing it. */
  ghost predicate OpenWord(line: seq<Glyph>, wordStart: nat, k: nat)
    requires wordStart <= k <= |line|
  {
    && Cut(line, wordStart)
    && NoCutBetween(line, wordStart, k)
    && (forall j :: wordStart <= j < k ==> !line[j].Blank() && !line[j].Wide())
    && (wordStart < k && line[k - 1].kind.Dash? ==> k < |line| && line[k].kind.Digit?)
  }

  /** The state of the tokenizer in front of glyph `k`. */
  datatype Reading = Reading(tokens: seq<Token>, wordStart: nat, wordWidth: nat, wordExact: bool, column: nat, k: nat) {
    ghost predicate Of(line: seq<Glyph>) {
      && wordStart <= k <= |line|
      && Tokenizes(line, tokens, wordStart)
      && OpenWord(line, wordStart, k)
      && column == Column(line, k)
      && wordWidth == column - Column(line, wordStart)
      && (wordExact <==> AllExact(line, wordStart, k))
    }
  }

  /** Flushing the open word in front of a cut leaves the first `k` glyphs tokenized. */
  lemma FlushCloses(line: seq<Glyph>, r: Reading)
    requires r.Of(line) && Cut(line, r.k)
    ensures Tokenizes(line, Flushed(r.tokens, r.wordStart, r.wordWidth, r.wordExact, r.k), r.k)
  {
    if r.wordStart < r.k {
      AddToken(line, r.tokens, Token(false, r.wordWidth, r.wordExact, r.wordStart, r.k));
    }
  }

  /** A maximal run of blanks, from its first glyph `k` to its end `m`. */
  ghost predicate BlankRun(line: seq<Glyph>, k: nat, m: nat) {
    && k < m <= |line|
    && (forall j :: k <= j < m ==> line[j].Blank())
    && (m < |line| ==> !line[m].Blank())
  }

  lemma {:induction false} AfterBlanks(line: seq<Glyph>, r: Reading, end: nat, width: nat)
    requires r.Of(line) && BlankRun(line, r.k, end) && r.column + width == Column(line, end)
    ensures var tokens := Flushed(r.tokens, r.wordStart, r.wordWidth, r.wordExact, r.k) + [Token(true, width, true, r.k, end)];
            Reading(tokens, end, 0, true, r.column + width, end).Of(line)
  {
    var t := Token(true, width, true, r.k, end);
    assert IsToken(line, t) && OpenWord(line, end, end);
    hide IsToken, Tokenizes, OpenWord, BlankRun, Cut;
    FlushCloses(line, r);
    AddToken(line, Flushed(r.tokens, r.wordStart, r.wordWidth, r.wordExact, r.k), t);
  }

  lemma {:induction false} AfterWide(line: seq<Glyph>, r: Reading)
    requires r.Of(line) && r.k < |line| && line[r.k].Wide()
    ensures var g := line[r.k];
            var tokens := Flushed(r.tokens, r.wordStart, r.wordWidth, r.wordExact, r.k)
                          + [Token(false, g.cells, g.exact, r.k, r.k + 1)];
            Reading(tokens, r.k + 1, 0, true, r.column + g.cells, r.k + 1).Of(line)
  {
    var t := Token(false, line[r.k].cells, line[r.k].exact, r.k, r.k + 1);
    assert IsToken(line, t) && OpenWord(line, r.k + 1, r.k + 1);
    hide IsToken, Tokenizes, OpenWord, Cut;
    FlushCloses(line, r);
    AddToken(line, Flushed(r.tokens, r.wordStart, r.wordWidth, r.wordExact, r.k), t);
  }

  /** Whether glyph `k` is a dash that ends its word: no digit follows it. */
  predicate ClosesWord(line: seq<Glyph>, k: nat)
    requires k < |line|
  {
    line[k].kind.Dash? && !(k + 1 < |line| && line[k + 1].kind.Digit?)
  }

  lemma AfterNarrow(line: seq<Glyph>, r: Reading, next: Reading)
    requires r.Of(line) && r.k < |line| && !line[r.k].Blank() && !line[r.k].Wide() && !ClosesWord(line, r.k)
    requires next.k == r.k + 1 && next.column == r.column + line[r.k].cells
    requires next.tokens == r.tokens && next.wordStart == r.wordStart
    requires next.wordWidth == r.wordWidth + line[r.k].cells && next.wordExact == (r.wordExact && line[r.k].exact)
    ensures next.Of(line)
  {
    assert r.wordStart < r.k ==> !Cut(line, r.k);
  }

  lemma AfterDash(line: seq<Glyph>, r: Reading, next: Reading)
    requires r.Of(line) && r.k < |line| && !line[r.k].Blank() && !line[r.k].Wide() && ClosesWord(line, r.k)
    requires next.k == next.wordStart == r.k + 1 && next.column == r.column + line[r.k].cells
    requires next.tokens == r.tokens + [Token(false, r.wordWidth + line[r.k].cells, r.wordExact && line[r.k].exact,
                                              r.wordStart, r.k + 1)]
    requires next.wordWidth == 0 && next.wordExact
    ensures next.Of(line)
  {
    var t := Token(false, r.wordWidth + line[r.k].cells, r.wordExact && line[r.k].exact, r.wordStart, next.k);
    DashIsToken(line, r, t);
    hide IsToken, Tokenizes, OpenWord, Cut;
    AddToken(line, r.tokens, t);
  }

  /** The open word with the dash that closes it, and nothing behind it yet. */
  lemma DashIsToken(line: seq<Glyph>, r: Reading, t: Token)
    requires r.Of(line) && r.k < |line| && !line[r.k].Blank() && !line[r.k].Wide() && ClosesWord(line, r.k)
    requires t == Token(false, r.wordWidth + line[r.k].cells, r.wordExact && line[r.k].exact, r.wordStart, r.k + 1)
    ensures IsToken(line, t) && OpenWord(line, t.end, t.end)
  {
    hide Tokenizes, AllExact;
    ExactGrows(line, r.wordStart, r.k);
    assert r.wordStart < r.k ==> !Cut(line, r.k);
  }

  lemma ExactGrows(line: seq<Glyph>, start: nat, k: nat)
    requires start <= k < |line| && !line[k].Blank()
    ensures AllExact(line, start, k + 1) <==> AllExact(line, start, k) && line[k].exact
  {
  }

  /** The inner loop over blanks: tabs go to the next stop, spaces one cell on. */
  method ReadBlanks(line: seq<Glyph>, k: nat, column: nat) returns (width: nat, end: nat)
    requires k < |line| && line[k].Blank() && column == Column(line, k)
    ensures BlankRun(line, k, end) && column + width == Column(line, end)
  {
    width, end := 0, k;
    while end < |line| && line[end].Blank()
      invariant k <= end <= |line|
      invariant forall j :: k <= j < end ==> line[j].Blank()
      invariant column + width == Column(line, end)
    {
      if line[end].kind.Tab? {
        var stop := ((column + width) / TAB_SIZE + 1) * TAB_SIZE;
        width := width + (stop - (column + width));
      } else {
        width := width + 1;
      }
      end := end + 1;
    }
  }

  lemma NothingRead(line: seq<Glyph>)
    ensures Reading([], 0, 0, true, 0, 0).Of(line)
  {
  }

  lemma AtGlyph(line: seq<Glyph>, r: Reading)
    requires r.Of(line)
    ensures r.k <= |line| && r.column == Column(line, r.k) && (r.k == |line| ==> Cut(line, r.k))
  {
  }

  /** The tokenizer's loop. */
  method TokenizeGlyphs(line: seq<Glyph>) returns (tokens: seq<Token>)
    ensures Tokenizes(line, tokens, |line|)
  {
    hide Reading.Of, Tokenizes;
    tokens := [];
    var column: nat, k: nat := 0, 0;
    var wordStart: nat, wordWidth: nat, wordExact := 0, 0, true;
    NothingRead(line);
    while k < |line|
      invariant k <= |line|
      invariant Reading(tokens, wordStart, wordWidth, wordExact, column, k).Of(line)
    {
      var g := line[k];
      ghost var before := Reading(tokens, wordStart, wordWidth, wordExact, column, k);
      AtGlyph(line, before);
      if g.Blank() {
        tokens := Flushed(tokens, wordStart, wordWidth, wordExact, k);
        var width, end := ReadBlanks(line, k, column);
        tokens := tokens + [Token(true, width, true, k, end)];
        AfterBlanks(line, before, end, width);
        column := column + width;
        k, wordStart, wordWidth, wordExact := end, end, 0, true;
        continue;
      }
      if g.cells > 1 {
        tokens := Flushed(tokens, wordStart, wordWidth, wordExact, k);
        tokens := tokens + [Token(false, g.cells, g.exact, k, k + 1)];
        AfterWide(line, before);
        column := column + g.cells;
        k, wordStart, wordWidth, wordExact := k + 1, k + 1, 0, true;
        continue;
      }
      wordWidth := wordWidth + g.cells;
      wordExact := wordExact && g.exact;
      column := column + g.cells;
      k := k + 1;
      if g.kind.Dash? {
        var followsDigit := k < |line| && line[k].kind.Digit?;
        if !followsDigit {
          tokens := tokens + [Token(false, wordWidth, wordExact, wordStart, k)];
          wordStart, wordWidth, wordExact := k, 0, true;
          AfterDash(line, before, Reading(tokens, wordStart, wordWidth, wordExact, column, k));
          continue;
        }
      }
      AfterNarrow(line, before, Reading(tokens, wordStart, wordWidth, wordExact, column, k));
    }
    AtGlyph(line, Reading(tokens, wordStart, wordWidth, wordExact, column, k));
    FlushCloses(line, Reading(tokens, wordStart, wordWidth, wordExact, column, k));
    tokens := Flushed(tokens, wordStart, wordWidth, wordExact, |line|);
  }

  lemma {:induction false} AsciiColumns(u: Unicode, line: string, k: nat)
    requires u.Valid() && k <= |line| && Printable(line)
    ensures |LineGlyphs(u, line)| == |line| && Column(LineGlyphs(u, line), k) == k
  {
    hide LineGlyphs, Unicode.Valid;
    if k > 0 {
      AsciiGlyph(u, line, k - 1);
      AsciiColumns(u, line, k - 1);
    } else {
      assert |LineGlyphs(u, line)| == |line| by { AsciiLength(u, line); }
    }
  }

  lemma AsciiLength(u: Unicode, line: string)
    requires u.Valid() && Printable(line)
    ensures |LineGlyphs(u, line)| == |u.graphemes(line)| == |line|
  {
    assert u.SplitsUp(line);
  }

  /** What the tokens of a plain ASCII line are: they end where the characters say, blank or word by their first
      character, as wide as they are long, and of certain width. */
  ghost predicate AsciiTokens(line: string, tokens: seq<Token>) {
    && (forall k :: 0 < k < |line| ==> (EndsAt(tokens, k) <==> TokenEnds(line, k)))
    && (forall i :: 0 <= i < |tokens| ==>
          var t := tokens[i];
          t.start < t.end <= |line| && t.space == (line[t.start] == ' ') && t.width == t.end - t.start && t.exact)
  }

  predicate EndsAt(tokens: seq<Token>, k: nat) {
    exists i :: 0 <= i < |tokens| && tokens[i].end == k
  }

  lemma {:induction false} TokensOfAscii(u: Unicode, line: string, tokens: seq<Token>)
    requires u.Valid() && Printable(line)
    requires Tokenizes(LineGlyphs(u, line), tokens, |u.graphemes(line)|)
    ensures AsciiTokens(line, tokens)
  {
    hide LineGlyphs, Unicode.Valid, Tokenizes, TokenEnds, Cut, Column;
    var glyphs := LineGlyphs(u, line);
    AsciiLength(u, line);
    forall k | 0 < k < |line|
      ensures EndsAt(tokens, k) <==> TokenEnds(line, k)
    {
      TokensEndAtCuts(glyphs, tokens, |line|, k);
      AsciiCut(u, line, k);
    }
    forall i | 0 <= i < |tokens|
      ensures tokens[i].start < tokens[i].end <= |line|
      ensures tokens[i].space == (line[tokens[i].start] == ' ') && tokens[i].exact
      ensures tokens[i].width == tokens[i].end - tokens[i].start
    {
      var t := tokens[i];
      TokensAreContiguous(glyphs, tokens, |line|, i);
      AsciiGlyph(u, line, t.start);
      AsciiColumns(u, line, t.start);
      AsciiColumns(u, line, t.end);
      forall k | t.start <= k < t.end
        ensures glyphs[k].exact
      {
        AsciiGlyph(u, line, k);
      }
    }
  }

  method Tokenize(u: Unicode, line: string) returns (tokens: seq<Token>, clusters: seq<string>)
    requires u.Valid()
    ensures clusters == u.graphemes(line)
    ensures Tokenizes(LineGlyphs(u, line), tokens, |clusters|)
    ensures Printable(line) ==> AsciiTokens(line, tokens)
  {
    hide AsciiTokens, Tokenizes;
    FastPathIsSlowPath(u, line);
    var ascii := IsPlainAscii(line);
    clusters := Clusters(u, line, ascii);
    tokens := TokenizeGlyphs(Glyphs(u, clusters, ascii));
    if Printable(line) {
      TokensOfAscii(u, line, tokens);
    }
  }

  // ----- wrapping

  /** The byte offset at which cluster `k` starts. */
  function Offset(clusters: seq<string>, k: nat): nat {
    if k == 0 then 0 else Offset(clusters, k - 1) + if k <= |clusters| then |Encode(clusters[k - 1])| else 0
  }

  function RangeOf(clusters: seq<string>, a: nat, b: nat, base: nat): Range {
    Range(base + Offset(clusters, a), base + Offset(clusters, b))
  }

  /** The byte ranges of the lines that `cuts` make of the clusters from `s` on. */
  function RangesFrom(clusters: seq<string>, s: nat, cuts: seq<nat>, base: nat): seq<Range>
    decreases |cuts|
  {
    if cuts == [] then
      [RangeOf(clusters, s, |clusters|, base)]
    else
      [RangeOf(clusters, s, cuts[0], base)] + RangesFrom(clusters, cuts[0], cuts[1..], base)
  }

  /** What the wrapper emits for a hard line that starts at byte `base`. */
  ghost function LineRanges(u: Unicode, line: string, cols: nat, base: nat): seq<Range> {
    if cols == 0 then
      [Range(base, base + |Encode(line)|)]
    else
      RangesFrom(u.graphemes(line), 0, LineBreaks(LineGlyphs(u, line), cols), base)
  }

  /** Where the wrapper stands: the open line starts at `s`, and no glyph of it before `p` sticks out. */
  ghost predicate Wrapping(line: seq<Glyph>, cols: nat, s: nat, placed: bool, p: nat) {
    && s <= p <= |line|
    && (placed ==> s < p)
    && (forall k :: (if placed then s + 1 else s) <= k < p ==> !Overflows(line, cols, s, k))
  }

  lemma WordFitsOn(line: seq<Glyph>, cols: nat, s: nat, placed: bool, t: Token)
    requires IsToken(line, t) && Wrapping(line, cols, s, placed, t.start)
    requires t.space || Column(line, t.end) - Column(line, s) <= cols
    ensures Wrapping(line, cols, s, placed, t.end)
  {
    forall k | t.start <= k < t.end
      ensures !Overflows(line, cols, s, k)
    {
      TokenIsUniform(line, t.start, t.end, k);
      ColumnMonotone(line, k + 1, t.end);
    }
  }

  lemma BreakBeforeToken(line: seq<Glyph>, cols: nat, s: nat, placed: bool, t: Token)
    requires IsToken(line, t) && !t.space && Wrapping(line, cols, s, placed, t.start)
    requires Column(line, t.end) - Column(line, s) > cols && Column(line, t.start) > Column(line, s)
    ensures Breaks(line, cols, s, placed) == [t.start] + Breaks(line, cols, t.start, false)
  {
    var k := FirstOverflow(line, cols, s, if placed then s + 1 else s);
    TokenIsUniform(line, t.start, t.end, t.end - 1);
    assert Overflows(line, cols, s, t.end - 1);
    assert t.start <= k < t.end;
    TokenStartIs(line, t, k);
  }

  lemma BreakInsideToken(line: seq<Glyph>, cols: nat, s: nat, placed: bool, t: Token, j: nat)
    requires IsToken(line, t) && t.start <= j < t.end && Wrapping(line, cols, s, placed, j)
    requires Overflows(line, cols, s, j) && Column(line, t.start) <= Column(line, s)
    ensures Breaks(line, cols, s, placed) == [j] + Breaks(line, cols, j, true)
  {
    FirstOverflowIs(line, cols, s, if placed then s + 1 else s, j);
    TokenStartIs(line, t, j);
  }

  lemma NothingSticksOut(line: seq<Glyph>, cols: nat, s: nat, placed: bool)
    requires Wrapping(line, cols, s, placed, |line|)
    ensures Breaks(line, cols, s, placed) == []
  {
    FirstOverflowIs(line, cols, s, if placed then s + 1 else s, |line|);
  }

  /** The ranges emitted so far and those still to come, with a line open at `s`, make up `whole`. */
  ghost predicate Emitting(line: seq<Glyph>, clusters: seq<string>, cols: nat, base: nat,
                           out: seq<Range>, s: nat, placed: bool, whole: seq<Range>)
    requires |line| == |clusters|
  {
    && s <= |line| && (placed ==> s < |line|)
    && out + RangesFrom(clusters, s, Breaks(line, cols, s, placed), base) == whole
  }

  lemma Emit(line: seq<Glyph>, clusters: seq<string>, cols: nat, base: nat, out: seq<Range>, s: nat, placed: bool,
             whole: seq<Range>, c: nat, placedNext: bool)
    requires |line| == |clusters| && Emitting(line, clusters, cols, base, out, s, placed, whole) && c < |line|
    requires Breaks(line, cols, s, placed) == [c] + Breaks(line, cols, c, placedNext)
    ensures Emitting(line, clusters, cols, base, out + [RangeOf(clusters, s, c, base)],
                     c, placedNext, whole)
  {
    var r := [RangeOf(clusters, s, c, base)];
    var rest := RangesFrom(clusters, c, Breaks(line, cols, c, placedNext), base);
    assert ([c] + Breaks(line, cols, c, placedNext))[1..] == Breaks(line, cols, c, placedNext);
    assert (out + r) + rest == out + (r + rest);
  }

  /** One glyph of a word: its cells are its columns, and it either stays on the line or opens the next one. */
  lemma WordGlyph(line: seq<Glyph>, cols: nat, s: nat, placed: bool, t: Token, j: nat)
    requires IsToken(line, t) && !t.space && t.start <= j < t.end && Wrapping(line, cols, s, placed, j)
    ensures !line[j].Blank() && Column(line, j + 1) == Column(line, j) + line[j].cells
    ensures Wrapping(line, cols, j, true, j + 1)
    ensures Column(line, j + 1) - Column(line, s) <= cols ==> Wrapping(line, cols, s, placed, j + 1)
    ensures Column(line, j + 1) - Column(line, s) > cols ==> Overflows(line, cols, s, j)
  {
    TokenIsUniform(line, t.start, t.end, j);
  }

  /** The state of the overlong-word loop in front of glyph `j` of token `t`. */
  ghost predicate Splitting(line: seq<Glyph>, cols: nat, t: Token, s: nat, placed: bool, carried: nat, j: nat) {
    && IsToken(line, t) && !t.space && t.start <= j <= t.end
    && Wrapping(line, cols, s, placed, j)
    && carried == Column(line, j) - Column(line, s)
    && Column(line, t.start) <= Column(line, s)
  }

  lemma SplitStays(line: seq<Glyph>, cols: nat, t: Token, s: nat, placed: bool, carried: nat, j: nat)
    requires Splitting(line, cols, t, s, placed, carried, j) && j < t.end && carried + line[j].cells <= cols
    ensures Splitting(line, cols, t, s, placed, carried + line[j].cells, j + 1)
  {
    WordGlyph(line, cols, s, placed, t, j);
  }

  lemma SplitBreaks(line: seq<Glyph>, cols: nat, t: Token, s: nat, placed: bool, carried: nat, j: nat)
    requires Splitting(line, cols, t, s, placed, carried, j) && j < t.end && carried + line[j].cells > cols
    ensures Splitting(line, cols, t, j, true, line[j].cells, j + 1)
    ensures Breaks(line, cols, s, placed) == [j] + Breaks(line, cols, j, true)
  {
    WordGlyph(line, cols, s, placed, t, j);
    ColumnMonotone(line, t.start, j);
    BreakInsideToken(line, cols, s, placed, t, j);
  }

  /** The overlong-word path: `word` is filled into lines cluster by cluster. */
  method SplitWord(ghost line: seq<Glyph>, clusters: seq<string>, cols: nat, base: nat, t: Token, word: seq<Glyph>,
                   s: nat, ghost placed: bool, out: seq<Range>, ghost whole: seq<Range>)
      returns (result: seq<Range>, lineStart: nat, ghost placedNow: bool, carried: nat)
    requires |line| == |clusters|
    requires t.start + |word| == t.end <= |line| && forall i :: 0 <= i < |word| ==> word[i] == line[t.start + i]
    requires Splitting(line, cols, t, s, placed, 0, t.start)
    requires Emitting(line, clusters, cols, base, out, s, placed, whole)
    ensures Splitting(line, cols, t, lineStart, placedNow, carried, t.end)
    ensures Emitting(line, clusters, cols, base, result, lineStart, placedNow, whole)
  {
    hide Column, Breaks, FirstOverflow, TokenStart, Cut, RangesFrom, Offset;
    result, lineStart, placedNow, carried := out, s, placed, 0;
    var i := 0;
    while i < |word|
      invariant 0 <= i <= |word|
      invariant Splitting(line, cols, t, lineStart, placedNow, carried, t.start + i)
      invariant Emitting(line, clusters, cols, base, result, lineStart, placedNow, whole)
    {
      var at := t.start + i;
      var size := word[i].cells;
      if carried + size > cols {
        SplitBreaks(line, cols, t, lineStart, placedNow, carried, at);
        Emit(line, clusters, cols, base, result, lineStart, placedNow, whole, at, true);
        result := result + [RangeOf(clusters, lineStart, at, base)];
        lineStart, placedNow, carried := at, true, 0;
      } else {
        SplitStays(line, cols, t, lineStart, placedNow, carried, at);
      }
      carried := carried + size;
      i := i + 1;
    }
  }

  /** Reading the text of a token afresh, by whichever path, gives the line's glyphs inside the token. */
  ghost predicate ReadsAgain(u: Unicode, line: seq<Glyph>, clusters: seq<string>, t: Token) {
    && |line| == |clusters| && t.start < t.end <= |line|
    && var text := Joined(clusters[t.start..t.end]);
       Glyphs(u, Clusters(u, text, IsPlainAscii(text)), IsPlainAscii(text)) == line[t.start..t.end]
  }

  /** The clusters of a token's text are the line's clusters inside the token, whichever path reads them. */
  lemma TokenText(u: Unicode, line: string, t: Token)
    requires u.Valid() && t.start < t.end <= |u.graphemes(line)|
    ensures ReadsAgain(u, LineGlyphs(u, line), u.graphemes(line), t)
  {
    var cs := u.graphemes(line);
    var text := Joined(cs[t.start..t.end]);
    FastPathIsSlowPath(u, text);
    assert u.SplitsLocally(line, t.start, t.end);
  }

  /** Where token `i` starts, the end of the line standing for one past the last. */
  function StartOf(tokens: seq<Token>, i: nat, n: nat): nat {
    if i < |tokens| then tokens[i].start else n
  }

  /** The wrapper in front of glyph `p`: `position` columns of the open line are taken. */
  ghost predicate Standing(line: seq<Glyph>, cols: nat, s: nat, placed: bool, position: nat, p: nat) {
    Wrapping(line, cols, s, placed, p) && position == Column(line, p) - Column(line, s)
  }

  lemma TokenAt(line: seq<Glyph>, tokens: seq<Token>, i: nat)
    requires Tokenizes(line, tokens, |line|) && i < |tokens|
    ensures tokens[i].start < tokens[i].end <= |line|
    ensures IsToken(line, tokens[i]) && tokens[i].end == StartOf(tokens, i + 1, |line|)
  {
    TokensAreContiguous(line, tokens, |line|, i);
    if i + 1 < |tokens| {
      TokensAreContiguous(line, tokens, |line|, i + 1);
    }
  }

  lemma StaysOn(line: seq<Glyph>, cols: nat, s: nat, placed: bool, position: nat, t: Token)
    requires IsToken(line, t) && Standing(line, cols, s, placed, position, t.start)
    requires t.space || position + t.width <= cols
    ensures Standing(line, cols, s, placed, position + t.width, t.end)
  {
    WordFitsOn(line, cols, s, placed, t);
  }

  lemma StartsLine(line: seq<Glyph>, cols: nat, s: nat, placed: bool, position: nat, t: Token)
    requires IsToken(line, t) && !t.space && Standing(line, cols, s, placed, position, t.start)
    requires position + t.width > cols && position > 0
    ensures t.start < |line| && s < |line|
    ensures Breaks(line, cols, s, placed) == [t.start] + Breaks(line, cols, t.start, false)
    ensures Splitting(line, cols, t, t.start, false, 0, t.start)
    ensures t.width <= cols ==> Standing(line, cols, t.start, false, t.width, t.end)
  {
    BreakBeforeToken(line, cols, s, placed, t);
    if t.width <= cols {
      WordFitsOn(line, cols, t.start, false, t);
    }
  }

  lemma LastRange(line: seq<Glyph>, clusters: seq<string>, cols: nat, base: nat, out: seq<Range>, s: nat, placed: bool,
                  position: nat, whole: seq<Range>)
    requires |line| == |clusters| && Emitting(line, clusters, cols, base, out, s, placed, whole)
    requires Standing(line, cols, s, placed, position, |line|)
    ensures out + [RangeOf(clusters, s, |clusters|, base)] == whole
  {
    NothingSticksOut(line, cols, s, placed);
  }

  lemma EmptyLine(u: Unicode, line: string, cols: nat, base: nat)
    requires u.Valid() && u.graphemes(line) == []
    ensures LineRanges(u, line, cols, base) == [Range(base, base + |Encode(line)|)]
  {
    assert u.SplitsUp(line);
    LastRange(LineGlyphs(u, line), [], cols, base, [], 0, false, 0, LineRanges(u, line, cols, base));
  }

  lemma WholeLine(u: Unicode, line: string, base: nat)
    ensures LineRanges(u, line, 0, base) == [Range(base, base + |Encode(line)|)]
  {
  }

  lemma WrapStarts(u: Unicode, line: string, cols: nat, base: nat, out: seq<Range>)
    requires cols > 0
    ensures Standing(LineGlyphs(u, line), cols, 0, false, 0, 0) && AllExact(LineGlyphs(u, line), 0, 0)
    ensures Emitting(LineGlyphs(u, line), u.graphemes(line), cols, base, out, 0, false, out + LineRanges(u, line, cols, base))
  {
  }

  lemma ExactSoFar(line: seq<Glyph>, t: Token)
    requires IsToken(line, t)
    ensures t.start <= t.end <= |line|
    ensures AllExact(line, 0, t.end) <==> AllExact(line, 0, t.start) && t.exact
  {
  }

  lemma SplitStarts(line: seq<Glyph>, cols: nat, s: nat, placed: bool, t: Token)
    requires IsToken(line, t) && !t.space && Standing(line, cols, s, placed, 0, t.start)
    ensures Splitting(line, cols, t, s, placed, 0, t.start)
  {
  }

  lemma SplitEnds(line: seq<Glyph>, cols: nat, t: Token, s: nat, placed: bool, carried: nat)
    requires Splitting(line, cols, t, s, placed, carried, t.end)
    ensures Standing(line, cols, s, placed, carried, t.end)
  {
  }

  /** One turn of the wrapper's loop: token `t` stays on the open line, starts the next one, or, when it is wider than
      a line, is split. */
  method PlaceToken(u: Unicode, ghost glyphs: seq<Glyph>, clusters: seq<string>, cols: nat, base: nat,
                    t: Token, s: nat, ghost placed: bool, taken: nat, out: seq<Range>, ghost whole: seq<Range>)
      returns (result: seq<Range>, lineStart: nat, ghost placedNow: bool, position: nat)
    requires ReadsAgain(u, glyphs, clusters, t) && IsToken(glyphs, t)
    requires Standing(glyphs, cols, s, placed, taken, t.start)
    requires Emitting(glyphs, clusters, cols, base, out, s, placed, whole)
    ensures Standing(glyphs, cols, lineStart, placedNow, position, t.end)
    ensures Emitting(glyphs, clusters, cols, base, result, lineStart, placedNow, whole)
  {
    hide GlyphOf, ClusterCells, IsPlainAscii, Joined, Singles, Clusters, Unicode.Valid, RangeOf, Offset;
    hide IsToken, Standing, Emitting, Splitting, Breaks, Column;
    if t.space {
      StaysOn(glyphs, cols, s, placed, taken, t);
      return out, s, placed, taken + t.width;
    }
    if taken + t.width <= cols {
      StaysOn(glyphs, cols, s, placed, taken, t);
      return out, s, placed, taken + t.width;
    }
    result, lineStart, placedNow := out, s, placed;
    if taken > 0 {
      StartsLine(glyphs, cols, s, placed, taken, t);
      Emit(glyphs, clusters, cols, base, out, s, placed, whole, t.start, false);
    } else {
      SplitStarts(glyphs, cols, s, placed, t);
    }
    if t.width <= cols {
      return out + [RangeOf(clusters, s, t.start, base)], t.start, false, t.width;
    }
    if taken > 0 {
      result, lineStart, placedNow := out + [RangeOf(clusters, s, t.start, base)], t.start, false;
    }
    var text := Joined(clusters[t.start..t.end]);
    var ascii := IsPlainAscii(text);
    var word := Glyphs(u, Clusters(u, text, ascii), ascii);
    result, lineStart, placedNow, position :=
      SplitWord(glyphs, clusters, cols, base, t, word, lineStart, placedNow, result, whole);
    SplitEnds(glyphs, cols, t, lineStart, placedNow, position);
  }

  /** Wraps a hard line that starts at byte `base`, appending the byte ranges of its lines to `out`. */
  method WrapInto(u: Unicode, line: string, cols: nat, base: nat, out: seq<Range>)
      returns (result: seq<Range>, exact: bool)
    requires u.Valid()
    ensures result == out + LineRanges(u, line, cols, base)
    ensures exact <==> cols > 0 && AllExact(LineGlyphs(u, line), 0, |LineGlyphs(u, line)|)
  {
    hide LineRanges, Encode, RangeOf, Offset, GlyphOf, Unicode.Valid;
    hide Tokenizes, IsToken, AllExact, Standing, Emitting, ReadsAgain;
    if cols == 0 {
      WholeLine(u, line, base);
      return out + [Range(base, base + |Encode(line)|)], false;
    }
    var tokens, clusters := Tokenize(u, line);
    ghost var glyphs := LineGlyphs(u, line);
    ghost var whole := out + LineRanges(u, line, cols, base);
    WrapStarts(u, line, cols, base, out);
    if tokens == [] {
      NoTokens(glyphs);
      EmptyLine(u, line, cols, base);
      return out + [Range(base, base + |Encode(line)|)], true;
    }
    TokensAreContiguous(glyphs, tokens, |glyphs|, 0);
    result, exact := out, true;
    var lineStart: nat, position: nat := 0, 0;
    ghost var placed := false;
    for i := 0 to |tokens|
      invariant StartOf(tokens, i, |glyphs|) <= |glyphs|
      invariant Standing(glyphs, cols, lineStart, placed, position, StartOf(tokens, i, |glyphs|))
      invariant exact <==> AllExact(glyphs, 0, StartOf(tokens, i, |glyphs|))
      invariant Emitting(glyphs, clusters, cols, base, result, lineStart, placed, whole)
    {
      var t := tokens[i];
      TokenAt(glyphs, tokens, i);
      TokenText(u, line, t);
      ExactSoFar(glyphs, t);
      exact := exact && t.exact;
      result, lineStart, placed, position :=
        PlaceToken(u, glyphs, clusters, cols, base, t, lineStart, placed, position, result, whole);
    }
    LastRange(glyphs, clusters, cols, base, result, lineStart, placed, position, whole);
    result := result + [RangeOf(clusters, lineStart, |clusters|, base)];
  }

  lemma NoTokens(line: seq<Glyph>)
    requires Tokenizes(line, [], |line|)
    ensures line == [] && AllExact(line, 0, 0)
  {
  }
}
