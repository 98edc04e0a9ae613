/** Terminal rows on the wire: `write_vt_line` and the colours it resolves, from `crates/core/src/engine.rs`. */
module VtLine {
  import opened Options
  import opened Utf8
  import opened Bytes
  import opened Codecs

  datatype Color = Default | Indexed(index: u8) | Rgb(r: u8, g: u8, b: u8)

  datatype Style = Style(fg: Color, bg: Color, bold: bool, dim: bool, italic: bool, underline: bool, inverse: bool,
                         strikethrough: bool, hidden: bool)

  datatype CellText = NoText | Char(c: char) | Cluster(s: string)

  datatype Cell = Cell(text: CellText, style: Style, continuation: bool)

  /** A run of cells of one style. */
  datatype Run = Run(style: Style, text: string, columns: nat)

  const U16_MAX: nat := 0xFFFF

  function TextOf(cell: Cell): string {
    match cell.text
    case NoText => " "
    case Char(c) => [c]
    case Cluster(s) => s
  }

  // ----- run-length coding

  /** One turn of the loop: a continuation widens the last run, any other cell joins it or opens the next. A column
      count is a 16-bit word. */
  function AddCell(runs: seq<Run>, cell: Cell): seq<Run> {
    if cell.continuation then
      if runs == [] then [] else
      var last := runs[|runs| - 1];
      runs[..|runs| - 1] + [last.(columns := (last.columns + 1) % 0x1_0000)]
    else if runs != [] && runs[|runs| - 1].style == cell.style then
      var last := runs[|runs| - 1];
      runs[..|runs| - 1] + [Run(last.style, last.text + TextOf(cell), (last.columns + 1) % 0x1_0000)]
    else
      runs + [Run(cell.style, TextOf(cell), 1)]
  }

  function RunsOf(cells: seq<Cell>): seq<Run> {
    if cells == [] then [] else AddCell(RunsOf(cells[..|cells| - 1]), cells[|cells| - 1])
  }

  /** The same turn as updates in place of the last run, which is opened empty where the style changes. */
  lemma AddCellInPlace(runs: seq<Run>, cell: Cell)
    ensures cell.continuation && runs == [] ==> AddCell(runs, cell) == runs
    ensures cell.continuation && runs != [] ==> AddCell(runs, cell) == Widened(runs, "")
    ensures !cell.continuation ==>
              AddCell(runs, cell)
              == Widened(if runs != [] && runs[|runs| - 1].style == cell.style then runs else runs + [Run(cell.style, "", 0)],
                         TextOf(cell))
  {
    hide TextOf;
    assert "" + TextOf(cell) == TextOf(cell);
    if runs != [] {
      assert runs[|runs| - 1].text + "" == runs[|runs| - 1].text;
    }
  }

  function Widened(runs: seq<Run>, text: string): seq<Run>
    requires runs != []
  {
    var last := runs[|runs| - 1];
    runs[|runs| - 1 := Run(last.style, last.text + text, (last.columns + 1) % 0x1_0000)]
  }

  lemma OneMoreTurn(cells: seq<Cell>, i: nat)
    requires i < |cells|
    ensures RunsOf(cells[..i + 1]) == AddCell(RunsOf(cells[..i]), cells[i])
  {
    hide AddCell;
    assert cells[..i + 1][..i] == cells[..i];
  }

  method CollectRuns(cells: seq<Cell>) returns (runs: seq<Run>)
    ensures runs == RunsOf(cells)
  {
    hide TextOf, AddCell;
    runs := [];
    for i := 0 to |cells|
      invariant runs == RunsOf(cells[..i])
    {
      hide RunsOf;
      var cell := cells[i];
      OneMoreTurn(cells, i);
      AddCellInPlace(runs, cell);
      if cell.continuation {
        if runs != [] {
          var last := runs[|runs| - 1];
          assert last.text + "" == last.text;
          runs := runs[|runs| - 1 := last.(columns := (last.columns + 1) % 0x1_0000)];
        }
      } else {
        var same := runs != [] && runs[|runs| - 1].style == cell.style;
        if !same {
          runs := runs + [Run(cell.style, "", 0)];
        }
        var last := runs[|runs| - 1];
        runs := runs[|runs| - 1 := Run(last.style, last.text + TextOf(cell), (last.columns + 1) % 0x1_0000)];
      }
    }
    assert cells[..|cells|] == cells;
  }

  // ----- what the runs say about the cells

  /** A character with its style, as drawn. */
  datatype Drawn = Drawn(c: char, style: Style)

  function Styled(s: string, style: Style): (r: seq<Drawn>)
    ensures |r| == |s| && forall i :: 0 <= i < |s| ==> r[i] == Drawn(s[i], style)
  {
    seq(|s|, i requires 0 <= i < |s| => Drawn(s[i], style))
  }

  lemma StyledAppend(a: string, b: string, style: Style)
    ensures Styled(a + b, style) == Styled(a, style) + Styled(b, style)
  {
  }

  /** Everything the cells draw, in order: the text of each cell that is not a continuation. */
  function DrawnCells(cells: seq<Cell>): seq<Drawn> {
    if cells == [] then
      []
    else
      var last := cells[|cells| - 1];
      DrawnCells(cells[..|cells| - 1]) + if last.continuation then [] else Styled(TextOf(last), last.style)
  }

  /** What one cell draws: its character or cluster, a blank where it has none, and nothing where it continues another. */
  lemma CellDraws(style: Style, c: char, s: string)
    ensures forall text: CellText :: DrawnCells([Cell(text, style, true)]) == []
    ensures DrawnCells([Cell(NoText, style, false)]) == [Drawn(' ', style)]
    ensures DrawnCells([Cell(Char(c), style, false)]) == [Drawn(c, style)]
    ensures var drawn := DrawnCells([Cell(Cluster(s), style, false)]);
            |drawn| == |s| && forall i :: 0 <= i < |s| ==> drawn[i] == Drawn(s[i], style)
  {
    forall cell
      ensures DrawnCells([cell]) == if cell.continuation then [] else Styled(TextOf(cell), cell.style)
    {
      assert [cell][..0] == [];
    }
    assert Styled(" ", style) == [Drawn(' ', style)] && Styled([c], style) == [Drawn(c, style)];
  }

  function DrawnRuns(runs: seq<Run>): seq<Drawn> {
    if runs == [] then
      []
    else
      DrawnRuns(runs[..|runs| - 1]) + Styled(runs[|runs| - 1].text, runs[|runs| - 1].style)
  }

  function Repeat(style: Style, n: nat): (r: seq<Style>)
    ensures |r| == n && forall i :: 0 <= i < n ==> r[i] == style
  {
    seq(n, _ => style)
  }

  /** The style of every column: a continuation has that of the cell it continues, one that continues nothing none. */
  function CellColumns(cells: seq<Cell>): (r: seq<Style>)
    ensures |r| <= |cells|
  {
    if cells == [] then
      []
    else
      var before, last := CellColumns(cells[..|cells| - 1]), cells[|cells| - 1];
      if !last.continuation then before + [last.style]
      else if before == [] then []
      else before + [before[|before| - 1]]
  }

  function RunColumns(runs: seq<Run>): seq<Style> {
    if runs == [] then
      []
    else
      RunColumns(runs[..|runs| - 1]) + Repeat(runs[|runs| - 1].style, runs[|runs| - 1].columns)
  }

  ghost predicate NeighboursDiffer(runs: seq<Run>) {
    forall i, j :: 0 <= i && j == i + 1 && j < |runs| ==> runs[i].style != runs[j].style
  }

  ghost predicate NoneEmpty(runs: seq<Run>) {
    forall i :: 0 <= i < |runs| ==> runs[i].columns > 0
  }

  lemma SplitLast(front: seq<Run>, last: Run)
    ensures DrawnRuns(front + [last]) == DrawnRuns(front) + Styled(last.text, last.style)
    ensures RunColumns(front + [last]) == RunColumns(front) + Repeat(last.style, last.columns)
  {
    assert (front + [last])[..|front|] == front;
  }

  lemma OneMoreColumn(style: Style, n: nat)
    ensures Repeat(style, n + 1) == Repeat(style, n) + [style]
  {
  }

  /** From column `i` on, one style for more columns than a 16-bit word counts. */
  predicate LongStretch(columns: seq<Style>, i: nat) {
    i + U16_MAX < |columns| && forall j :: i <= j <= i + U16_MAX ==> columns[j] == columns[i]
  }

  ghost predicate NoLongStretch(columns: seq<Style>) {
    forall i: nat :: !LongStretch(columns, i)
  }

  /** Run-length coding keeps a terminal row, that is to say the runs draw what the cells draw, every column has the style
      it had, no run is empty, and neighbouring runs differ in style, exactly when no style goes on for more than 65535
      columns. */
  lemma {:induction false} RunsKeepTheRowIff(cells: seq<Cell>)
    ensures RowIsKept(cells) <==> NoLongStretch(CellColumns(cells))
    ensures |cells| <= U16_MAX ==> RowIsKept(cells)
  {
    hide RowIsKept, CellColumns;
    if RowIsKept(cells) {
      KeptIsShort(cells);
    }
    if NoLongStretch(CellColumns(cells)) {
      ShortIsKept(cells);
    }
  }

  lemma {:induction false} ShortIsKept(cells: seq<Cell>)
    requires NoLongStretch(CellColumns(cells))
    ensures RowIsKept(cells)
  {
    hide RowIsKept, CellColumns;
    if cells == [] {
      NoCells();
    } else {
      var front, cell := cells[..|cells| - 1], cells[|cells| - 1];
      assert front + [cell] == cells;
      ShorterStretch(front, cell);
      ShortIsKept(front);
      if Wraps(front, cell) {
        WrapsTooLong(front, cell);
      }
      CellIsKept(front, cell);
    }
  }

  lemma {:induction false} ShorterStretch(front: seq<Cell>, cell: Cell)
    requires NoLongStretch(CellColumns(front + [cell]))
    ensures NoLongStretch(CellColumns(front))
  {
    hide CellColumns, LongStretch;
    OneMoreCell(front, cell);
    var before, after := CellColumns(front), CellColumns(front + [cell]);
    assert before <= after;
    forall i: nat
      ensures LongStretch(before, i) ==> LongStretch(after, i)
    {
      StretchStays(before, after, i);
    }
  }

  lemma StretchStays(before: seq<Style>, after: seq<Style>, i: nat)
    requires before <= after
    ensures LongStretch(before, i) <==> LongStretch(after, i) && i + U16_MAX < |before|
  {
    assert forall j :: 0 <= j < |before| ==> after[j] == before[j];
  }

  /** The cell goes to a run as wide as a word counts, whose count starts over. */
  predicate Wraps(front: seq<Cell>, cell: Cell) {
    WrapsRun(RunsOf(front), cell)
  }

  predicate WrapsRun(runs: seq<Run>, cell: Cell) {
    runs != [] && (cell.continuation || runs[|runs| - 1].style == cell.style) && runs[|runs| - 1].columns == U16_MAX
  }

  lemma {:induction false} WrapsTooLong(front: seq<Cell>, cell: Cell)
    requires RowIsKept(front) && Wraps(front, cell)
    ensures !NoLongStretch(CellColumns(front + [cell]))
  {
    hide RunsOf, DrawnRuns, DrawnCells, CellColumns, RunColumns, LongStretch;
    var runs := RunsOf(front);
    var before, last := runs[..|runs| - 1], runs[|runs| - 1];
    assert runs == before + [last];
    LastColumn(front, before, last);
    OneMoreCell(front, cell);
    var columns, n := CellColumns(front + [cell]), |CellColumns(front)|;
    assert columns[n] == last.style;
    assert CellColumns(front) <= columns && |columns| == n + 1;
    OneColumnMore(CellColumns(front), columns, n - U16_MAX);
  }

  lemma OneColumnMore(before: seq<Style>, columns: seq<Style>, i: nat)
    requires i + U16_MAX == |before| && |columns| == |before| + 1 && before <= columns
    requires columns[|before|] == before[i] && forall j :: i <= j < |before| ==> before[j] == before[i]
    ensures LongStretch(columns, i)
  {
    assert forall j :: i <= j < |before| ==> columns[j] == before[j];
  }

  lemma KeptIsShort(cells: seq<Cell>)
    requires RowIsKept(cells)
    ensures NoLongStretch(CellColumns(cells))
  {
    hide CellColumns, RunColumns, DrawnRuns, DrawnCells;
    CountsFitWords(cells);
    RunsAreShort(RunsOf(cells));
  }

  lemma {:induction false} CountsFitWords(cells: seq<Cell>)
    ensures forall i :: 0 <= i < |RunsOf(cells)| ==> RunsOf(cells)[i].columns <= U16_MAX
  {
    if cells != [] {
      CountsFitWords(cells[..|cells| - 1]);
    }
  }

  /** Runs whose counts fit a word and whose neighbours differ have no stretch longer than that. */
  lemma {:induction false} RunsAreShort(runs: seq<Run>)
    requires NeighboursDiffer(runs) && NoneEmpty(runs) && forall i :: 0 <= i < |runs| ==> runs[i].columns <= U16_MAX
    ensures NoLongStretch(RunColumns(runs))
    ensures runs != [] ==> RunColumns(runs) != [] && RunColumns(runs)[|RunColumns(runs)| - 1] == runs[|runs| - 1].style
  {
    hide LongStretch, RunColumns;
    NoLongNothing();
    if runs != [] {
      var front, last := runs[..|runs| - 1], runs[|runs| - 1];
      assert forall i :: 0 <= i < |front| ==> front[i] == runs[i];
      RunsAreShort(front);
      var before, columns := RunColumns(front), RunColumns(runs);
      SplitLast(front, last);
      assert runs == front + [last] && columns[|columns| - 1] == last.style;
      if front != [] {
        assert front[|front| - 1].style != runs[|front|].style;
      }
      forall i: nat
        ensures !LongStretch(columns, i)
      {
        LastRunIsShort(before, last, columns, i);
      }
    }
  }

  lemma NoLongNothing()
    ensures RunColumns([]) == [] && NoLongStretch([])
  {
  }

  lemma LastRunIsShort(before: seq<Style>, last: Run, columns: seq<Style>, i: nat)
    requires columns == before + Repeat(last.style, last.columns) && last.columns <= U16_MAX
    requires before != [] ==> before[|before| - 1] != last.style
    requires !LongStretch(before, i)
    ensures !LongStretch(columns, i)
  {
    var n := |before|;
    if i + U16_MAX < n {
      StretchStays(before, columns, i);
    } else if i + U16_MAX < |columns| {
      assert columns[n - 1] == before[n - 1] && columns[n] == last.style;
    }
  }

  lemma NoCells()
    ensures RowIsKept([])
  {
  }

  ghost predicate RowIsKept(cells: seq<Cell>) {
    var runs := RunsOf(cells);
    && DrawnRuns(runs) == DrawnCells(cells)
    && RunColumns(runs) == CellColumns(cells)
    && NeighboursDiffer(runs) && NoneEmpty(runs)
  }

  /** The row with one more cell, taken apart. */
  lemma {:induction false} OneMoreCell(front: seq<Cell>, cell: Cell)
    ensures RunsOf(front + [cell]) == AddCell(RunsOf(front), cell)
    ensures DrawnCells(front + [cell])
         == DrawnCells(front) + if cell.continuation then [] else Styled(TextOf(cell), cell.style)
    ensures !cell.continuation ==> CellColumns(front + [cell]) == CellColumns(front) + [cell.style]
    ensures cell.continuation ==>
              CellColumns(front + [cell])
              == if CellColumns(front) == [] then [] else CellColumns(front) + [CellColumns(front)[|CellColumns(front)| - 1]]
  {
    assert (front + [cell])[..|front|] == front;
  }

  lemma {:induction false} LastColumn(front: seq<Cell>, before: seq<Run>, last: Run)
    requires RowIsKept(front) && RunsOf(front) == before + [last]
    ensures var columns := CellColumns(front);
            && columns != [] && last.columns <= |columns|
            && forall j :: |columns| - last.columns <= j < |columns| ==> columns[j] == last.style
    ensures last.columns > 0
  {
    hide RunsOf, DrawnRuns, DrawnCells, CellColumns, RunColumns;
    SplitLast(before, last);
    assert (before + [last])[|before|] == last;
  }

  lemma {:induction false} RunGrows(front: seq<Cell>, cell: Cell, before: seq<Run>, last: Run, text: string)
    requires last.columns < U16_MAX && RowIsKept(front) && RunsOf(front) == before + [last]
    requires cell.continuation || cell.style == last.style
    requires text == if cell.continuation then "" else TextOf(cell)
    ensures RowIsKept(front + [cell])
  {
    hide RunsOf, DrawnRuns, DrawnCells, CellColumns, RunColumns, TextOf;
    var next := Run(last.style, last.text + text, last.columns + 1);
    OneMoreCell(front, cell);
    LastColumn(front, before, last);
    assert last.text + "" == last.text;
    assert RunsOf(front + [cell]) == before + [next];
    SplitLast(before, last);
    SplitLast(before, next);
    StyledAppend(last.text, text, last.style);
    OneMoreColumn(last.style, last.columns);
    SameStyles(before, last, next);
  }

  lemma {:induction false} SameStyles(before: seq<Run>, last: Run, next: Run)
    requires NeighboursDiffer(before + [last]) && NoneEmpty(before + [last])
    requires next.style == last.style && next.columns > 0
    ensures NeighboursDiffer(before + [next]) && NoneEmpty(before + [next])
  {
    var one, two := before + [last], before + [next];
    assert forall i :: 0 <= i < |two| ==> two[i].style == one[i].style;
    assert forall i :: 0 <= i < |before| ==> two[i] == one[i];
  }

  lemma {:induction false} RunOpens(front: seq<Cell>, cell: Cell)
    requires RowIsKept(front) && !cell.continuation
    requires RunsOf(front) != [] ==> RunsOf(front)[|RunsOf(front)| - 1].style != cell.style
    ensures RowIsKept(front + [cell])
  {
    hide RunsOf, DrawnRuns, DrawnCells, CellColumns, RunColumns, TextOf;
    OneMoreCell(front, cell);
    SplitLast(RunsOf(front), Run(cell.style, TextOf(cell), 1));
    assert Repeat(cell.style, 1) == [cell.style];
  }

  lemma {:induction false} CellIsKept(front: seq<Cell>, cell: Cell)
    requires RowIsKept(front) && !Wraps(front, cell)
    ensures RowIsKept(front + [cell])
  {
    hide DrawnRuns, DrawnCells, CellColumns, TextOf, RowIsKept;
    CountsFitWords(front);
    var runs := RunsOf(front);
    var n := |runs|;
    if n > 0 && (cell.continuation || runs[n - 1].style == cell.style) {
      assert runs == runs[..n - 1] + [runs[n - 1]];
      RunGrows(front, cell, runs[..n - 1], runs[n - 1], if cell.continuation then "" else TextOf(cell));
    } else if !cell.continuation {
      RunOpens(front, cell);
    } else {
      NothingToContinue(front, cell);
    }
  }

  lemma {:induction false} NothingToContinue(front: seq<Cell>, cell: Cell)
    requires RowIsKept(front) && RunsOf(front) == [] && cell.continuation
    ensures RowIsKept(front + [cell])
  {
    OneMoreCell(front, cell);
  }

  function TotalColumns(runs: seq<Run>): nat {
    if runs == [] then 0 else TotalColumns(runs[..|runs| - 1]) + runs[|runs| - 1].columns
  }

  lemma {:induction false} TotalIsWidth(runs: seq<Run>)
    ensures TotalColumns(runs) == |RunColumns(runs)|
  {
    if runs != [] {
      TotalIsWidth(runs[..|runs| - 1]);
    }
  }

  lemma {:induction false} ColumnsOfCells(cells: seq<Cell>)
    ensures cells != [] && !cells[0].continuation ==> |CellColumns(cells)| == |cells|
    ensures cells != [] && cells[0].continuation ==> |CellColumns(cells)| < |cells|
  {
    if |cells| > 1 {
      ColumnsOfCells(cells[..|cells| - 1]);
      assert cells[..|cells| - 1][0] == cells[0];
    } else if |cells| == 1 {
      assert cells[..0] == [];
    }
  }

  /** A count that starts over is never made up for. */
  lemma {:induction false} KeptWhenColumnsAddUp(cells: seq<Cell>)
    ensures |RunColumns(RunsOf(cells))| <= |CellColumns(cells)|
    ensures |RunColumns(RunsOf(cells))| == |CellColumns(cells)| ==> RowIsKept(cells)
  {
    hide RowIsKept, RunsOf, CellColumns, RunColumns;
    if cells == [] {
      NoCells();
      NoColumns();
    } else {
      var front, cell := cells[..|cells| - 1], cells[|cells| - 1];
      assert front + [cell] == cells;
      KeptWhenColumnsAddUp(front);
      ColumnsGrow(front, cell);
      if |RunColumns(RunsOf(cells))| == |CellColumns(cells)| {
        CellIsKept(front, cell);
      }
    }
  }

  lemma NoColumns()
    ensures CellColumns([]) == [] && RunColumns(RunsOf([])) == []
  {
  }

  /** One cell more is at most one column more, and one with a run that starts over is many less. */
  lemma {:induction false} ColumnsGrow(front: seq<Cell>, cell: Cell)
    ensures var more := |CellColumns(front + [cell])| - |CellColumns(front)|;
            var wide := |RunColumns(RunsOf(front + [cell]))| - |RunColumns(RunsOf(front))|;
            wide <= more && (Wraps(front, cell) ==> wide < more)
  {
    hide RunsOf, CellColumns, RunColumns, TextOf, DrawnCells, AddCell;
    OneMoreCell(front, cell);
    CountsFitWords(front);
    ColumnsOfRuns(front);
    RunsGrow(RunsOf(front), cell);
  }

  lemma {:induction false} RunsGrow(runs: seq<Run>, cell: Cell)
    requires runs != [] ==> runs[|runs| - 1].columns <= U16_MAX
    ensures var wide := |RunColumns(AddCell(runs, cell))| - |RunColumns(runs)|;
            && wide <= (if cell.continuation && runs == [] then 0 else 1)
            && (WrapsRun(runs, cell) ==> wide < 1)
  {
    hide RunColumns, TextOf;
    if runs != [] && (cell.continuation || runs[|runs| - 1].style == cell.style) {
      var before, last := runs[..|runs| - 1], runs[|runs| - 1];
      assert runs == before + [last];
      SplitLast(before, last);
      SplitLast(before, AddCell(runs, cell)[|before|]);
    } else if !cell.continuation {
      SplitLast(runs, Run(cell.style, TextOf(cell), 1));
    }
  }

  /** Where there is a run there is a column. */
  lemma {:induction false} ColumnsOfRuns(cells: seq<Cell>)
    ensures RunsOf(cells) != [] <==> CellColumns(cells) != []
  {
    if cells != [] {
      ColumnsOfRuns(cells[..|cells| - 1]);
    }
  }

  /** The column counts add up to the cells exactly when the row does not start with a continuation and no style goes on for
      more than 65535 columns. */
  lemma ColumnsAddUpIff(cells: seq<Cell>)
    ensures TotalColumns(RunsOf(cells)) == |cells|
       <==> (cells == [] || !cells[0].continuation) && NoLongStretch(CellColumns(cells))
  {
    hide RunsOf, CellColumns, RunColumns, TotalColumns, NoLongStretch;
    RunsKeepTheRowIff(cells);
    TotalIsWidth(RunsOf(cells));
    KeptWhenColumnsAddUp(cells);
    ColumnsOfCells(cells);
    if RowIsKept(cells) {
      KeptColumns(cells);
    }
  }

  lemma KeptColumns(cells: seq<Cell>)
    requires RowIsKept(cells)
    ensures RunColumns(RunsOf(cells)) == CellColumns(cells)
  {
  }

  lemma {:induction false} RunsAreFew(cells: seq<Cell>)
    ensures |RunsOf(cells)| <= |cells|
  {
    if cells != [] {
      RunsAreFew(cells[..|cells| - 1]);
    }
  }

  // ----- colours

  const THEME_FOREGROUND: u32 := 0x0100_0000
  const RGB: u32 := 0x0200_0000
  const THEME_BACKGROUND: u32 := 0x0300_0000

  const ANSI: seq<u32> := [
    0x000000, 0xcd0000, 0x00cd00, 0xcdcd00, 0x0000ee, 0xcd00cd, 0x00cdcd, 0xe5e5e5,
    0x7f7f7f, 0xff0000, 0x00ff00, 0xffff00, 0x5c5cff, 0xff00ff, 0x00ffff, 0xffffff]

  function Rgb24(r: u8, g: u8, b: u8): (v: u32)
    ensures v < 0x100_0000
  {
    r * 0x1_0000 + g * 0x100 + b
  }

  function XtermRgb(index: u8): (v: u32)
    ensures v < 0x100_0000
  {
    if index < 16 then
      ANSI[index]
    else if index < 232 then
      var steps: seq<u8> := [0, 95, 135, 175, 215, 255];
      var offset := index as int - 16;
      Rgb24(steps[offset / 36], steps[offset % 36 / 6], steps[offset % 6])
    else
      var level := 8 + (index as int - 232) * 10;
      Rgb24(level, level, level)
  }

  function ColorWord(c: Color): (r: Option<u32>)
    ensures r.Some? ==> RGB <= r.value < THEME_BACKGROUND
  {
    match c
    case Default => None
    case Indexed(i) => Some(RGB + XtermRgb(i))
    case Rgb(r, g, b) => Some(RGB + Rgb24(r, g, b))
  }

  function OrElse(c: Option<u32>, other: u32): u32 {
    if c.Some? then c.value else other
  }

  /** The two colour words of a style; inverse swaps them and fills unset ones from the theme. */
  function Resolve(style: Style): (u32, u32) {
    var fg, bg := ColorWord(style.fg), ColorWord(style.bg);
    if style.inverse then
      (OrElse(bg, THEME_BACKGROUND), OrElse(fg, THEME_FOREGROUND))
    else
      (OrElse(fg, 0), OrElse(bg, 0))
  }

  /** A renderer tells the four slots apart by their words: an unset foreground is 0, or the theme's background where
      the style is inverse, and so on; every other word is a colour with its mark. Inverse swaps what is set. */
  lemma {:induction false} SlotsAreTold(style: Style)
    ensures var (fg, bg) := Resolve(style);
            && (fg == 0 <==> style.fg.Default? && !style.inverse)
            && (bg == 0 <==> style.bg.Default? && !style.inverse)
            && (fg == 0x300_0000 <==> style.bg.Default? && style.inverse)
            && (bg == 0x100_0000 <==> style.fg.Default? && style.inverse)
            && (!style.fg.Default? ==> ColorWord(style.fg) == Some(if style.inverse then bg else fg))
            && (!style.bg.Default? ==> ColorWord(style.bg) == Some(if style.inverse then fg else bg))
  {
  }

  /** The word of a colour: its mark, and its red, green and blue in the three bytes below. An indexed colour has those of
      its place in the palette. */
  lemma ColorsAreTold(r: u8, g: u8, b: u8, index: u8)
    ensures ColorWord(Default) == None
    ensures ColorWord(Rgb(r, g, b)).Some? && ColorWord(Indexed(index)).Some?
    ensures ColorWord(Rgb(r, g, b)).value == 0x200_0000 + r * 0x1_0000 + g * 0x100 + b
    ensures ColorWord(Indexed(index)).value == 0x200_0000 + XtermRgb(index)
  {
    hide XtermRgb;
  }

  /** The sixteen named colours, by their red, green and blue. */
  lemma NamedColors(index: u8)
    ensures index < 16 ==> XtermRgb(index) == ANSI[index]
    ensures ANSI[0] == 0 && ANSI[1] == 205 * 0x1_0000
    ensures ANSI[2] == 205 * 0x100 && ANSI[3] == 205 * 0x1_0000 + 205 * 0x100
    ensures ANSI[4] == 238 && ANSI[5] == 205 * 0x1_0000 + 205
    ensures ANSI[6] == 205 * 0x100 + 205 && ANSI[7] == 229 * 0x1_0000 + 229 * 0x100 + 229
    ensures ANSI[8] == 127 * 0x1_0000 + 127 * 0x100 + 127 && ANSI[9] == 255 * 0x1_0000
    ensures ANSI[10] == 255 * 0x100 && ANSI[11] == 255 * 0x1_0000 + 255 * 0x100
    ensures ANSI[12] == 92 * 0x1_0000 + 92 * 0x100 + 255 && ANSI[13] == 255 * 0x1_0000 + 255
    ensures ANSI[14] == 255 * 0x100 + 255 && ANSI[15] == 255 * 0x1_0000 + 255 * 0x100 + 255
  {
  }

  function CubeStep(n: nat): nat {
    if n == 0 then 0 else 55 + 40 * n
  }

  lemma CubeDigits(r: nat, g: nat, b: nat)
    requires r < 6 && g < 6 && b < 6
    ensures (36 * r + 6 * g + b) / 36 == r && (36 * r + 6 * g + b) % 36 / 6 == g && (36 * r + 6 * g + b) % 6 == b
  {
  }

  lemma CubeWord(offset: nat)
    requires offset < 216
    ensures XtermRgb(16 + offset)
         == CubeStep(offset / 36) * 0x1_0000 + CubeStep(offset % 36 / 6) * 0x100 + CubeStep(offset % 6)
  {
    CubeSteps(offset / 36);
    CubeSteps(offset % 36 / 6);
    CubeSteps(offset % 6);
    hide CubeStep;
  }

  lemma CubeSteps(n: nat)
    requires n < 6
    ensures [0, 95, 135, 175, 215, 255][n] == CubeStep(n)
  {
  }

  /** The 256-colour palette behind the sixteen named ones: a cube of six steps a side, and a ramp of greys. */
  lemma XtermIsCubeAndRamp(r: nat, g: nat, b: nat, grey: nat)
    requires r < 6 && g < 6 && b < 6 && grey < 24
    ensures XtermRgb(16 + (36 * r + 6 * g + b)) == CubeStep(r) * 0x1_0000 + CubeStep(g) * 0x100 + CubeStep(b)
    ensures XtermRgb(232 + grey) == (8 + 10 * grey) * 0x1_0101
  {
    CubeDigits(r, g, b);
    CubeWord(36 * r + 6 * g + b);
    GreyWord(grey);
    hide CubeStep, XtermRgb;
  }

  lemma GreyWord(grey: nat)
    requires grey < 24
    ensures XtermRgb(232 + grey) == (8 + 10 * grey) * 0x1_0101
  {
  }

  // ----- bytes

  datatype WireRun = WireRun(fg: nat, bg: nat, style: seq<bool>, columns: nat, text: string)

  function StyleFlags(style: Style): (r: seq<bool>)
    ensures |r| == 7
  {
    [style.bold, style.dim, style.italic, style.underline, style.inverse, style.strikethrough, style.hidden]
  }

  /** The style byte as the format lists its bits. */
  lemma StyleBits(style: Style)
    ensures FlagByte(StyleFlags(style))
         == (if style.bold then 1 else 0) + (if style.dim then 2 else 0) + (if style.italic then 4 else 0)
            + (if style.underline then 8 else 0) + (if style.inverse then 16 else 0)
            + (if style.strikethrough then 32 else 0) + (if style.hidden then 64 else 0)
  {
    FlagsAre(StyleFlags(style) + [false]);
    FalseAtEnd(StyleFlags(style));
  }

  function KeptRun(run: Run): WireRun {
    var (fg, bg) := Resolve(run.style);
    WireRun(fg, bg, StyleFlags(run.style), run.columns % 0x1_0000, run.text)
  }

  function EncRun(run: Run): seq<byte> {
    var (fg, bg) := Resolve(run.style);
    Le(fg, 4) + Le(bg, 4) + Le(FlagByte(StyleFlags(run.style)), 1) + Le(run.columns, 2) + EncStr32(run.text)
  }

  /** The runs that are written: at most as many as a 16-bit count tells. */
  function WrittenRuns(cells: seq<Cell>): seq<Run> {
    var runs := RunsOf(cells);
    if |runs| <= U16_MAX then runs else runs[..U16_MAX]
  }

  function EncVtLine(cells: seq<Cell>): seq<byte> {
    Le(|WrittenRuns(cells)|, 2) + EncAll(EncRun, WrittenRuns(cells))
  }

  method WriteRun(out: ByteWriter, run: Run)
    modifies out
    ensures out.bytes == old(out.bytes) + EncRun(run)
  {
    hide Le, EncStr32, FlagByte, Resolve, StyleFlags;
    var (fg, bg) := Resolve(run.style);
    out.Word(fg, 4);
    out.Word(bg, 4);
    out.Word(FlagByte(StyleFlags(run.style)), 1);
    out.Word(run.columns, 2);
    out.Str32(run.text);
    assert out.bytes == old(out.bytes) + EncRun(run);
  }

  method WriteVtLine(out: ByteWriter, cells: seq<Cell>)
    modifies out
    ensures out.bytes == old(out.bytes) + EncVtLine(cells)
  {
    hide Le, EncRun, RunsOf;
    ghost var start := out.bytes;
    var runs := CollectRuns(cells);
    var n := if |runs| <= U16_MAX then |runs| else U16_MAX;
    out.Word(n, 2);
    ghost var written := runs[..n];
    assert written == WrittenRuns(cells);
    for i := 0 to n
      invariant out.bytes == start + (Le(n, 2) + EncAll(EncRun, written[..i]))
    {
      WriteRun(out, runs[i]);
      OneMore(EncRun, written, i);
      Reassociate(start, Le(n, 2), EncAll(EncRun, written[..i]), EncRun(runs[i]));
    }
    assert written[..n] == written;
  }

  lemma Reassociate<T>(a: seq<T>, b: seq<T>, c: seq<T>, d: seq<T>)
    ensures a + (b + c) + d == a + (b + (c + d))
  {
  }

  /** What a reader is told of a terminal row: its runs in order, as many as a 16-bit count tells, each with its two colour
      words, its style bits, its columns and its text. */
  ghost predicate RowIsTold(cells: seq<Cell>, v: seq<WireRun>) {
    var runs := RunsOf(cells);
    && |v| == (if |runs| <= 65535 then |runs| else 65535)
    && forall i :: 0 <= i < |v| ==>
         && (v[i].fg, v[i].bg) == Resolve(runs[i].style)
         && v[i].style == [runs[i].style.bold, runs[i].style.dim, runs[i].style.italic, runs[i].style.underline,
                           runs[i].style.inverse, runs[i].style.strikethrough, runs[i].style.hidden]
         && v[i].columns == runs[i].columns
         && v[i].text == runs[i].text
  }

  lemma {:induction false} KeptRowIsTold(cells: seq<Cell>)
    ensures RowIsTold(cells, KeptRow(cells))
  {
    hide RunsOf, Resolve;
    CountsFitWords(cells);
  }

  function ReadRun(b: seq<byte>, at: nat): Parsed<WireRun> {
    var (fg, a1) :- ReadLe(b, at, 4);
    var (bg, a2) :- ReadLe(b, a1, 4);
    var (style, a3) :- ReadLe(b, a2, 1);
    var (columns, a4) :- ReadLe(b, a3, 2);
    var (text, a5) :- ReadStr(b, a4, 4);
    Parsed(WireRun(fg, bg, Bits(style, 7), columns, text), a5)
  }

  function ReadVtLine(b: seq<byte>, at: nat): Parsed<seq<WireRun>> {
    var (n, next) :- ReadLe(b, at, 2);
    ReadAll(ReadRun, b, next, n)
  }

  predicate TextFits(run: Run) {
    |Encode(run.text)| < 0x1_0000_0000
  }

  lemma {:induction false} RunHeadAt(b: seq<byte>, at: nat, run: Run)
    requires HasAt(b, at, EncRun(run))
    ensures var w := KeptRun(run);
            && ReadLe(b, at, 4) == Parsed(w.fg, at + 4) && ReadLe(b, at + 4, 4) == Parsed(w.bg, at + 8)
            && ReadLe(b, at + 8, 1) == Parsed(FlagByte(w.style), at + 9) && Bits(FlagByte(w.style), 7) == w.style
            && ReadLe(b, at + 9, 2) == Parsed(w.columns, at + 11)
    ensures HasAt(b, at + 11, EncStr32(run.text)) && |EncRun(run)| == 11 + |EncStr32(run.text)|
  {
    hide Le, FromLe, ReadLe, ReadStr, Words, HasAt, EncStr32, Encode, FlagByte, Bits, Resolve, StyleFlags;
    var (fg, bg) := Resolve(run.style);
    var flags := StyleFlags(run.style);
    var x1, x2, x3, x4 := Le(fg, 4), Le(bg, 4), Le(FlagByte(flags), 1), Le(run.columns, 2);
    HasParts(b, at, x1 + x2 + x3 + x4, EncStr32(run.text));
    HasParts(b, at, x1 + x2 + x3, x4);
    HasParts(b, at, x1 + x2, x3);
    HasParts(b, at, x1, x2);
    WordsAre();
    FlagsFit(flags);
    FlagsInvert(flags);
    WordAt(b, at, fg, 4);
    WordAt(b, at + 4, bg, 4);
    WordAt(b, at + 8, FlagByte(flags), 1);
    TruncatedWordAt(b, at + 9, run.columns, 2);
  }

  ghost function RunCodec(): Codec<Run, WireRun> {
    Codec(EncRun, ReadRun, KeptRun, TextFits)
  }

  lemma RunReadsBack(b: seq<byte>, at: nat, run: Run)
    requires HasAt(b, at, EncRun(run))
    ensures ReadsBack(RunCodec(), run, b, at)
  {
    hide ReadLe, ReadStr, HasAt, EncRun, Encode, FlagByte, Bits, Resolve, StyleFlags, EncStr32;
    RunHeadAt(b, at, run);
    if TextFits(run) {
      Str32At(b, at + 11, run.text);
    } else {
      LongStr32IsLost(b, at + 11, run.text);
    }
  }

  lemma RunCodecIsFaithful()
    ensures Faithful(RunCodec())
  {
    hide HasAt, EncRun, ReadRun, KeptRun, TextFits;
    var c := RunCodec();
    forall run, b, at | HasAt(b, at, c.enc(run))
      ensures ReadsBack(c, run, b, at)
    {
      RunReadsBack(b, at, run);
    }
  }

  ghost predicate TextsFit(cells: seq<Cell>) {
    AllFit(TextFits, WrittenRuns(cells))
  }

  function KeptRow(cells: seq<Cell>): seq<WireRun> {
    KeepAll(KeptRun, WrittenRuns(cells))
  }

  ghost function RowCodec(): Codec<seq<Cell>, seq<WireRun>> {
    Codec(EncVtLine, ReadVtLine, KeptRow, TextsFit)
  }

  /** A written terminal row reads back run by run, up to its last byte, exactly when each run's text takes fewer than
      2^32 bytes. */
  lemma VtLineReadsBackIff(b: seq<byte>, at: nat, cells: seq<Cell>)
    requires HasAt(b, at, EncVtLine(cells))
    ensures ReadVtLine(b, at) == Parsed(KeptRow(cells), at + |EncVtLine(cells)|) <==> TextsFit(cells)
    ensures TextsFit(cells) ==> ReadVtLine(b, at).Parsed? && RowIsTold(cells, ReadVtLine(b, at).value)
    ensures ReadsBack(RowCodec(), cells, b, at)
  {
    KeptRowIsTold(cells);
    hide RowIsTold;
    hide Le, FromLe, ReadLe, HasAt, EncAll, ReadAll, KeepAll, AllFit, WrittenRuns, Words, Faithful;
    var runs := WrittenRuns(cells);
    WrittenAreFew(cells);
    HasParts(b, at, Le(|runs|, 2), EncAll(EncRun, runs));
    WordsAre();
    WordAt(b, at, |runs|, 2);
    RunCodecIsFaithful();
    ListReadsBack(RunCodec(), runs, b, at + 2);
  }

  lemma RowCodecIsFaithful()
    ensures Faithful(RowCodec())
  {
    hide HasAt, EncVtLine, ReadVtLine, KeptRow, TextsFit;
    var c := RowCodec();
    forall cells, b, at | HasAt(b, at, c.enc(cells))
      ensures ReadsBack(c, cells, b, at)
    {
      VtLineReadsBackIff(b, at, cells);
    }
  }

  lemma WrittenAreFew(cells: seq<Cell>)
    ensures |WrittenRuns(cells)| <= U16_MAX
    ensures |cells| <= U16_MAX ==> WrittenRuns(cells) == RunsOf(cells)
  {
    RunsAreFew(cells);
  }
}
