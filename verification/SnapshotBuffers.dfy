/** The whole buffers of `crates/core/src/snapshot.rs`: a layout, the lines of a range of rows, and a shell's grid. */
module SnapshotBuffers {
  import opened Options
  import opened Utf8
  import opened Bytes
  import opened Codecs
  import opened Snapshot
  import VtLine

  datatype Shown = Shown(row: nat, nonce: u64)

  /** A height is the word of its float. */
  datatype LayoutRow = LayoutRow(key: string, height: u32, gapAbove: bool, prompt: bool, recap: bool)

  datatype ViewRow = ViewRow(key: string, height: u32, gapAbove: bool, lines: seq<TermLine>)

  /** What the buffers need of a transcript view. `prompts` ascends, so searching it is membership. */
  datatype View = View(rows: seq<ViewRow>, prompts: seq<nat>, recap: Option<nat>, shown: Option<Shown>)

  // ----- the layout

  function RowAt(view: View, i: nat): LayoutRow
    requires i < |view.rows|
  {
    var row := view.rows[i];
    LayoutRow(row.key, row.height, row.gapAbove, i in view.prompts, view.recap == Some(i))
  }

  function LayoutRows(view: View): (r: seq<LayoutRow>)
    ensures |r| == |view.rows|
  {
    seq(|view.rows|, i requires 0 <= i < |view.rows| => RowAt(view, i))
  }

  function RowFlags(row: LayoutRow): (r: seq<bool>)
    ensures |r| == 3
  {
    [row.gapAbove, row.prompt, row.recap]
  }

  /** The flag byte of a row as the format lists its bits. */
  lemma RowBits(row: LayoutRow)
    ensures FlagByte(RowFlags(row))
         == (if row.gapAbove then 1 else 0) + (if row.prompt then 2 else 0) + (if row.recap then 4 else 0)
  {
    FourFlags(RowFlags(row) + [false]);
    FalseAtEnd(RowFlags(row));
  }

  function EncLayoutRow(row: LayoutRow): seq<byte> {
    EncStr16(row.key) + Le(row.height, 4) + Le(FlagByte(RowFlags(row)), 1)
  }

  const NONE_SHOWN: nat := 0xFFFF_FFFF

  /** A row number keeps its low 32 bits; -1 stands for none. */
  function EncShown(shown: Option<Shown>): seq<byte> {
    if shown.Some? then Le(shown.value.row, 4) + Le(shown.value.nonce, 8) else Le(NONE_SHOWN, 4) + Le(0, 8)
  }

  function EncLayout(view: View): seq<byte> {
    Le(VERSION, 1) + EncCounted(EncLayoutRow, LayoutRows(view)) + EncShown(view.shown)
  }

  method WriteLayoutRow(out: ByteWriter, row: LayoutRow)
    modifies out
    ensures out.bytes == old(out.bytes) + EncLayoutRow(row)
  {
    hide Le, EncStr16, FlagByte;
    out.Str16(row.key);
    out.Word(row.height, 4);
    out.Word(FlagByte(RowFlags(row)), 1);
    assert out.bytes == old(out.bytes) + EncLayoutRow(row);
  }

  method TranscriptLayout(view: View) returns (bytes: seq<byte>)
    ensures bytes == EncLayout(view)
  {
    hide Le, EncLayoutRow;
    var out := new ByteWriter();
    out.Word(VERSION, 1);
    out.Word(|view.rows|, 4);
    ghost var head := Le(VERSION, 1) + Le(|view.rows|, 4);
    for i := 0 to |view.rows|
      invariant out.bytes == head + EncAll(EncLayoutRow, LayoutRows(view)[..i])
    {
      WriteLayoutRow(out, RowAt(view, i));
      OneMore(EncLayoutRow, LayoutRows(view), i);
      Chain(head, EncAll(EncLayoutRow, LayoutRows(view)[..i]), EncLayoutRow(RowAt(view, i)));
    }
    assert LayoutRows(view)[..|view.rows|] == LayoutRows(view);
    Chain(Le(VERSION, 1), Le(|view.rows|, 4), EncAll(EncLayoutRow, LayoutRows(view)));
    ghost var body := out.bytes;
    match view.shown {
      case Some(shown) =>
        out.Word(shown.row, 4);
        out.Word(shown.nonce, 8);
      case None =>
        out.Word(NONE_SHOWN, 4);
        out.Word(0, 8);
    }
    assert out.bytes == body + EncShown(view.shown);
    bytes := out.bytes;
  }

  datatype WireRow = WireRow(key: string, height: nat, flags: seq<bool>)

  datatype WireShown = WireShown(row: int, nonce: nat)

  datatype WireLayout = WireLayout(rows: seq<WireRow>, shown: Option<WireShown>)

  function KeptLayoutRow(row: LayoutRow): WireRow {
    WireRow(Cut16(row.key), row.height, RowFlags(row))
  }

  function KeptShown(shown: Option<Shown>): Option<WireShown> {
    if shown.Some? then Some(WireShown(shown.value.row, shown.value.nonce)) else None
  }

  function KeptLayout(view: View): WireLayout {
    WireLayout(KeepAll(KeptLayoutRow, LayoutRows(view)), KeptShown(view.shown))
  }

  /** What a reader is told of a layout: of every row its key, height and flags, and the row asked to be shown. */
  ghost predicate LayoutIsTold(view: View, v: WireLayout) {
    && |v.rows| == |view.rows|
    && (forall i :: 0 <= i < |view.rows| ==>
          && v.rows[i].key == Cut16(view.rows[i].key)
          && v.rows[i].height == view.rows[i].height
          && v.rows[i].flags == [view.rows[i].gapAbove, i in view.prompts, view.recap == Some(i)])
    && (match view.shown
        case None => v.shown == None
        case Some(shown) => v.shown == Some(WireShown(shown.row, shown.nonce)))
  }

  lemma {:induction false} KeptLayoutIsTold(view: View)
    ensures LayoutIsTold(view, KeptLayout(view))
  {
    hide Cut16;
  }

  function ReadLayoutRow(b: seq<byte>, at: nat): Parsed<WireRow> {
    var (key, a1) :- ReadStr(b, at, 2);
    var (height, a2) :- ReadLe(b, a1, 4);
    var (flags, a3) :- ReadLe(b, a2, 1);
    Parsed(WireRow(key, height, Bits(flags, 3)), a3)
  }

  function ReadShown(b: seq<byte>, at: nat): Parsed<Option<WireShown>> {
    var (row, a1) :- ReadI32(b, at);
    var (nonce, a2) :- ReadLe(b, a1, 8);
    Parsed(if row != -1 then Some(WireShown(row, nonce)) else None, a2)
  }

  /** A reader that sees another version refuses the buffer. */
  function ReadVersion(b: seq<byte>, at: nat): Parsed<nat> {
    var (version, next) :- ReadLe(b, at, 1);
    if version == VERSION then Parsed(version, next) else Refused
  }

  function ReadLayout(b: seq<byte>, at: nat): Parsed<WireLayout> {
    var (version, a1) :- ReadVersion(b, at);
    var (rows, a2) :- ReadCounted(ReadLayoutRow, b, a1);
    var (shown, a3) :- ReadShown(b, a2);
    Parsed(WireLayout(rows, shown), a3)
  }

  lemma VersionAt(b: seq<byte>, at: nat)
    requires HasAt(b, at, Le(VERSION, 1))
    ensures ReadVersion(b, at) == Parsed(VERSION, at + 1)
  {
    WordsAre();
    WordAt(b, at, VERSION, 1);
  }

  /** Every buffer opens with a 4, and a reader that finds anything else there refuses it. */
  lemma OtherVersionsAreRefused(b: seq<byte>, at: nat)
    requires at < |b| && b[at] != 4
    ensures ReadLayout(b, at).Refused? && ReadLines(b, at).Refused? && ReadGrid(b, at).Refused?
  {
    assert b[at..at + 1] == [b[at]] && [b[at]][1..] == [];
    assert FromLe([b[at]]) == b[at];
    hide FromLe;
  }

  lemma BuffersOpenWithVersion(view: View, rows: seq<seq<TermLine>>, start: nat, shell: Shell, count: nat)
    ensures EncLayout(view) != [] && EncLayout(view)[0] == 4
    ensures EncLines(rows, start) != [] && EncLines(rows, start)[0] == 4
    ensures EncGrid(shell, start, count) != [] && EncGrid(shell, start, count)[0] == 4
  {
    LeByte(VERSION);
    hide Le, EncAll, EncStr16, FlagByte, EncCounted, EncShown, EncGridLines;
    assert EncGridHead(shell)[0] == 4;
    hide EncGridHead;
  }

  ghost function LayoutRowCodec(): Codec<LayoutRow, WireRow> {
    Codec(EncLayoutRow, ReadLayoutRow, KeptLayoutRow, _ => true)
  }

  lemma LayoutRowAt(b: seq<byte>, at: nat, row: LayoutRow)
    requires HasAt(b, at, EncLayoutRow(row))
    ensures ReadLayoutRow(b, at) == Parsed(KeptLayoutRow(row), at + |EncLayoutRow(row)|)
  {
    hide Le, ReadLe, FromLe, Words, HasAt, EncStr16, ReadStr, Cut16, FlagByte, Bits;
    var key, height, flags := EncStr16(row.key), Le(row.height, 4), Le(FlagByte(RowFlags(row)), 1);
    HasParts(b, at, key + height, flags);
    HasParts(b, at, key, height);
    WordsAre();
    FlagsFit(RowFlags(row));
    FlagsInvert(RowFlags(row));
    Str16At(b, at, row.key);
    WordAt(b, at + |key|, row.height, 4);
    WordAt(b, at + |key| + 4, FlagByte(RowFlags(row)), 1);
  }

  lemma LayoutRowCodecIsFaithful()
    ensures Faithful(LayoutRowCodec())
  {
    hide HasAt, EncLayoutRow, ReadLayoutRow, KeptLayoutRow;
    var c := LayoutRowCodec();
    forall row, b, at | HasAt(b, at, c.enc(row))
      ensures ReadsBack(c, row, b, at)
    {
      LayoutRowAt(b, at, row);
    }
  }

  ghost predicate ShownFits(shown: Option<Shown>) {
    shown.Some? ==> shown.value.row < 0x8000_0000
  }

  lemma ShownAt(b: seq<byte>, at: nat, shown: Option<Shown>)
    requires HasAt(b, at, EncShown(shown))
    ensures ReadShown(b, at).Parsed? && ReadShown(b, at).at == at + |EncShown(shown)|
    ensures ReadShown(b, at).value == KeptShown(shown) <==> ShownFits(shown)
  {
    hide Le, ReadLe, FromLe, Words, HasAt;
    var row, nonce := if shown.Some? then shown.value.row else NONE_SHOWN, if shown.Some? then shown.value.nonce else 0;
    HasParts(b, at, Le(row, 4), Le(nonce, 8));
    WordsAre();
    TruncatedWordAt(b, at, row, 4);
    WordAt(b, at + 4, nonce, 8);
  }

  /** The layout reads back whole, to its last byte, exactly when its rows can be counted and the row asked to be shown is not
      taken for a negative number. */
  lemma LayoutReadsBackIff(b: seq<byte>, at: nat, view: View)
    requires HasAt(b, at, EncLayout(view))
    ensures ReadLayout(b, at) == Parsed(KeptLayout(view), at + |EncLayout(view)|)
            <==> |view.rows| < 0x1_0000_0000 && ShownFits(view.shown)
    ensures |view.rows| < 0x1_0000_0000 && ShownFits(view.shown) ==>
              ReadLayout(b, at).Parsed? && LayoutIsTold(view, ReadLayout(b, at).value)
  {
    KeptLayoutIsTold(view);
    hide LayoutIsTold;
    hide Le, ReadLe, HasAt, EncCounted, ReadCounted, KeepAll, EncShown, ReadShown, ReadVersion, LayoutRows, KeptShown;
    hide ShownFits, EncLayoutRow, ReadLayoutRow, KeptLayoutRow, Faithful;
    var rows := EncCounted(EncLayoutRow, LayoutRows(view));
    HasParts(b, at, Le(VERSION, 1) + rows, EncShown(view.shown));
    HasParts(b, at, Le(VERSION, 1), rows);
    VersionAt(b, at);
    LayoutRowCodecIsFaithful();
    CountedReadsBack(LayoutRowCodec(), LayoutRows(view), b, at + 1);
    ShownAt(b, at + 1 + |rows|, view.shown);
  }

  // ----- the lines of a range of rows

  function EncRow(lines: seq<TermLine>): seq<byte> {
    EncCounted(EncLine, lines)
  }

  /** The rows `[start, end)` of a buffer whose ends were already held to the rows there are. */
  function EncLines(rows: seq<seq<TermLine>>, start: nat): seq<byte> {
    Le(VERSION, 1) + Le(start, 4) + Le(|rows|, 4) + EncAll(EncRow, rows)
  }

  function AskedEnd(view: View, end: nat): nat {
    Min(end, |view.rows|)
  }

  function AskedStart(view: View, start: nat, end: nat): (r: nat)
    ensures r <= AskedEnd(view, end)
  {
    Min(start, AskedEnd(view, end))
  }

  function AskedRows(view: View, start: nat, end: nat): (r: seq<seq<TermLine>>)
    ensures |r| == AskedEnd(view, end) - AskedStart(view, start, end)
  {
    var from, to := AskedStart(view, start, end), AskedEnd(view, end);
    seq(to - from, i requires 0 <= i < to - from => view.rows[from + i].lines)
  }

  method WriteRow(out: ByteWriter, lines: seq<TermLine>)
    modifies out
    ensures out.bytes == old(out.bytes) + EncRow(lines)
  {
    hide Le, EncLine;
    ghost var start := out.bytes;
    out.Word(|lines|, 4);
    for i := 0 to |lines|
      invariant out.bytes == start + (Le(|lines|, 4) + EncAll(EncLine, lines[..i]))
    {
      WriteLine(out, lines[i]);
      OneMore(EncLine, lines, i);
      VtLine.Reassociate(start, Le(|lines|, 4), EncAll(EncLine, lines[..i]), EncLine(lines[i]));
    }
    assert lines[..|lines|] == lines;
  }

  method WriteRows(out: ByteWriter, view: View, from: nat, to: nat, ghost rows: seq<seq<TermLine>>)
    requires from <= to <= |view.rows| && |rows| == to - from
    requires forall i :: 0 <= i < to - from ==> rows[i] == view.rows[from + i].lines
    modifies out
    ensures out.bytes == old(out.bytes) + EncAll(EncRow, rows)
  {
    hide EncRow;
    ghost var head := out.bytes;
    for i := from to to
      invariant out.bytes == head + EncAll(EncRow, rows[..i - from])
    {
      hide EncAll;
      WriteRow(out, view.rows[i].lines);
      assert rows[i - from] == view.rows[i].lines;
      OneMore(EncRow, rows, i - from);
      Chain(head, EncAll(EncRow, rows[..i - from]), EncRow(view.rows[i].lines));
    }
    assert rows[..|rows|] == rows;
  }

  method TranscriptLines(view: View, start: nat, end: nat) returns (bytes: seq<byte>)
    ensures bytes == EncLines(AskedRows(view, start, end), AskedStart(view, start, end))
    ensures RowsAskedFor(view, start, end, AskedStart(view, start, end), AskedRows(view, start, end))
  {
    AskedIsAskedFor(view, start, end);
    hide Le, EncRow, EncAll;
    var to := if end < |view.rows| then end else |view.rows|;
    var from := if start < to then start else to;
    var out := new ByteWriter();
    out.Word(VERSION, 1);
    out.Word(from, 4);
    out.Word(to - from, 4);
    WriteRows(out, view, from, to, AskedRows(view, start, end));
    bytes := out.bytes;
  }

  /** Free-standing lines have the shape of one row, the first. */
  method LinesBlock(lines: seq<TermLine>) returns (bytes: seq<byte>)
    ensures bytes == EncLines([lines], 0)
  {
    hide Le, EncLine;
    var out := new ByteWriter();
    out.Word(VERSION, 1);
    out.Word(0, 4);
    out.Word(1, 4);
    ghost var head := out.bytes;
    WriteRow(out, lines);
    assert [lines][..1] == [lines] && [lines][..0] == [];
    OneMore(EncRow, [lines], 0);
    bytes := out.bytes;
  }

  datatype WireLines = WireLines(start: nat, rows: seq<seq<WireLine>>)

  function KeptRow(lines: seq<TermLine>): seq<WireLine> {
    KeepAll(Kept, lines)
  }

  /** What a reader is told of rows: every line of every one of them. */
  ghost predicate RowsAreTold(rows: seq<seq<TermLine>>, v: seq<seq<WireLine>>) {
    |v| == |rows| && forall i :: 0 <= i < |rows| ==> RowIsTold(rows[i], v[i])
  }

  ghost predicate RowIsTold(lines: seq<TermLine>, v: seq<WireLine>) {
    |v| == |lines| && forall j :: 0 <= j < |lines| ==> LineIsTold(lines[j], v[j])
  }

  lemma {:induction false} KeptRowsAreTold(rows: seq<seq<TermLine>>)
    ensures RowsAreTold(rows, KeepAll(KeptRow, rows))
  {
    hide Kept, LineIsTold;
    forall i, j | 0 <= i < |rows| && 0 <= j < |rows[i]|
      ensures LineIsTold(rows[i][j], KeptRow(rows[i])[j])
    {
      KeptIsTold(rows[i][j]);
    }
  }

  /** The rows a buffer holds of those asked for: from `start` on and in front of `end`, as far as there are any. */
  ghost predicate RowsAskedFor(view: View, start: nat, end: nat, from: nat, rows: seq<seq<TermLine>>) {
    var to := if end <= |view.rows| then end else |view.rows|;
    && from == (if start <= to then start else to)
    && |rows| == to - from
    && forall i :: 0 <= i < |rows| ==> rows[i] == view.rows[from + i].lines
  }

  lemma AskedIsAskedFor(view: View, start: nat, end: nat)
    ensures RowsAskedFor(view, start, end, AskedStart(view, start, end), AskedRows(view, start, end))
  {
  }

  function ReadRow(b: seq<byte>, at: nat): Parsed<seq<WireLine>> {
    ReadCounted(ReadLine, b, at)
  }

  function ReadLines(b: seq<byte>, at: nat): Parsed<WireLines> {
    var (version, a1) :- ReadVersion(b, at);
    var (start, a2) :- ReadLe(b, a1, 4);
    var (count, a3) :- ReadLe(b, a2, 4);
    var (rows, a4) :- ReadAll(ReadRow, b, a3, count);
    Parsed(WireLines(start, rows), a4)
  }

  ghost predicate RowFits(lines: seq<TermLine>) {
    CountedFits(TextFits, lines)
  }

  ghost function RowCodec(): Codec<seq<TermLine>, seq<WireLine>> {
    Codec(EncRow, ReadRow, KeptRow, RowFits)
  }

  lemma RowCodecIsFaithful()
    ensures Faithful(RowCodec())
  {
    hide HasAt, EncCounted, ReadCounted, KeepAll, CountedFits, Faithful;
    LineCodecIsFaithful();
    var c := RowCodec();
    forall lines, b, at | HasAt(b, at, c.enc(lines))
      ensures ReadsBack(c, lines, b, at)
    {
      CountedReadsBack(LineCodec(), lines, b, at);
    }
    AllReadBack(c);
  }

  lemma AllReadBack<T(!new), W>(c: Codec<T, W>)
    requires forall x, b, at | HasAt(b, at, c.enc(x)) :: ReadsBack(c, x, b, at)
    ensures Faithful(c)
  {
  }

  /** The lines of a range of rows read back whole, to their last byte, exactly when every number told of them fits
      its 32 bits: the first row, the counts and the length of each text. */
  lemma LinesReadBackIff(b: seq<byte>, at: nat, rows: seq<seq<TermLine>>, start: nat)
    requires HasAt(b, at, EncLines(rows, start))
    ensures ReadLines(b, at) == Parsed(WireLines(start, KeepAll(KeptRow, rows)), at + |EncLines(rows, start)|)
            <==> start < 0x1_0000_0000 && |rows| < 0x1_0000_0000 && AllFit(RowFits, rows)
    ensures start < 0x1_0000_0000 && |rows| < 0x1_0000_0000 && AllFit(RowFits, rows) ==>
              && ReadLines(b, at).Parsed? && ReadLines(b, at).value.start == start
              && RowsAreTold(rows, ReadLines(b, at).value.rows)
  {
    KeptRowsAreTold(rows);
    hide RowsAreTold;
    hide Le, ReadLe, HasAt, EncAll, ReadAll, KeepAll, ReadVersion, EncRow, ReadRow, KeptRow, RowFits, AllFit, Words, Faithful;
    var head := Le(VERSION, 1) + Le(start, 4) + Le(|rows|, 4);
    HasParts(b, at, head, EncAll(EncRow, rows));
    HasParts(b, at, Le(VERSION, 1) + Le(start, 4), Le(|rows|, 4));
    HasParts(b, at, Le(VERSION, 1), Le(start, 4));
    VersionAt(b, at);
    WordsAre();
    TruncatedWordAt(b, at + 1, start, 4);
    TruncatedWordAt(b, at + 5, |rows|, 4);
    RowCodecIsFaithful();
    ListReadsBack(RowCodec(), rows, b, at + 9);
  }

  // ----- a frame

  /** What a reader makes of a frame: the layout tells where it ends, the lines are read from there, and they end the
      buffer. */
  ghost predicate FrameIsRead(frame: seq<byte>, view: View, start: nat, end: nat) {
    && ReadLayout(frame, 0).Parsed? && LayoutIsTold(view, ReadLayout(frame, 0).value)
    && var lines := ReadLines(frame, ReadLayout(frame, 0).at);
       && lines.Parsed? && lines.at == |frame|
       && exists rows :: RowsAskedFor(view, start, end, lines.value.start, rows) && RowsAreTold(rows, lines.value.rows)
  }

  /** A frame splits where its layout ends, which the layout alone tells: both halves read back and the second ends the
      buffer. */
  lemma {:induction false} FrameReadsBack(view: View, start: nat, end: nat)
    requires |view.rows| < 0x1_0000_0000 && ShownFits(view.shown)
    requires AllFit(RowFits, AskedRows(view, start, end))
    ensures FrameIsRead(EncLayout(view) + EncLines(AskedRows(view, start, end), AskedStart(view, start, end)), view, start, end)
  {
    AskedIsAskedFor(view, start, end);
    hide EncLayout, EncLines, ReadLayout, ReadLines, KeptLayout, AskedRows, HasAt, RowsAskedFor, RowsAreTold, LayoutIsTold;
    var rows, from := AskedRows(view, start, end), AskedStart(view, start, end);
    var frame := EncLayout(view) + EncLines(rows, from);
    assert HasAt(frame, 0, frame) by { WholeIsThere(frame); }
    HasParts(frame, 0, EncLayout(view), EncLines(rows, from));
    LayoutReadsBackIff(frame, 0, view);
    LinesReadBackIff(frame, |EncLayout(view)|, rows, from);
  }

  method TranscriptFrame(view: View, start: nat, end: nat) returns (bytes: seq<byte>)
    ensures bytes == EncLayout(view) + EncLines(AskedRows(view, start, end), AskedStart(view, start, end))
    ensures |view.rows| < 0x1_0000_0000 && ShownFits(view.shown) && AllFit(RowFits, AskedRows(view, start, end))
            ==> FrameIsRead(bytes, view, start, end)
  {
    hide EncLayout, EncLines, AskedRows, AskedStart, FrameIsRead, ShownFits, AllFit;
    var layout := TranscriptLayout(view);
    var lines := TranscriptLines(view, start, end);
    bytes := layout + lines;
    if |view.rows| < 0x1_0000_0000 && ShownFits(view.shown) && AllFit(RowFits, AskedRows(view, start, end)) {
      FrameReadsBack(view, start, end);
    }
  }

  lemma WholeIsThere(b: seq<byte>)
    ensures HasAt(b, 0, b)
  {
  }

  // ----- a shell's grid

  datatype Shell = Shell(
    revision: u64, cols: nat, rows: nat, lines: seq<seq<VtLine.Cell>>, cursorRow: nat, cursorCol: nat,
    cursorVisible: bool, altScreen: bool, canType: bool, running: bool, ended: bool, title: string, status: string)

  function ShellFlags(shell: Shell): (r: seq<bool>)
    ensures |r| == 5
  {
    [shell.cursorVisible, shell.altScreen, shell.canType, shell.running, shell.ended]
  }

  /** The flag byte of a grid as the format lists its bits. */
  lemma ShellBits(shell: Shell)
    ensures FlagByte(ShellFlags(shell))
         == (if shell.cursorVisible then 1 else 0) + (if shell.altScreen then 2 else 0) + (if shell.canType then 4 else 0)
            + (if shell.running then 8 else 0) + (if shell.ended then 16 else 0)
  {
    var flags := ShellFlags(shell);
    FalseAtEnd(flags);
    FalseAtEnd(flags + [false]);
    FalseAtEnd(flags + [false] + [false]);
    FlagsAre(flags + [false] + [false] + [false]);
  }

  /** The fixed block: version, revision, screen size, line count, cursor, flags. */
  function EncGridHead(shell: Shell): seq<byte> {
    Le(VERSION, 1) + Le(shell.revision, 8) + Le(shell.cols, 2) + Le(shell.rows, 2) + Le(|shell.lines|, 4)
    + Le(shell.cursorRow, 2) + Le(shell.cursorCol, 2) + Le(FlagByte(ShellFlags(shell)), 1)
  }

  function EncGridTexts(shell: Shell): seq<byte> {
    EncStr16(shell.title) + EncStr16(shell.status)
  }

  function GridStart(shell: Shell, start: nat): (r: nat)
    ensures r <= |shell.lines|
  {
    Min(start, |shell.lines|)
  }

  function GridLines(shell: Shell, start: nat, count: nat): seq<seq<VtLine.Cell>> {
    shell.lines[GridStart(shell, start)..Min(GridStart(shell, start) + count, |shell.lines|)]
  }

  function EncGridLines(lines: seq<seq<VtLine.Cell>>, start: nat): seq<byte> {
    Le(start, 4) + Le(|lines|, 4) + EncAll(VtLine.EncVtLine, lines)
  }

  function EncGrid(shell: Shell, start: nat, count: nat): seq<byte> {
    EncGridHead(shell) + EncGridTexts(shell) + EncGridLines(GridLines(shell, start, count), GridStart(shell, start))
  }

  method WriteGridHead(out: ByteWriter, shell: Shell)
    modifies out
    ensures out.bytes == old(out.bytes) + EncGridHead(shell)
  {
    hide Le, FlagByte;
    ghost var start := out.bytes;
    out.Word(VERSION, 1);
    out.Word(shell.revision, 8);
    out.Word(shell.cols, 2);
    out.Word(shell.rows, 2);
    out.Word(|shell.lines|, 4);
    out.Word(shell.cursorRow, 2);
    out.Word(shell.cursorCol, 2);
    out.Word(FlagByte(ShellFlags(shell)), 1);
    assert out.bytes == start + EncGridHead(shell);
  }

  method WriteGridLines(out: ByteWriter, shell: Shell, from: nat, to: nat)
    requires from <= to <= |shell.lines|
    modifies out
    ensures out.bytes == old(out.bytes) + EncGridLines(shell.lines[from..to], from)
  {
    hide Le, VtLine.EncVtLine;
    ghost var start, head := out.bytes, Le(from, 4) + Le(to - from, 4);
    ghost var lines := shell.lines[from..to];
    out.Word(from, 4);
    out.Word(to - from, 4);
    for i := from to to
      invariant out.bytes == start + (head + EncAll(VtLine.EncVtLine, lines[..i - from]))
    {
      VtLine.WriteVtLine(out, shell.lines[i]);
      OneMore(VtLine.EncVtLine, lines, i - from);
      VtLine.Reassociate(start, head, EncAll(VtLine.EncVtLine, lines[..i - from]), VtLine.EncVtLine(shell.lines[i]));
    }
    assert lines[..|lines|] == lines;
  }

  method ShellGrid(shell: Shell, start: nat, count: nat) returns (bytes: seq<byte>)
    ensures bytes == EncGrid(shell, start, count)
  {
    hide Le, EncStr16, EncGridHead, EncGridLines, VtLine.EncVtLine;
    var total := |shell.lines|;
    var from := if start < total then start else total;
    var to := if from + count < total then from + count else total;
    var out := new ByteWriter();
    WriteGridHead(out, shell);
    out.Str16(shell.title);
    out.Str16(shell.status);
    assert out.bytes == EncGridHead(shell) + EncGridTexts(shell);
    WriteGridLines(out, shell, from, to);
    bytes := out.bytes;
  }

  datatype WireGrid = WireGrid(
    revision: nat, cols: nat, rows: nat, total: nat, cursorRow: nat, cursorCol: nat, flags: seq<bool>, title: string,
    status: string, start: nat, lines: seq<seq<VtLine.WireRun>>)

  function KeptGrid(shell: Shell, start: nat, count: nat): WireGrid {
    WireGrid(shell.revision, shell.cols, shell.rows, |shell.lines|, shell.cursorRow, shell.cursorCol, ShellFlags(shell),
             Cut16(shell.title), Cut16(shell.status), GridStart(shell, start),
             KeepAll(VtLine.KeptRow, GridLines(shell, start, count)))
  }

  /** What a reader is told of a grid: the screen, the cursor, the flags, and of the lines asked for those there are. */
  ghost predicate GridIsTold(shell: Shell, start: nat, count: nat, v: WireGrid) {
    && v.revision == shell.revision && v.cols == shell.cols && v.rows == shell.rows && v.total == |shell.lines|
    && v.cursorRow == shell.cursorRow && v.cursorCol == shell.cursorCol
    && v.flags == [shell.cursorVisible, shell.altScreen, shell.canType, shell.running, shell.ended]
    && v.title == Cut16(shell.title) && v.status == Cut16(shell.status)
    && v.start == (if start < |shell.lines| then start else |shell.lines|)
    && |v.lines| == (if v.start + count <= |shell.lines| then count else |shell.lines| - v.start)
    && forall i :: 0 <= i < |v.lines| ==> VtLine.RowIsTold(shell.lines[v.start + i], v.lines[i])
  }

  lemma {:induction false} KeptGridIsTold(shell: Shell, start: nat, count: nat)
    ensures GridIsTold(shell, start, count, KeptGrid(shell, start, count))
  {
    hide Cut16, VtLine.KeptRow, VtLine.RowIsTold;
    var lines := GridLines(shell, start, count);
    forall i | 0 <= i < |lines|
      ensures VtLine.RowIsTold(lines[i], VtLine.KeptRow(lines[i]))
    {
      VtLine.KeptRowIsTold(lines[i]);
    }
  }

  function ReadGridLines(b: seq<byte>, at: nat): Parsed<(nat, seq<seq<VtLine.WireRun>>)> {
    var (start, a1) :- ReadLe(b, at, 4);
    var (count, a2) :- ReadLe(b, a1, 4);
    var (lines, a3) :- ReadAll(VtLine.ReadVtLine, b, a2, count);
    Parsed((start, lines), a3)
  }

  function ReadGrid(b: seq<byte>, at: nat): Parsed<WireGrid> {
    var (version, a1) :- ReadVersion(b, at);
    var (revision, a2) :- ReadLe(b, a1, 8);
    var (cols, a3) :- ReadLe(b, a2, 2);
    var (rows, a4) :- ReadLe(b, a3, 2);
    var (total, a5) :- ReadLe(b, a4, 4);
    var (cursorRow, a6) :- ReadLe(b, a5, 2);
    var (cursorCol, a7) :- ReadLe(b, a6, 2);
    var (flags, a8) :- ReadLe(b, a7, 1);
    var (title, a9) :- ReadStr(b, a8, 2);
    var (status, a10) :- ReadStr(b, a9, 2);
    var (tail, a11) :- ReadGridLines(b, a10);
    Parsed(WireGrid(revision, cols, rows, total, cursorRow, cursorCol, Bits(flags, 5), title, status, tail.0, tail.1), a11)
  }

  lemma GridHeadAt(b: seq<byte>, at: nat, shell: Shell)
    requires HasAt(b, at, EncGridHead(shell))
    ensures ReadVersion(b, at) == Parsed(VERSION, at + 1)
    ensures ReadLe(b, at + 1, 8) == Parsed(shell.revision, at + 9)
    ensures ReadLe(b, at + 9, 2) == Parsed(shell.cols % 0x1_0000, at + 11)
    ensures ReadLe(b, at + 11, 2) == Parsed(shell.rows % 0x1_0000, at + 13)
    ensures ReadLe(b, at + 13, 4) == Parsed(|shell.lines| % 0x1_0000_0000, at + 17)
    ensures ReadLe(b, at + 17, 2) == Parsed(shell.cursorRow % 0x1_0000, at + 19)
    ensures ReadLe(b, at + 19, 2) == Parsed(shell.cursorCol % 0x1_0000, at + 21)
    ensures ReadLe(b, at + 21, 1) == Parsed(FlagByte(ShellFlags(shell)), at + 22)
    ensures |EncGridHead(shell)| == 22
  {
    hide Le, ReadLe, FromLe, Words, HasAt, FlagByte, ReadVersion;
    var h0 := Le(VERSION, 1);
    var h1 := h0 + Le(shell.revision, 8);
    var h2 := h1 + Le(shell.cols, 2);
    var h3 := h2 + Le(shell.rows, 2);
    var h4 := h3 + Le(|shell.lines|, 4);
    var h5 := h4 + Le(shell.cursorRow, 2);
    var h6 := h5 + Le(shell.cursorCol, 2);
    HasParts(b, at, h6, Le(FlagByte(ShellFlags(shell)), 1));
    HasParts(b, at, h5, Le(shell.cursorCol, 2));
    HasParts(b, at, h4, Le(shell.cursorRow, 2));
    HasParts(b, at, h3, Le(|shell.lines|, 4));
    HasParts(b, at, h2, Le(shell.rows, 2));
    HasParts(b, at, h1, Le(shell.cols, 2));
    HasParts(b, at, h0, Le(shell.revision, 8));
    VersionAt(b, at);
    WordsAre();
    FlagsFit(ShellFlags(shell));
    WordAt(b, at + 1, shell.revision, 8);
    TruncatedWordAt(b, at + 9, shell.cols, 2);
    TruncatedWordAt(b, at + 11, shell.rows, 2);
    TruncatedWordAt(b, at + 13, |shell.lines|, 4);
    TruncatedWordAt(b, at + 17, shell.cursorRow, 2);
    TruncatedWordAt(b, at + 19, shell.cursorCol, 2);
    WordAt(b, at + 21, FlagByte(ShellFlags(shell)), 1);
  }

  lemma {:induction false} GridLinesAt(b: seq<byte>, at: nat, lines: seq<seq<VtLine.Cell>>, start: nat)
    requires HasAt(b, at, EncGridLines(lines, start))
    ensures var read, kept := ReadGridLines(b, at), (start, KeepAll(VtLine.KeptRow, lines));
            if start < 0x1_0000_0000 && |lines| < 0x1_0000_0000 && AllFit(VtLine.TextsFit, lines)
            then read == Parsed(kept, at + |EncGridLines(lines, start)|)
            else Lost(read, kept)
  {
    hide Le, ReadLe, HasAt, EncAll, ReadAll, KeepAll, AllFit, Words, Faithful;
    hide VtLine.EncVtLine, VtLine.ReadVtLine, VtLine.KeptRow, VtLine.TextsFit;
    HasParts(b, at, Le(start, 4) + Le(|lines|, 4), EncAll(VtLine.EncVtLine, lines));
    HasParts(b, at, Le(start, 4), Le(|lines|, 4));
    WordsAre();
    TruncatedWordAt(b, at, start, 4);
    TruncatedWordAt(b, at + 4, |lines|, 4);
    VtLine.RowCodecIsFaithful();
    ListReadsBack(VtLine.RowCodec(), lines, b, at + 8);
  }

  /** The screen's size and the cursor are told in 16 bits, the lines in 32. */
  ghost predicate GridFits(shell: Shell, lines: seq<seq<VtLine.Cell>>) {
    && shell.cols < 0x1_0000 && shell.rows < 0x1_0000 && shell.cursorRow < 0x1_0000 && shell.cursorCol < 0x1_0000
    && |shell.lines| < 0x1_0000_0000 && AllFit(VtLine.TextsFit, lines)
  }

  lemma InTheMiddle(before: seq<byte>, grid: seq<byte>, after: seq<byte>)
    ensures HasAt(before + grid + after, |before|, grid)
  {
  }

  /** Wherever a grid stands, it reads back whole, to its last byte, exactly when everything told of it fits. */
  lemma {:induction false} GridReadsBackIff(before: seq<byte>, shell: Shell, start: nat, count: nat, after: seq<byte>)
    ensures var grid, at := EncGrid(shell, start, count), |before|;
            ReadGrid(before + grid + after, at) == Parsed(KeptGrid(shell, start, count), at + |grid|)
            <==> GridFits(shell, GridLines(shell, start, count))
    ensures GridFits(shell, GridLines(shell, start, count)) ==>
              var read := ReadGrid(before + EncGrid(shell, start, count) + after, |before|);
              read.Parsed? && GridIsTold(shell, start, count, read.value)
  {
    KeptGridIsTold(shell, start, count);
    hide GridIsTold;
    hide Le, ReadLe, HasAt, EncAll, ReadAll, KeepAll, AllFit, Words, EncStr16, ReadStr, Cut16, FlagByte, Bits;
    hide EncGridHead, EncGridLines, ReadGridLines, ReadVersion, ShellFlags;
    var grid, at := EncGrid(shell, start, count), |before|;
    var b := before + grid + after;
    assert HasAt(b, at, grid) by { InTheMiddle(before, grid, after); }
    var lines, from := GridLines(shell, start, count), GridStart(shell, start);
    var title, status, tail := EncStr16(shell.title), EncStr16(shell.status), EncGridLines(lines, from);
    HasParts(b, at, EncGridHead(shell) + EncGridTexts(shell), tail);
    HasParts(b, at, EncGridHead(shell), EncGridTexts(shell));
    GridHeadAt(b, at, shell);
    HasParts(b, at + 22, title, status);
    FlagsInvert(ShellFlags(shell));
    Str16At(b, at + 22, shell.title);
    Str16At(b, at + 22 + |title|, shell.status);
    GridLinesAt(b, at + 22 + |title| + |status|, lines, from);
  }
}
