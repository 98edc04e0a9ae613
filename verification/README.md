# A model of the WorkerDeck client cores

WorkerDeck shows the sessions of coding agents. Two of its clients hold the difficult logic: the native Rust core
(`crates/core`), which lays out a transcript in terminal cells, caches the plans of its rows, indexes their heights and
hands a renderer binary snapshots; and the VS Code extension (`apps/vscode`), which compiles exclude globs, decides which
surface shows which session, strips comments from icon themes, previews replacements and colours folders. This project
models those parts and proves what their code, tests and documents promise, and, where a promise does not hold of the
code, exactly when it does.

`dafny verify dfyconfig.toml` checks everything.

## How it is laid out

| files | what they are about |
| --- | --- |
| `CellLayout`, `Cells`, `WrapTheorems`, `WrapLimits`, `CellText`, `AsciiText` | tokenizer, wrapper and clipper of `cells.rs`; the layout rules stated without the loops, the loops proved to follow them, what the rules are good for and where that ends, and what they come to in the characters of a plain ASCII line |
| `PlanCache`, `LineCounts`, `HeightBook`, `TailLines` | the plan cache, the parallel fill, whole histories of a cache, the height index, the tail of a transcript |
| `Utf8`, `ByteWriter`, `Codecs`, `Snapshot`, `SnapshotBuffers`, `VtLine` | the byte format, a reader for it, run-length-coded terminal rows |
| `Regex`, `Glob`, `GlobMeaning` | regular expressions, the glob compiler, what a glob means and what its character classes read as once emitted |
| `GlobPaths`, `GlobSegments`, `GlobWords`, `GlobSplits`, `GlobClasses`, `GlobReadings` | where `**` may stand, what one segment compiles to, how long a path has to be, where the splitter goes astray, and when the members of a class are kept |
| `GlobCorrect`, `GlobBraces`, `GlobOptions`, `GlobExamples`, `GlobExclude` | exactly which globs keep their meaning, what a brace is worth, globs on either side of the line, and the exclude rules on top |
| `SurfaceRules`, `Surfaces` | the session surfaces as a state machine, and the objects that go through it |
| `Crc`, `Jsonc`, `JsoncMeaning`, `Splice`, `Decorations` | CRC-32, comment stripping, back-to-front splicing, folder colours |

Loops and objects that change in the source are methods and classes here, each proved against a function of its inputs or
of the old state; the theorems are lemmas about those functions, and say what they come to in the terms of the inputs.

## What stands in for the rest of the system

- Grapheme segmentation and the Unicode tables are a record of functions (`Cells.Unicode`). `Valid` states what the code
  relies on: clusters are non-empty and spell the text, segmentation is local, printable ASCII splits into single
  characters (section 3.1.1 of UAX #29), nothing below U+1100 is wide, and the ASCII numeric characters are the digits.
- The planner, a row's key and the part of an expansion that concerns a row are pure functions in a record
  (`PlanCaches.Planner`) about which nothing is assumed.
- The number of threads and the order they finish in are arbitrary. Heights are reals; floats on the wire are the words
  that carry their bits.
- Machine widths are written out: a number cast to 16 or 32 bits keeps its low bits, and the column count of a run is
  taken modulo 2^16.
- For the surfaces, the host, the model and VS Code decide which event comes next, which reference it resolves to, and
  whether a new tab is active.

## Where the code and its promises part

- `WrapLimits.LinesFitIff`: the emitted lines fit exactly when no glyph is wider than a whole line, so only wide glyphs at
  one column are the exception. `WrapLimits.EmptyLineIff` says when such a glyph gets an empty line in front of it: when
  it is the first glyph of the hard line, or finds cells taken on its line. Behind glyphs without a width it does not
  (`WrapLimits.EmptyLineExamples`); where every glyph has a width, every wide glyph brings one out
  (`WrapLimits.EmptyLineIffWide`).
- `WrapLimits.RewrapIsIdentityIff`, `CellText.RewrapIff`: an emitted line wraps into itself unless it holds a glyph wider
  than the only column, or a tab in it widens: tab stops are counted from the start of the hard line, so the first tab of
  a line that started at an odd column may be one cell wider on its own, and a word that ended in the last column then
  sticks out (`WrapLimits.TabsCanSplitAgain`).
- A glob is meant as it reads: expand its braces, split it at the slashes outside of classes, let `**` stand for any
  number of words and match every other part with one word (`GlobMeaning.Means`, for every text). Without a closed brace
  the compiler keeps that meaning exactly under the conditions of `GlobCorrect.MeaningWithoutBracesIsKeptIff`. Where the
  glob means any path at all there are five: no class the compiler reads is refused, the globstars stand right, the
  splitter finds the parts, every class keeps its members, and no slash a class takes makes a difference. A glob with
  neither a bracket nor a brace needs only the second (`GlobCorrect.WithoutBracketsIsSound`). The next five items are
  what breaks each of them.
- Refusal: `[!-+]` becomes `[^/-+]`, whose range runs backwards, and the constructor throws (`GlobCorrect.CompilesIff`).
- Globstars: a lone `**`, and a glob that ends in `**/**`, match no normalised path at all
  (`GlobExamples.GlobstarsTheCompilerMisses`). Two `**` in a row in front of more keep their meaning. This holds of
  every glob, braces included (`GlobCorrect.KeptIff`).
- The splitter: it counts brackets inside a class and brackets nothing closes, and takes the slashes behind them for
  slashes within. The segment then swallows its `**`, which compiles to a star: `[{]/**` means `{/a/b`, `a[b/**` means
  `a[b/a/b`, and neither matches (`GlobExamples.BracketsTheCompilerCounts`). A glob that means some path never survives
  this: if the splitter goes by other parts, these need a longer path (`GlobSplits.SplitsNeedMore`).
  `GlobSplits.SegmentsOfJoinIff` says when the splitter gives back the segments a text was joined from.
- Members: a negated class that lists a dash first and goes on. The compiler puts a slash in front of what the class
  lists, so the dash makes a range that starts at the slash: `[!-z]` becomes `[^/-z]`, which leaves out `a` and lets the
  dash through (`GlobExamples.DashesTheCompilerMisses`, `GlobExamples.DashMatches`). Every other class the engine takes
  keeps its members, slashes aside (`GlobClasses.AgreesWithoutDash`); `GlobClasses.AgreesIff` decides for any class by
  comparing spans.
- Slashes: only a negated class has a slash put in front, so one that is not negated and lists the slash, by itself or
  in a range, takes it (`GlobClasses.TakesSlashIff`): `a[+-9]b` matches `a/b` (`GlobExamples.SlashesTheCompilerTakes`).
  First or last in its part such a class does no harm, as a normalised path has no slash to offer there. Anywhere else
  it breaks the meaning, with one exception: where the part takes every word and only parts that take every word stand
  between it and some `**`, that `**` stands for the words the slash joins (`GlobReadings.ReadingsAgreeIff`,
  `GlobExamples.SlashThatDoesNoHarm`).
- With braces, a glob whose segments are sound keeps its meaning exactly when it compiles and its globstars stand right,
  or it means no path (`GlobBraces.MeaningIsKeptIff`). A segment is sound when it is `**`; when the expansions of its
  inner braces hold no `**`, no class that loses members and no slash inside; or when it is a single brace whose options
  are sound globs, `**` included (`GlobExamples.GlobstarInBraces`). With text around it, an option's `**` is still
  compiled as if the option stood alone: `a{**/a,b}` matches `aa` (`GlobExamples.OptionsStandAlone`). Segments that are
  not sound may still be harmless, as one option can hide what another gets wrong: `{[!-z],?}` keeps its meaning
  (`GlobExamples.BracesMayHide`).
- A line's text or a run's text of 4 GiB, 2^32 rows, and a row from 2^31 on asked to be shown do not survive the
  snapshot; nothing else fails to (`Snapshot.LineReadsBackIff`, `SnapshotBuffers.LayoutReadsBackIff`,
  `SnapshotBuffers.LinesReadBackIff`, `SnapshotBuffers.GridReadsBackIff`, `VtLine.VtLineReadsBackIff`).
- `VtLine.RunsKeepTheRowIff`, `VtLine.ColumnsAddUpIff`: a terminal row's runs keep it unless one style goes on for more
  than 65535 columns, where the count starts over, and their columns add up to its cells unless, besides, the row starts
  with a continuation.
- `PlanCaches.OneFramePerCacheIff`: a lookup leaves the frame parent out, so a cache filled under one and asked under
  another answers wrongly for some planner.
- `HeightBooks.StartMapsBackIff`: the start of a row without a height maps to a later row.
- `SurfaceRules.RestoringIsExclusiveIff`: restoring the panel asks no tab, so it is safe at activation and not later.
- `GlobExclude.StemIsPutInIff`: a dollar in a file name may be taken for a replacement pattern: a file named `$&` waits
  for a sibling named `$(basename)` (`GlobExclude.AmpersandIsLost`).
- `Decorations.OrdersAgreeIff`: a folder's colour depends on the order its files are visited in exactly when the files of
  the highest rank that colour it give it different colours, which only git colours do; the first of them wins
  (`Decorations.FirstFileWins`, `Decorations.GitOrderMatters`).

## Model

| member | source | states |
|---|---|---|
| `CellLayout.TabStops` | crates/core/src/cells.rs:224-231 | a tab moves strictly forward, to the next multiple of the tab size and never past it |
| `CellLayout.TokenizationIsUnique` | crates/core/src/cells.rs:195-276 | the local rules for token boundaries leave one tokenization of a line |
| `CellLayout.TokenFacts` | crates/core/src/cells.rs:195-276 | tokens are non-empty, contiguous and cover the line; blank or word throughout; a word is as wide as its cells; a wide glyph stands alone; a dash stays inside a word only in front of a digit |
| `CellLayout.TokensEndAtCuts` | crates/core/src/cells.rs:195-276 | tokens end exactly where the rules cut |
| `Cells.FastPathIsSlowPath` | crates/core/src/cells.rs:163-188 | on plain ASCII the byte iterator with unit widths shows the layout the same glyphs as measured grapheme clusters |
| `Cells.PlainIsPrintable` | crates/core/src/cells.rs:136-138 | the byte test for the fast path holds exactly of printable ASCII |
| `Cells.GlyphIs` | crates/core/src/cells.rs:114-134 | the kind, width and certainty of any cluster, told from its characters |
| `Cells.ReadBlanks` | crates/core/src/cells.rs:222-241 | the inner loop reads a whole run of blanks and its width with tab stops |
| `Cells.TokenizeGlyphs` | crates/core/src/cells.rs:195-276 | the loop with its look-ahead produces the tokenization the local rules describe |
| `Cells.Tokenize` | crates/core/src/cells.rs:195-276 | with either iterator the tokens are those of the measured clusters; on printable ASCII they end exactly between blanks and others and behind a dash or question mark that no digit follows, and are as wide as they are long |
| `Cells.SplitWord` | crates/core/src/cells.rs:317-329 | an overlong word is cut exactly where the layout rules break inside a token |
| `Cells.WrapInto` | crates/core/src/cells.rs:282-334 | the wrapper emits exactly the lines the layout rules choose, and says whether their widths are certain |
| `WrapTheorems.BreaksIncrease` | crates/core/src/cells.rs:282-334 | breaks strictly increase inside the line, so no emitted line is empty |
| `WrapTheorems.BreaksFit` | crates/core/src/cells.rs:282-334 | every emitted line fits its columns once trailing blanks are ignored |
| `WrapTheorems.GreedyIsOptimal` | crates/core/src/cells.rs:282-334 | when every word fits, the wrapper's breaks are feasible, at word starts, and no feasible choice has fewer |
| `WrapLimits.RewrapIsIdentityIff` | crates/core/src/cells.rs:282-334 | an emitted line, wrapped again on its own at the same width, is one line exactly unless a tab in it widens or it holds a glyph wider than the only column |
| `WrapTheorems.OneLineIffItFits` | crates/core/src/cells.rs:282-334 | a line is left whole exactly when it fits |
| `WrapLimits.WideGlyphAtOneColumn` | crates/core/src/cells.rs:282-334 | a wide glyph alone at one column comes out behind an empty line |
| `WrapLimits.TabsCanSplitAgain` | crates/core/src/cells.rs:282-334 | a line whose tab widens once it is taken out of its hard line |
| `WrapLimits.RewrapIsIdentity` | crates/core/src/cells.rs:282-334 | in particular, without tabs and with room for every glyph each emitted line is one line again |
| `WrapLimits.LinesFitIff` | crates/core/src/cells.rs:282-334 | at any width from one, every emitted line fits exactly when no glyph is wider than a whole line |
| `WrapLimits.EmptyLineIff` | crates/core/src/cells.rs:307-328 | at one column an empty line comes out exactly when the first glyph is wide or a wide glyph finds cells taken on its line |
| `WrapLimits.EmptyLineIffWide` | crates/core/src/cells.rs:307-328 | where every glyph has a width, exactly when there is a wide one |
| `WrapLimits.EmptyLineExamples` | crates/core/src/cells.rs:307-328 | a wide glyph behind glyphs without a width brings no empty line, even if cells were taken before them |
| `CellText.WrapPartitions` | crates/core/src/cells.rs:282-334 | the byte ranges of a hard line cover it in order without gaps, none empty unless a wide glyph meets one column |
| `CellText.WrapEmitsFewestLines` | crates/core/src/cells.rs:282-334 | when every word fits, no choice of breaks at token boundaries makes fewer lines than are emitted |
| `AsciiText.AsciiWraps` | crates/core/src/cells.rs:282-334 | on printable ASCII every emitted line ends, in bytes, where its characters say: what is in front fits, the next word would not, and only a word too long for any line is cut, at the full width |
| `CellText.RewrapAscii` | crates/core/src/cells.rs:282-334 | for plain ASCII and any width from one, each emitted line wrapped again is one line |
| `CellText.RewrapIff` | crates/core/src/cells.rs:282-334 | for every string and any width from one, an emitted line wraps into itself exactly unless a tab in it widens or it holds a cluster wider than the only column |
| `CellText.WrappedRanges` | crates/core/src/cells.rs:336-344 | the ranges of a text are those of its hard lines at their byte offsets |
| `CellText.HardLinesAre` | crates/core/src/cells.rs:336-344 | hard lines hold no newline and joined by newlines are the text |
| `CellText.WrappedTextReadsBack` | crates/core/src/cells.rs:336-344 | joining the hard lines read through the ranges with newlines gives back the text byte for byte |
| `CellText.Clipped` | crates/core/src/cells.rs:350-376 | a text that fits is kept; otherwise the longest prefix of whole clusters that leaves a cell, and an ellipsis |
| `PlanCaches.PlanCache.LineCount` | crates/core/src/book.rs:50-60 | the whole new state of the cache and the count; on a coherent cache the count of a plan made afresh with the part of the expansion that concerns the row, or the closed one where nothing is expanded; coherence is kept |
| `PlanCaches.PlanCache.Evict` | crates/core/src/book.rs:62-70 | at most 2n+64 entries are left, no live row loses its entry, and pure entries stay pure |
| `PlanCaches.PlannedIsPure` | crates/core/src/book.rs:41-44 | a renderer is handed a plan exactly for a row last planned with the same part of the expansion, and it is the plan made afresh |
| `PlanCaches.OneFramePerCacheIff` | crates/core/src/book.rs:36-39 | a cache filled under one frame parent answers truly under another exactly when they are the same |
| `LineCounting.ChunksPartition` | crates/core/src/book.rs:181-189 | the chunks partition the misses in order and none is empty |
| `LineCounting.ChunksFitThreads` | crates/core/src/book.rs:180-184 | there are never more chunks than threads |
| `LineCounting.PlanChunks` | crates/core/src/book.rs:182-191 | whatever order the threads finish in, the joined parts are the plans of the chunks in order |
| `LineCounting.FillParallel` | crates/core/src/book.rs:179-197 | the parallel fill sets exactly the missed slots, each to its own plan |
| `LineCounting.FillInOrder` | crates/core/src/book.rs:198-204 | so does the sequential fill |
| `LineCounting.LineCounts` | crates/core/src/book.rs:149-214 | every slot holds the count of its hit or its own plan for any number of threads, the cache gets exactly the missed plans, and on a coherent cache the counts are those of plans made afresh, each row with its own part of the expansion |
| `LineCounting.Request.CountsArePure` | crates/core/src/book.rs:149-214 | cached and uncached counts agree wherever the entries are pure |
| `LineCounting.SecondPassHits` | crates/core/src/book.rs:41-44 | where rows have keys of their own, asking for the same rows again plans none of them |
| `LineCounting.Run` | crates/core/src/book.rs:24-75 | after any history of measuring, building, metric changes and sweeping under one frame parent, every answer is the one that planning afresh with the rows' own parts of the expansion gives, and only pure plans are held |
| `HeightBooks.Build` | crates/core/src/book.rs:100-110 | a row is as high as its lines, and one line more with a blank above it; offsets are the prefix sums |
| `HeightBooks.TotalIsAllLines` | crates/core/src/book.rs:100-114 | the whole is as high as all lines and blanks together |
| `HeightBooks.OffsetIsWhatIsAbove` | crates/core/src/book.rs:116-118 | a row's offset is the height of what stands above it, past the end the whole height |
| `HeightBooks.With` | crates/core/src/book.rs:93-110 | a book over a coherent cache measures the pure plans |
| `HeightBooks.RowIndexAtOffset` | crates/core/src/book.rs:132-146 | the binary search ends at the last row that starts at or before the offset |
| `HeightBooks.PointInRowMapsBack` | crates/core/src/book.rs:132-146 | every point inside a row maps back to that row |
| `HeightBooks.StartMapsBackIff` | crates/core/src/book.rs:132-146 | the start of a row maps back exactly when the row has a height or is the last |
| `HeightBooks.OffsetLiesInItsRow` | crates/core/src/book.rs:132-146 | every offset up to the total height lies inside the row it maps to |
| `TailLines.Tail` | crates/core/src/engine.rs:77-95 | planning from the end and stopping early gives the last lines of the whole transcript |
| `Utf8.BoundaryMeaning` | crates/core/src/engine.rs:256-264 | the character boundaries of an encoding are the ends of its prefixes of whole characters |
| `Utf8.DecodeInverts` | crates/core/src/engine.rs:256-268 | decoding inverts encoding, section 3 of RFC 3629 |
| `Bytes.Cut16IsLongestPrefix` | crates/core/src/engine.rs:256-264 | a 16-bit string is the longest prefix of whole characters that takes at most 65535 bytes, and the whole string exactly when it fits |
| `Bytes.ByteWriter.Str16` | crates/core/src/engine.rs:256-264 | the boundary loop writes that prefix behind its length |
| `Bytes.Str16At` | crates/core/src/engine.rs:256-264 | a 16-bit string reads back as its cut |
| `Bytes.LeDigits` | crates/core/src/engine.rs:235-252 | the bytes of a word are its digits to the base 256, the lowest first |
| `Bytes.TruncatedWordAt` | crates/core/src/engine.rs:235-252 | a word reads back modulo its width |
| `Bytes.LongStr32IsLost` | crates/core/src/engine.rs:265-268 | a string of 4 GiB or more never reads back as itself |
| `Codecs.ListReadsBack` | crates/core/src/snapshot.rs:16-49 | items written one after the other read back, to the last byte, exactly when each of them fits the format |
| `Codecs.CountedReadsBack` | crates/core/src/snapshot.rs:45-50 | so do items behind a 32-bit count, if the count fits as well |
| `Snapshot.WriteLine` | crates/core/src/snapshot.rs:68-106 | the writer appends the bytes of the line's layout |
| `Snapshot.LineBits` | crates/core/src/snapshot.rs:72-79 | which bit of a line's flag byte says what |
| `Snapshot.LineReadsBackIff` | crates/core/src/snapshot.rs:68-106 | reading recovers a line field by field, decides the optional blocks by bits 6 and 7 alone and stops at the last byte, exactly when the text is below 4 GiB: at most 65535 runs with their numbers in 32 bits, sizes held to 65535, short strings cut |
| `SnapshotBuffers.TranscriptLayout` | crates/core/src/snapshot.rs:10-36 | the layout's bytes: version, counted rows with their flags, the row asked to be shown |
| `SnapshotBuffers.RowBits` | crates/core/src/snapshot.rs:21-23 | which bit of a row's flag byte says what |
| `SnapshotBuffers.BuffersOpenWithVersion` | crates/core/src/snapshot.rs:1-8 | every buffer opens with a 4 |
| `SnapshotBuffers.OtherVersionsAreRefused` | docs/NATIVE-CORE-SNAPSHOTS.md:7-9 | a reader refuses a buffer that opens with anything else |
| `SnapshotBuffers.LayoutReadsBackIff` | crates/core/src/snapshot.rs:10-36 | the layout reads back row by row exactly when its rows can be counted and the row asked to be shown is not taken for a negative number |
| `SnapshotBuffers.TranscriptLines` | crates/core/src/snapshot.rs:38-53 | the bytes of the rows from `start` on and in front of `end`, as far as there are any |
| `SnapshotBuffers.LinesBlock` | crates/core/src/snapshot.rs:55-66 | free-standing lines are one row starting at 0 |
| `SnapshotBuffers.LinesReadBackIff` | crates/core/src/snapshot.rs:38-53 | a range of rows reads back line by line exactly when every number told of it fits |
| `SnapshotBuffers.FrameReadsBack` | docs/NATIVE-CORE-SNAPSHOTS.md:55-55 | a frame splits where its layout says it ends, both halves read back, and the second ends the buffer |
| `SnapshotBuffers.TranscriptFrame` | crates/ffi/src/lib.rs:687-693 | a frame is the layout and the lines end to end, and a reader that is told nothing else gets both back |
| `SnapshotBuffers.ShellGrid` | crates/core/src/snapshot.rs:108-137 | the bytes of a shell's grid |
| `SnapshotBuffers.ShellBits` | crates/core/src/snapshot.rs:123-127 | which bit of a grid's flag byte says what |
| `SnapshotBuffers.GridReadsBackIff` | crates/core/src/snapshot.rs:108-137 | the grid reads back field by field and line by line exactly when its sizes, counts and texts fit |
| `VtLine.CollectRuns` | crates/core/src/engine.rs:140-160 | the loop that widens, extends and opens runs computes the run-length code |
| `VtLine.CellDraws` | crates/core/src/engine.rs:140-160 | what a cell draws: its character or cluster, a blank where it has none, nothing where it continues another |
| `VtLine.RunsKeepTheRowIff` | crates/core/src/engine.rs:140-160 | the runs draw what the cells draw in order, every column keeps its style, no run is empty and neighbours differ in style, exactly when no style goes on for more than 65535 columns |
| `VtLine.ColumnsAddUpIff` | crates/core/src/engine.rs:140-160 | the column counts add up to the cells exactly when the row does not start with a continuation and no style goes on for more than 65535 columns |
| `VtLine.StyleBits` | crates/core/src/engine.rs:166-172 | which bit of a run's style byte says what |
| `VtLine.SlotsAreTold` | crates/core/src/engine.rs:212-222 | a renderer tells set, unset and inverse colours apart by their words, and inverse swaps what is set |
| `VtLine.ColorsAreTold` | crates/core/src/engine.rs:204-210 | the word of a colour is its mark and its red, green and blue |
| `VtLine.NamedColors` | crates/core/src/engine.rs:184-187 | the sixteen named colours by their red, green and blue |
| `VtLine.XtermIsCubeAndRamp` | crates/core/src/engine.rs:189-202 | the palette behind the sixteen named colours is a cube of six steps a side and a ramp of greys |
| `VtLine.WriteVtLine` | crates/core/src/engine.rs:140-177 | the writer appends the run count and the runs with their colours resolved |
| `VtLine.VtLineReadsBackIff` | crates/core/src/engine.rs:140-177 | a written row reads back run by run, each with its colour words, style bits, columns and text, exactly when each run's text is below 4 GiB |
| `Glob.SplitSegments` | apps/vscode/src/glob.ts:55-71 | the loop cuts at slashes outside brackets |
| `Glob.SegmentToRegExp` | apps/vscode/src/glob.ts:73-109 | the scan of a segment compiles its parts, braces by way of the whole compiler |
| `Glob.EscapedIsRead` | apps/vscode/src/glob.ts:101-102 | the engine reads an escaped class text as the text itself, with or without the slash a negated class is given |
| `Glob.TrimTakesOff` | apps/vscode/src/glob.ts:29-31 | trimming takes off one leading `./` and every trailing slash and nothing else |
| `Glob.GlobToRegExp` | apps/vscode/src/glob.ts:29-53 | the expression of a trimmed glob, and none where the engine refuses a class of it |
| `GlobSplits.SegmentsOfJoinIff` | apps/vscode/src/glob.ts:55-71 | the splitter gives back the segments a glob was joined from exactly when none of them has a slash outside of what it counts as brackets, and each but the last closes the brackets counted in it |
| `GlobSplits.SplitsNeedMore` | apps/vscode/src/glob.ts:55-71 | whatever the splitter swallows, the compiled glob asks for at least as many words as the parts of the glob do, and for as many only if it goes by those parts |
| `GlobSegments.SegmentAccepted` | apps/vscode/src/glob.ts:73-109 | a segment's expression is taken by the engine exactly when no range of a class the compiler reads in it, options included, runs backwards |
| `GlobSegments.TameSegment` | apps/vscode/src/glob.ts:73-109 | a segment whose brackets are closed, with options that stand on their own, matches exactly the strings one of its expansions takes, `*`, `?`, classes as emitted, and slashes inside of braces |
| `GlobPaths.PathMeans` | apps/vscode/src/glob.ts:33-53 | whatever its segments compile to, a glob with a segment other than `**` and not two of them at the end matches a path exactly when the segments take it between them, `**` any number of words; no slash around a `**` is missing or left over |
| `GlobPaths.BadMatchesNothing` | apps/vscode/src/glob.ts:33-53 | every other glob matches no normalised path |
| `GlobClasses.AgreesWithoutDash` | apps/vscode/src/glob.ts:93-103 | a class the engine takes has the members it lists, slashes aside, unless it is negated, opens with a dash and goes on |
| `GlobClasses.AgreesIff` | apps/vscode/src/glob.ts:93-103 | any class the engine takes has the members it lists, slashes aside, exactly when what it lists and what is emitted span the same characters, which a sweep over the spans decides |
| `GlobClasses.TakesSlashIff` | apps/vscode/src/glob.ts:93-103 | the emitted class takes a slash exactly when it is in order, not negated and lists the slash |
| `GlobClasses.DashIsLost` | apps/vscode/src/glob.ts:93-103 | a negated class that opens with a dash lets that dash through exactly when it does not list it again |
| `GlobWords.CanMeanIff` | apps/vscode/src/glob.ts:29-109 | a list of parts means some path exactly when none of its parts but the globstars is empty or holds an empty class |
| `GlobWords.CanMatchIff` | apps/vscode/src/glob.ts:29-109 | its emitted reading takes some path exactly when each part can be filled without an empty word, a class of nothing but a slash joining two |
| `GlobReadings.ReadingsAgreeIff` | apps/vscode/src/glob.ts:73-109 | parts that mean some path take the same paths as meant and as emitted exactly when the classes keep their members and every slash taken inside a part is absorbed by a `**` |
| `GlobCorrect.CompilesIff` | apps/vscode/src/glob.ts:29-31 | a glob compiles exactly when no range of a class the compiler reads runs backwards; otherwise the constructor throws |
| `GlobCorrect.GlobstarsMatch` | apps/vscode/src/glob.ts:29-109 | for every glob, the compiled expression matches a normalised path exactly when its segments take it, `**` any number of words, provided some segment is not `**` and the glob does not end in two; otherwise it matches no path |
| `GlobCorrect.MeansSomePathIff` | apps/vscode/src/glob.ts:29-109 | any glob means some path exactly when one of its expansions has no part but globstars that is empty or holds an empty class |
| `GlobCorrect.KeptIff` | apps/vscode/src/glob.ts:29-109 | every glob, braces included, whose globstars stand wrong keeps its meaning exactly when it compiles and means no path; any other exactly when it compiles and its segments take what it means |
| `GlobCorrect.PlainGlobMatches` | apps/vscode/src/glob.ts:29-109 | any glob without a closed brace matches exactly what the parts the compiler goes by take, classes as emitted, where the globstars stand right, and nothing otherwise |
| `GlobCorrect.MeaningWithoutBracesIsKeptIff` | apps/vscode/src/glob.ts:29-109 | any glob without a closed brace, whatever its brackets and classes, that means some path keeps its meaning exactly when it compiles, the splitter finds its parts, the globstars stand right, the classes keep their members and the slashes they take are absorbed; one that means none, exactly when it compiles and matches none |
| `GlobCorrect.GlobPreservesMeaning` | apps/vscode/src/glob.ts:29-109 | path by path, a sound glob without braces matches what it means |
| `GlobCorrect.WithoutBracketsIsSound` | apps/vscode/src/glob.ts:29-109 | a glob with neither brackets nor braces is sound as soon as its globstars stand right |
| `GlobBraces.MeaningIsKeptIff` | apps/vscode/src/glob.ts:29-109 | a glob with braces whose segments are sound keeps its meaning exactly when it compiles and its globstars stand right or no expansion of it means any path |
| `GlobOptions.SplitOnSplits` | apps/vscode/src/glob.ts:90-90 | splitting at commas loses nothing and leaves no comma in an option |
| `GlobOptions.SplitOnFinds` | apps/vscode/src/glob.ts:90-90 | options without commas come back as they were joined |
| `GlobOptions.SegCut` | apps/vscode/src/glob.ts:73-109 | a segment whose brackets and braces are closed can be cut off from what follows: the two match a string exactly when each matches its part of it |
| `GlobOptions.BraceIsAnyOption` | apps/vscode/src/glob.ts:29-109 | whatever stands around it, a glob with a brace matches a path exactly when the glob with one of the options in the place of the brace does |
| `GlobExamples.GlobstarsTheCompilerMisses` | apps/vscode/src/glob.ts:33-53 | two globs that mean a path their expression does not match |
| `GlobExamples.BracketsTheCompilerCounts` | apps/vscode/src/glob.ts:55-71 | `[{]/**` and `a[b/**` mean a path of three words and do not match it |
| `GlobExamples.DashMatches` | apps/vscode/src/glob.ts:93-103 | every negated class that opens with a dash and does not list it again matches a file named `-` against its meaning |
| `GlobExamples.DashesTheCompilerMisses` | apps/vscode/src/glob.ts:93-103 | `[!-z]` means `a` and does not match it; `[!-+]` means `a` and throws |
| `GlobExamples.DashListedAgain` | apps/vscode/src/glob.ts:93-103 | a class that opens with a dash, lists it again and keeps its members |
| `GlobExamples.SlashMatches` | apps/vscode/src/glob.ts:93-103 | every class that takes a slash, put between two letters, matches a path of two words against its meaning |
| `GlobExamples.SlashesTheCompilerTakes` | apps/vscode/src/glob.ts:93-103 | `a[+-9]b` matches `a/b` and does not mean it |
| `GlobExamples.AbsorbedSlash` | apps/vscode/src/glob.ts:93-103 | inside a part that takes anything, behind a `**`, such a class keeps the meaning |
| `GlobExamples.SlashThatDoesNoHarm` | apps/vscode/src/glob.ts:93-103 | such a glob: its class is the range of all characters |
| `GlobExamples.GlobstarInBraces` | apps/vscode/src/glob.ts:84-92 | `{**/a,b}`, whose brace holds a globstar and a slash, keeps its meaning |
| `GlobExamples.ThreeOptions` | apps/vscode/src/glob.ts:84-92 | `*.{js,jsx,ts}` matches `a.ts` and not `a.tsx` |
| `GlobExamples.OptionsStandAlone` | apps/vscode/src/glob.ts:84-92 | `a{**/a,b}` matches `aa`, which none of its expansions means |
| `GlobExamples.BracesMayHide` | apps/vscode/src/glob.ts:84-103 | `{[!-z],?}` keeps its meaning although its class does not keep its members |
| `GlobExclude.ExcludeRules` | apps/vscode/src/glob.ts:7-17 | rules come from the settings that are on, in order; a refused glob leaves no rules at all |
| `GlobExclude.RulesAreThereIff` | apps/vscode/src/glob.ts:7-17 | there are rules exactly when no setting that is on has a class whose emitted range runs backwards |
| `GlobExclude.ExclusionTakes` | apps/vscode/src/glob.ts:7-21 | for all settings, a path is excluded exactly when the segments of some setting that is on take it, its globstars stand right, and the sibling it waits for is there |
| `GlobExclude.ExclusionMeans` | apps/vscode/src/glob.ts:7-21 | where every glob that is on keeps its meaning, there are rules, and a path is excluded exactly when one of these globs means it and the sibling is there |
| `GlobExclude.StemIs` | apps/vscode/src/glob.ts:24-25 | the stem of a name is what stands in front of its last dot, unless that comes first |
| `GlobExclude.PatternsStand` | apps/vscode/src/glob.ts:25-25 | what the four dollar patterns of a replacement stand for, and that anything else stands for itself |
| `GlobExclude.StemIsPutInIff` | apps/vscode/src/glob.ts:23-26 | a file's stem stands in a sibling's name for every `$(basename)` as it is, whatever the setting, exactly when no dollar in the stem is a replacement pattern |
| `GlobExclude.AmpersandIsLost` | apps/vscode/src/glob.ts:23-26 | a file named `$&` waits for a sibling named `$(basename)` |
| `SurfaceRules.NextKeepsExclusive` | apps/vscode/src/extension.ts:235-361 | every step keeps tabs on different conversations, the panel on a current one no tab holds, a held reference on an empty panel and a tab that is there, and focus on a surface that is there |
| `SurfaceRules.RunsAreExclusive` | apps/vscode/src/extension.ts:235-361 | so does every run from activation on |
| `SurfaceRules.RestoringIsExclusiveIff` | apps/vscode/src/panel.ts:65-72 | restoring is safe exactly when the panel has a session, or no tab holds the remembered one and none is waited for |
| `SurfaceRules.ShownAtMostOnce` | apps/vscode/src/session-tab.ts:31-33 | no conversation is on two surfaces |
| `SurfaceRules.SelectingShows` | apps/vscode/src/extension.ts:309-344 | selecting a session shows it on exactly one surface: its tab, else the one asked for, else the panel, past conversations in tabs only; a tab is focused at once, a panel that loses its session waits for the tab, and every other conversation stays but the one the panel gives up |
| `SurfaceRules.MovingShows` | apps/vscode/src/extension.ts:270-280 | moving a tab to the panel closes it and shows its conversation there and nowhere else, the others staying but the one the panel gives up; a tab on a past conversation stays |
| `SurfaceRules.ClosingShows` | apps/vscode/src/extension.ts:235-245 | closing a tab takes its conversation off the screen unless the panel waits for it and takes it back; nothing else moves |
| `SurfaceRules.DeletingLeavesOthers` | apps/vscode/src/extension.ts:346-353 | deleting a session takes all its conversations off the screen and leaves every other where it is, held or shown |
| `SurfaceRules.DeserializingShows` | apps/vscode/src/extension.ts:534-546 | a tab handed back is taken on behind the others exactly where no tab has its conversation, and takes it from a panel that shows it |
| `SurfaceRules.FocusOnlyMoves` | apps/vscode/src/surfaces.ts:78-84 | focus events move the focus and nothing else |
| `SurfaceRules.NothingHappens` | apps/vscode/src/extension.ts:309-313 | references that do not resolve and tabs that are gone change nothing |
| `SurfaceRules.KeysTell` | apps/vscode/src/session-surface.ts:98-104 | conversations are told apart by host, session and conversation |
| `SurfaceRules.RememberedIsCurrent` | apps/vscode/src/extension.ts:226-230 | what is remembered of the panel is host, session and folder |
| `SurfaceRules.FocusIsSticky` | apps/vscode/src/surfaces.ts:6-7 | closing, moving and deleting leave the focus where it is, or give it to the panel where its tab is gone |
| `SurfaceRules.DeletedIsNowhere` | apps/vscode/src/extension.ts:346-353 | a deleted session is on no surface and nothing waits for it |
| `SurfaceRules.ClosingHandsBack` | apps/vscode/src/extension.ts:235-257 | opening the panel's session in a tab and closing that tab gives it back to the panel |
| `SurfaceRules.HeldUntil` | apps/vscode/src/panel.ts:50-80 | the panel waits through exactly the steps that neither close the tab, delete the session nor show it another |
| `SurfaceRules.ReloadKeepsTheSurfaces` | apps/vscode/src/extension.ts:414-546 | a window reload brings every session back to its surface, in whatever order the tabs come, and the focus to the active tab; what the panel waited for is forgotten, and the focus of a tab that is not the active editor |
| `SessionSurfaces.Tab.ViewDisposed` | apps/vscode/src/session-tab.ts:108-115 | the closed callback fires once, and never after the extension disposed the tab itself |
| `SessionSurfaces.Panel.Hold` | apps/vscode/src/panel.ts:74-80 | holding empties the panel and remembers nothing for the next window |
| `SessionSurfaces.Registry.Remove` | apps/vscode/src/surfaces.ts:68-76 | a tab taken out takes the focus back to the panel if it had it |
| `SessionSurfaces.Extension.OpenTab` | apps/vscode/src/extension.ts:250-259 | opening a tab follows the rules, focus during its making included |
| `SessionSurfaces.Extension.ViewDisposed` | apps/vscode/src/extension.ts:235-245 | closing a tab, by the user or again, is the rules' step |
| `SessionSurfaces.Extension.MoveToPanel` | apps/vscode/src/extension.ts:270-280 | so is moving one to the panel |
| `SessionSurfaces.Extension.SelectSession` | apps/vscode/src/extension.ts:309-344 | so is selecting a session |
| `SessionSurfaces.Extension.SessionDeleted` | apps/vscode/src/extension.ts:346-353 | so is a session's deletion, with its loop over the tabs |
| `SessionSurfaces.Extension.Deserialize` | apps/vscode/src/extension.ts:534-546 | so is a tab VS Code hands back; it is adopted exactly when no tab holds its conversation |
| `SessionSurfaces.Replay` | apps/vscode/src/extension.ts:235-361 | the objects go through every run as the rules say |
| `Crc.StepIsLinear` | smoke/media.ts:20-26 | one step of the division is linear over exclusive or |
| `Crc.TableDivides` | smoke/media.ts:28-34 | for every message and register, going byte by byte through the table is dividing bit by bit |
| `Crc.Crc32` | smoke/media.ts:20-34 | the table-driven loop computes the reflected division by 0xEDB88320 with all ones before and the complement after (section 5.5 of the PNG specification) |
| `Crc.OneWrongByteIsDetected` | smoke/media.ts:28-34 | a message with one byte changed keeps its check value exactly when the byte did not change |
| `Crc.EndOfFile` | smoke/media.ts:20-34 | the check value of the `IEND` chunk is 0xAE426082 |
| `Jsonc.StripComments` | apps/vscode/src/icon-theme.ts:252-283 | the scanning loop computes the stripped text, early ends included |
| `JsoncMeaning.Marks` | apps/vscode/src/icon-theme.ts:266-272 | the scan opens a comment exactly at `//` and at `/*` |
| `JsoncMeaning.StripKeepsThePieces` | apps/vscode/src/icon-theme.ts:252-283 | whatever pieces a text is made of, stripping writes its code and literals and a newline for each line comment |
| `JsoncMeaning.StripKeepsLiterals` | apps/vscode/src/icon-theme.ts:252-283 | for every text, the literals of section 7 of RFC 8259 are copied verbatim and in order, and no comment is left or made |
| `JsoncMeaning.StripIsIdentityIff` | apps/vscode/src/icon-theme.ts:252-283 | stripping changes nothing exactly when there is no comment outside the literals |
| `JsoncMeaning.StripIsIdempotent` | apps/vscode/src/icon-theme.ts:252-283 | stripping twice is stripping once |
| `Splice.FreshAre` | apps/vscode/src/search-view.ts:385-391 | a match becomes a change exactly when its text still stands there |
| `Splice.Preview` | apps/vscode/src/search-view.ts:379-396 | for disjoint matches with distinct starts, splicing from the back is substituting at once; stale matches stay |
| `Splice.ReplacementLands` | apps/vscode/src/search-view.ts:385-396 | every replacement stands whole where the changes in front of it moved it |
| `Splice.GapLands` | apps/vscode/src/search-view.ts:385-396 | every character outside the changes comes through, moved by the changes in front of it |
| `Decorations.FileColours` | apps/vscode/src/file-decorations.ts:138-150 | errors come before warnings and both before git; faded files and files without a colour colour nothing above them |
| `Decorations.TextIsNormal` | apps/vscode/src/file-decorations.ts:178-184 | the text of a path starts with a slash and ends in one only at the root |
| `Decorations.WithinIsBelow` | apps/vscode/src/file-decorations.ts:178-184 | being within a folder, on texts, is being at or below it, on paths |
| `Decorations.Bubble` | apps/vscode/src/file-decorations.ts:149-159 | the walk upwards ends and leaves the marks of every file |
| `Decorations.BubblingIsSubtreeMaximum` | apps/vscode/src/file-decorations.ts:135-163 | a folder carries the highest rank among the coloured, not faded files below it and a colour of that rank, and none where there is no such file |
| `Decorations.OrderHardlyMatters` | apps/vscode/src/file-decorations.ts:135-163 | in any visiting order ranks agree, and colours too wherever a problem gives them |
| `Decorations.FirstFileWins` | apps/vscode/src/file-decorations.ts:135-163 | a folder shows the first file of the highest rank among those that colour it |
| `Decorations.OrdersAgreeIff` | apps/vscode/src/file-decorations.ts:135-163 | all visiting orders leave the same on a folder exactly when its contributors of the highest rank have one colour |
| `Decorations.GitOrderMatters` | apps/vscode/src/file-decorations.ts:135-163 | two git colours below one folder, where the order decides |
| `Decorations.Under` | apps/vscode/src/file-decorations.ts:135-165 | a file shows its own colour and whether it is faded, the colour of the folder it also is where it has none; a folder that is no file shows the bubbled colour, not faded |

## Left out

- Positions inside a line are counted in grapheme clusters; the emitted ranges are byte offsets as in the source. Clusters
  are measured up front instead of one at a time.
- `Splice.Preview`: overlapping matches and matches with the same start are outside the contract, because substituting
  them at once has no meaning.
- `GlobBraces.MeaningIsKeptIff`: with braces, that every segment is sound is sufficient and not necessary
  (`GlobExamples.BracesMayHide`); what is necessary there compares two unions of languages (`GlobCorrect.KeptIff`).
- Text in the extension is of UTF-16 code units, surrogates included; a Dafny `char` is any other Unicode character. Globs,
  icon themes and paths are therefore covered in the basic multilingual plane, and a class that takes every character is
  one that also lists the planes above it.
- `VtLine.RunsKeepTheRowIff`: the count starts over as in a release build; a debug build stops there.
- `HeightBooks.Build`: heights are exact reals, so the rounding of `f64` sums is not modelled.
- `Crc.Crc32`: words are 32-bit vectors; the switching of JavaScript between signed and unsigned numbers is not modelled.
- `Decorations.Bubble`: paths are normalised segment lists, so a root written with a trailing slash is not modelled.
- UTF-8 decoding accepts overlong forms; it is only ever applied to what the writer wrote.
- The planner, row building, expansion, protocol decoding and the reducer are pure parameters; the terminal emulator, the
  network clients and the server are not part of this model.
- A surface's webview: titles, icons, pending messages, composer focus and catch-up marks do not move sessions.
- Focus reported by a tab that was already disposed, and a tab that goes away while a callback awaits, are not events here.
- The engine's own `snapshot` and `vt_snapshot` buffers repeat the patterns of the modelled ones.
- Building the decoration entries from git and diagnostics, badges and tooltips; the trailing-comma expression behind the
  comment loop; the rest of the PNG writer.
