/** The transcript snapshots of `crates/core/src/snapshot.rs`: what a native renderer reads back from them. The readers
    follow docs/NATIVE-CORE-SNAPSHOTS.md. */
module Snapshot {
  import opened Options
  import opened Utf8
  import opened Bytes
  import opened Codecs

  const VERSION: u8 := 4
  const U16_MAX: nat := 0xFFFF

  datatype Run = Run(start: nat, len: nat, intent: u8)

  datatype ImageBox = ImageBox(
    toolUseId: string, sourceSeq: i64, partIndex: i64, mediaType: string, bytes: i64, lines: nat,
    name: string, placeholder: string, hostPath: Option<string>)

  /** A planned line. Tones and bands are their declaration indices, `elapsedSince` is the word of its float. */
  datatype TermLine = TermLine(
    gutter: string, gutterTone: u8, text: string, attributed: Option<seq<Run>>, tone: u8, columns: nat, indent: nat,
    band: u8, bold: bool, italic: bool, nested: bool, pulsing: bool, inOpen: bool, elapsedSince: Option<u64>,
    press: Option<string>, image: Option<ImageBox>)

  function Min(a: nat, b: nat): nat {
    if a < b then a else b
  }

  // ----- what survives the writing

  datatype WireImage = WireImage(
    toolUseId: string, sourceSeq: int, partIndex: int, mediaType: string, bytes: int, lines: nat,
    name: string, placeholder: string, hostPath: string)

  datatype WireLine = WireLine(
    tone: nat, gutterTone: nat, band: nat, flags: seq<bool>, indent: nat, columns: nat, gutter: string, text: string,
    runs: seq<Run>, elapsedSince: Option<nat>, image: Option<WireImage>)

  function Flags(line: TermLine): (r: seq<bool>)
    ensures |r| == 8
  {
    [line.bold, line.italic, line.nested, line.pulsing, line.inOpen, line.press.Some?, line.image.Some?,
     line.elapsedSince.Some?]
  }

  /** The flag byte as the format lists its bits. */
  lemma LineBits(line: TermLine)
    ensures FlagByte(Flags(line))
         == (if line.bold then 1 else 0) + (if line.italic then 2 else 0) + (if line.nested then 4 else 0)
            + (if line.pulsing then 8 else 0) + (if line.inOpen then 16 else 0) + (if line.press.Some? then 32 else 0)
            + (if line.image.Some? then 64 else 0) + (if line.elapsedSince.Some? then 128 else 0)
  {
    FlagsAre(Flags(line));
  }

  /** The runs that are written: at most as many as a 16-bit count tells. */
  function KeptRuns(line: TermLine): seq<Run> {
    var runs := if line.attributed.Some? then line.attributed.value else [];
    runs[..Min(|runs|, U16_MAX)]
  }

  function KeptRun(r: Run): Run {
    Run(r.start % 0x1_0000_0000, r.len % 0x1_0000_0000, r.intent)
  }

  function KeptImage(image: ImageBox): WireImage {
    WireImage(Cut16(image.toolUseId), image.sourceSeq, image.partIndex, Cut16(image.mediaType), image.bytes,
              Min(image.lines, U16_MAX), Cut16(image.name), Cut16(image.placeholder),
              Cut16(if image.hostPath.Some? then image.hostPath.value else ""))
  }

  /** Everything of a line that a reader gets to see: a press is only known to be there, an absent list of runs is an
      empty one, an absent host path an empty one, long strings and large sizes are cut. */
  function Kept(line: TermLine): WireLine {
    WireLine(line.tone, line.gutterTone, line.band, Flags(line), Min(line.indent, U16_MAX), Min(line.columns, U16_MAX),
             Cut16(line.gutter), line.text, KeepAll(KeptRun, KeptRuns(line)),
             if line.elapsedSince.Some? then Some(line.elapsedSince.value) else None,
             if line.image.Some? then Some(KeptImage(line.image.value)) else None)
  }

  /** What a reader is told of a list of runs: as many as a 16-bit count tells, their numbers in 32 bits, and none where
      there is no list. */
  ghost predicate RunsAreTold(attributed: Option<seq<Run>>, runs: seq<Run>) {
    match attributed
    case None => runs == []
    case Some(all) =>
      && |runs| == (if |all| <= 65535 then |all| else 65535)
      && forall i :: 0 <= i < |runs| ==>
           && runs[i].start == all[i].start % 0x1_0000_0000
           && runs[i].len == all[i].len % 0x1_0000_0000
           && runs[i].intent == all[i].intent
  }

  ghost predicate ImageIsTold(image: ImageBox, v: WireImage) {
    && v.toolUseId == Cut16(image.toolUseId) && v.sourceSeq == image.sourceSeq && v.partIndex == image.partIndex
    && v.mediaType == Cut16(image.mediaType) && v.bytes == image.bytes
    && v.lines == (if image.lines <= 65535 then image.lines else 65535)
    && v.name == Cut16(image.name) && v.placeholder == Cut16(image.placeholder)
    && (match image.hostPath case None => v.hostPath == "" case Some(path) => v.hostPath == Cut16(path))
  }

  /** What a reader is told of a line, field by field. */
  ghost predicate LineIsTold(line: TermLine, v: WireLine) {
    && v.tone == line.tone && v.gutterTone == line.gutterTone && v.band == line.band
    && v.flags == [line.bold, line.italic, line.nested, line.pulsing, line.inOpen, line.press != None, line.image != None,
                   line.elapsedSince != None]
    && v.indent == (if line.indent <= 65535 then line.indent else 65535)
    && v.columns == (if line.columns <= 65535 then line.columns else 65535)
    && v.gutter == Cut16(line.gutter) && v.text == line.text
    && RunsAreTold(line.attributed, v.runs)
    && (match line.elapsedSince case None => v.elapsedSince == None case Some(since) => v.elapsedSince == Some(since))
    && (match line.image
        case None => v.image == None
        case Some(image) => v.image.Some? && ImageIsTold(image, v.image.value))
  }

  lemma {:induction false} KeptIsTold(line: TermLine)
    ensures LineIsTold(line, Kept(line))
  {
    hide Cut16;
    assert Cut16("") == "" by { NothingToCut(); }
  }

  lemma NothingToCut()
    ensures Cut16("") == ""
  {
  }

  // ----- the bytes of a line

  function EncHead(line: TermLine): seq<byte> {
    FlagsFit(Flags(line));
    [line.tone, line.gutterTone, line.band, FlagByte(Flags(line))]
  }

  function EncSizes(line: TermLine): seq<byte> {
    Le(Min(line.indent, U16_MAX), 2) + Le(Min(line.columns, U16_MAX), 2)
  }

  function EncRun(r: Run): seq<byte> {
    Le(r.start, 4) + Le(r.len, 4) + [r.intent]
  }

  function EncRuns(line: TermLine): seq<byte> {
    Le(|KeptRuns(line)|, 2) + EncAll(EncRun, KeptRuns(line))
  }

  function EncElapsed(since: Option<u64>): seq<byte> {
    if since.Some? then Le(since.value, 8) else []
  }

  function EncImageIds(image: ImageBox): seq<byte> {
    EncStr16(image.toolUseId) + Le(TwosComplement64(image.sourceSeq), 8) + Le(TwosComplement64(image.partIndex), 8)
    + EncStr16(image.mediaType) + Le(TwosComplement64(image.bytes), 8)
  }

  function EncImageTexts(image: ImageBox): seq<byte> {
    Le(Min(image.lines, U16_MAX), 2) + EncStr16(image.name) + EncStr16(image.placeholder)
    + EncStr16(if image.hostPath.Some? then image.hostPath.value else "")
  }

  function EncImage(image: Option<ImageBox>): seq<byte> {
    if image.Some? then EncImageIds(image.value) + EncImageTexts(image.value) else []
  }

  function EncLine(line: TermLine): seq<byte> {
    EncHead(line) + EncSizes(line) + EncStr16(line.gutter) + EncStr32(line.text) + EncRuns(line)
    + EncElapsed(line.elapsedSince) + EncImage(line.image)
  }

  // ----- the writer

  lemma Chain<T>(a: seq<T>, b: seq<T>, c: seq<T>)
    ensures a + b + c == a + (b + c)
  {
  }

  method WriteImage(out: ByteWriter, image: ImageBox)
    modifies out
    ensures out.bytes == old(out.bytes) + EncImage(Some(image))
  {
    hide Le, EncStr16;
    ghost var start := out.bytes;
    out.Str16(image.toolUseId);
    out.Word(TwosComplement64(image.sourceSeq), 8);
    out.Word(TwosComplement64(image.partIndex), 8);
    out.Str16(image.mediaType);
    out.Word(TwosComplement64(image.bytes), 8);
    assert out.bytes == start + EncImageIds(image);
    ghost var middle := out.bytes;
    out.Word(Min(image.lines, U16_MAX), 2);
    out.Str16(image.name);
    out.Str16(image.placeholder);
    out.Str16(if image.hostPath.Some? then image.hostPath.value else "");
    assert out.bytes == middle + EncImageTexts(image);
    Chain(start, EncImageIds(image), EncImageTexts(image));
  }

  method WriteRuns(out: ByteWriter, runs: seq<Run>)
    modifies out
    ensures out.bytes == old(out.bytes) + EncAll(EncRun, runs)
  {
    hide Le;
    ghost var start := out.bytes;
    for i := 0 to |runs|
      invariant out.bytes == start + EncAll(EncRun, runs[..i])
    {
      out.Word(runs[i].start, 4);
      out.Word(runs[i].len, 4);
      out.bytes := out.bytes + [runs[i].intent];
      OneMore(EncRun, runs, i);
      Chain(start, EncAll(EncRun, runs[..i]), EncRun(runs[i]));
    }
    assert runs[..|runs|] == runs;
  }

  method WriteLine(out: ByteWriter, line: TermLine)
    modifies out
    ensures out.bytes == old(out.bytes) + EncLine(line)
  {
    hide Le, EncStr16, EncStr32, EncAll, FlagByte, EncImageIds, EncImageTexts, Flags, KeptRuns;
    ghost var start := out.bytes;
    FlagsFit(Flags(line));
    out.bytes := out.bytes + [line.tone, line.gutterTone, line.band, FlagByte(Flags(line))];
    assert out.bytes == start + EncHead(line);
    out.Word(Min(line.indent, U16_MAX), 2);
    out.Word(Min(line.columns, U16_MAX), 2);
    assert out.bytes == start + (EncHead(line) + EncSizes(line));
    out.Str16(line.gutter);
    out.Str32(line.text);
    ghost var done := EncHead(line) + EncSizes(line) + EncStr16(line.gutter) + EncStr32(line.text);
    assert out.bytes == start + done;
    var runs := KeptRuns(line);
    out.Word(|runs|, 2);
    WriteRuns(out, runs);
    assert out.bytes == start + (done + EncRuns(line));
    done := done + EncRuns(line);
    hide EncRuns, EncHead, EncSizes;
    if line.elapsedSince.Some? {
      out.Word(line.elapsedSince.value, 8);
    }
    assert out.bytes == start + (done + EncElapsed(line.elapsedSince));
    done := done + EncElapsed(line.elapsedSince);
    if line.image.Some? {
      WriteImage(out, line.image.value);
    }
    assert out.bytes == start + (done + EncImage(line.image));
  }

  // ----- the reader of a line

  function ReadRun(b: seq<byte>, at: nat): Parsed<Run> {
    var (start, a1) :- ReadLe(b, at, 4);
    var (len, a2) :- ReadLe(b, a1, 4);
    if a2 < |b| then Parsed(Run(start, len, b[a2]), a2 + 1) else Refused
  }

  function ReadImage(b: seq<byte>, at: nat): Parsed<WireImage> {
    var (toolUseId, a1) :- ReadStr(b, at, 2);
    var (sourceSeq, a2) :- ReadI64(b, a1);
    var (partIndex, a3) :- ReadI64(b, a2);
    var (mediaType, a4) :- ReadStr(b, a3, 2);
    var (bytes, a5) :- ReadI64(b, a4);
    var (lines, a6) :- ReadLe(b, a5, 2);
    var (name, a7) :- ReadStr(b, a6, 2);
    var (placeholder, a8) :- ReadStr(b, a7, 2);
    var (hostPath, a9) :- ReadStr(b, a8, 2);
    Parsed(WireImage(toolUseId, sourceSeq, partIndex, mediaType, bytes, lines, name, placeholder, hostPath), a9)
  }

  /** Bit 7 alone says whether an elapsed block follows the runs. */
  function ReadElapsed(b: seq<byte>, at: nat, flags: seq<bool>): Parsed<Option<nat>>
    requires |flags| == 8
  {
    if flags[7] then
      var (since, next) :- ReadLe(b, at, 8);
      Parsed(Some(since), next)
    else
      Parsed(None, at)
  }

  /** Bit 6 alone says whether an image block follows. */
  function ReadImageBlock(b: seq<byte>, at: nat, flags: seq<bool>): Parsed<Option<WireImage>>
    requires |flags| == 8
  {
    if flags[6] then
      var (image, next) :- ReadImage(b, at);
      Parsed(Some(image), next)
    else
      Parsed(None, at)
  }

  function ReadLine(b: seq<byte>, at: nat): Parsed<WireLine> {
    if at + 4 > |b| then Refused else
    var flags := Bits(b[at + 3], 8);
    var (indent, a1) :- ReadLe(b, at + 4, 2);
    var (columns, a2) :- ReadLe(b, a1, 2);
    var (gutter, a3) :- ReadStr(b, a2, 2);
    var (text, a4) :- ReadStr(b, a3, 4);
    var (n, a5) :- ReadLe(b, a4, 2);
    var (runs, a6) :- ReadAll(ReadRun, b, a5, n);
    var (since, a7) :- ReadElapsed(b, a6, flags);
    var (image, a8) :- ReadImageBlock(b, a7, flags);
    Parsed(WireLine(b[at], b[at + 1], b[at + 2], flags, indent, columns, gutter, text, runs, since, image), a8)
  }

  // ----- the reader undoes the writer

  lemma RunAt(b: seq<byte>, at: nat, r: Run)
    requires HasAt(b, at, EncRun(r))
    ensures ReadRun(b, at) == Parsed(KeptRun(r), at + |EncRun(r)|)
  {
    hide Le, ReadLe, FromLe, Words;
    WordsAre();
    HasParts(b, at, Le(r.start, 4) + Le(r.len, 4), [r.intent]);
    HasParts(b, at, Le(r.start, 4), Le(r.len, 4));
    TruncatedWordAt(b, at, r.start, 4);
    TruncatedWordAt(b, at + 4, r.len, 4);
    assert b[at + 8..at + 9][0] == b[at + 8];
  }

  ghost function RunCodec(): (c: Codec<Run, Run>) {
    Codec(EncRun, ReadRun, KeptRun, _ => true)
  }

  lemma RunsAt(b: seq<byte>, at: nat, runs: seq<Run>)
    requires HasAt(b, at, EncAll(EncRun, runs))
    ensures ReadAll(ReadRun, b, at, |runs|) == Parsed(KeepAll(KeptRun, runs), at + |EncAll(EncRun, runs)|)
  {
    hide HasAt, EncRun, ReadRun, KeptRun, EncAll, ReadAll, KeepAll;
    var c := RunCodec();
    forall r, b, at | HasAt(b, at, c.enc(r))
      ensures ReadsBack(c, r, b, at)
    {
      RunAt(b, at, r);
    }
    ListReadsBack(c, runs, b, at);
  }

  lemma ImageAt(b: seq<byte>, at: nat, image: ImageBox)
    requires HasAt(b, at, EncImageIds(image) + EncImageTexts(image))
    ensures ReadImage(b, at) == Parsed(KeptImage(image), at + |EncImageIds(image) + EncImageTexts(image)|)
  {
    hide Le, ReadLe, FromLe, Words, HasAt, EncStr16, ReadStr, ReadI64, Cut16;
    var ids, texts := EncImageIds(image), EncImageTexts(image);
    HasParts(b, at, ids, texts);
    var s1, s2, s3 := EncStr16(image.toolUseId), Le(TwosComplement64(image.sourceSeq), 8), Le(TwosComplement64(image.partIndex), 8);
    var s4, s5 := EncStr16(image.mediaType), Le(TwosComplement64(image.bytes), 8);
    HasParts(b, at, s1 + s2 + s3 + s4, s5);
    HasParts(b, at, s1 + s2 + s3, s4);
    HasParts(b, at, s1 + s2, s3);
    HasParts(b, at, s1, s2);
    Str16At(b, at, image.toolUseId);
    I64At(b, at + |s1|, image.sourceSeq);
    I64At(b, at + |s1| + 8, image.partIndex);
    Str16At(b, at + |s1| + 16, image.mediaType);
    I64At(b, at + |s1| + 16 + |s4|, image.bytes);
    var hostPath := if image.hostPath.Some? then image.hostPath.value else "";
    var a := at + |ids|;
    var t1, t2, t3, t4 := Le(Min(image.lines, U16_MAX), 2), EncStr16(image.name), EncStr16(image.placeholder), EncStr16(hostPath);
    HasParts(b, a, t1 + t2 + t3, t4);
    HasParts(b, a, t1 + t2, t3);
    HasParts(b, a, t1, t2);
    WordsAre();
    WordAt(b, a, Min(image.lines, U16_MAX), 2);
    Str16At(b, a + 2, image.name);
    Str16At(b, a + 2 + |t2|, image.placeholder);
    Str16At(b, a + 2 + |t2| + |t3|, hostPath);
  }

  /** The five blocks in front of the optional ones. */
  function EncFixed(line: TermLine): seq<byte> {
    EncHead(line) + EncSizes(line) + EncStr16(line.gutter)
  }

  lemma HeadAt(b: seq<byte>, at: nat, line: TermLine)
    requires HasAt(b, at, EncHead(line))
    ensures at + 4 <= |b| && b[at] == line.tone && b[at + 1] == line.gutterTone && b[at + 2] == line.band
    ensures Bits(b[at + 3], 8) == Flags(line)
  {
    var head := b[at..at + 4];
    FlagsInvert(Flags(line));
    hide FlagByte, Bits, Flags;
    assert b[at] == head[0] && b[at + 1] == head[1] && b[at + 2] == head[2] && b[at + 3] == head[3];
  }

  lemma FixedAt(b: seq<byte>, at: nat, line: TermLine)
    requires HasAt(b, at, EncFixed(line))
    ensures at + 4 <= |b| && b[at] == line.tone && b[at + 1] == line.gutterTone && b[at + 2] == line.band
    ensures Bits(b[at + 3], 8) == Flags(line)
    ensures ReadLe(b, at + 4, 2) == Parsed(Min(line.indent, U16_MAX), at + 6)
    ensures ReadLe(b, at + 6, 2) == Parsed(Min(line.columns, U16_MAX), at + 8)
    ensures ReadStr(b, at + 8, 2) == Parsed(Cut16(line.gutter), at + |EncFixed(line)|)
  {
    hide Le, ReadLe, FromLe, Words, HasAt, EncStr16, ReadStr, Cut16, EncHead, Flags, Bits;
    assert |EncHead(line)| == 4 by { HeadLength(line); }
    HasParts(b, at, EncHead(line) + EncSizes(line), EncStr16(line.gutter));
    HasParts(b, at, EncHead(line), EncSizes(line));
    HasParts(b, at + 4, Le(Min(line.indent, U16_MAX), 2), Le(Min(line.columns, U16_MAX), 2));
    HeadAt(b, at, line);
    WordsAre();
    WordAt(b, at + 4, Min(line.indent, U16_MAX), 2);
    WordAt(b, at + 6, Min(line.columns, U16_MAX), 2);
    Str16At(b, at + 8, line.gutter);
  }

  lemma HeadLength(line: TermLine)
    ensures |EncHead(line)| == 4
  {
  }

  lemma ElapsedAt(b: seq<byte>, at: nat, since: Option<u64>, flags: seq<bool>)
    requires |flags| == 8 && flags[7] == since.Some? && HasAt(b, at, EncElapsed(since))
    ensures ReadElapsed(b, at, flags)
         == Parsed(if since.Some? then Some(since.value) else None, at + |EncElapsed(since)|)
  {
    hide Le, ReadLe, FromLe, Words;
    WordsAre();
    if since.Some? {
      WordAt(b, at, since.value, 8);
    }
  }

  lemma ImageBlockAt(b: seq<byte>, at: nat, image: Option<ImageBox>, flags: seq<bool>)
    requires |flags| == 8 && flags[6] == image.Some? && HasAt(b, at, EncImage(image))
    ensures ReadImageBlock(b, at, flags)
         == Parsed(if image.Some? then Some(KeptImage(image.value)) else None, at + |EncImage(image)|)
  {
    hide EncImageIds, EncImageTexts, ReadImage, KeptImage, HasAt;
    if image.Some? {
      ImageAt(b, at, image.value);
    }
  }

  lemma RunBlockAt(b: seq<byte>, at: nat, line: TermLine)
    requires HasAt(b, at, EncRuns(line))
    ensures ReadLe(b, at, 2) == Parsed(|KeptRuns(line)|, at + 2)
    ensures ReadAll(ReadRun, b, at + 2, |KeptRuns(line)|) == Parsed(KeepAll(KeptRun, KeptRuns(line)), at + |EncRuns(line)|)
  {
    hide Le, ReadLe, FromLe, Words, EncAll, ReadAll, HasAt, KeepAll;
    HasParts(b, at, Le(|KeptRuns(line)|, 2), EncAll(EncRun, KeptRuns(line)));
    WordsAre();
    WordAt(b, at, |KeptRuns(line)|, 2);
    RunsAt(b, at + 2, KeptRuns(line));
  }

  /** The blocks behind the text. */
  lemma TailAt(b: seq<byte>, at: nat, line: TermLine)
    requires HasAt(b, at, EncRuns(line) + EncElapsed(line.elapsedSince) + EncImage(line.image))
    ensures ReadLe(b, at, 2) == Parsed(|KeptRuns(line)|, at + 2)
    ensures ReadAll(ReadRun, b, at + 2, |KeptRuns(line)|) == Parsed(Kept(line).runs, at + |EncRuns(line)|)
    ensures ReadElapsed(b, at + |EncRuns(line)|, Flags(line))
         == Parsed(Kept(line).elapsedSince, at + |EncRuns(line)| + |EncElapsed(line.elapsedSince)|)
    ensures ReadImageBlock(b, at + |EncRuns(line)| + |EncElapsed(line.elapsedSince)|, Flags(line))
         == Parsed(Kept(line).image,
                   at + |EncRuns(line)| + |EncElapsed(line.elapsedSince)| + |EncImage(line.image)|)
  {
    hide HasAt, EncRuns, EncElapsed, EncImage, ReadLe, ReadAll, ReadElapsed, ReadImageBlock, KeptRuns, KeptImage, KeepAll;
    var runs, since, image := EncRuns(line), EncElapsed(line.elapsedSince), EncImage(line.image);
    HasParts(b, at, runs + since, image);
    HasParts(b, at, runs, since);
    RunBlockAt(b, at, line);
    ElapsedAt(b, at + |runs|, line.elapsedSince, Flags(line));
    ImageBlockAt(b, at + |runs| + |since|, line.image, Flags(line));
  }

  /** Whether the text of a line is short enough for its length to be told. */
  predicate TextFits(line: TermLine) {
    |Encode(line.text)| < 0x1_0000_0000
  }

  lemma {:induction false} LineParts(b: seq<byte>, at: nat, line: TermLine)
    requires HasAt(b, at, EncLine(line))
    ensures var fixed, text := EncFixed(line), EncStr32(line.text);
            var tail := EncRuns(line) + EncElapsed(line.elapsedSince) + EncImage(line.image);
            && HasAt(b, at, fixed) && HasAt(b, at + |fixed|, text) && HasAt(b, at + |fixed| + |text|, tail)
            && |EncLine(line)| == |fixed| + |text| + |tail|
  {
    hide EncHead, EncSizes, EncStr16, EncStr32, EncRuns, EncElapsed, EncImage, HasAt;
    var fixed, text := EncFixed(line), EncStr32(line.text);
    var runs, since, image := EncRuns(line), EncElapsed(line.elapsedSince), EncImage(line.image);
    assert EncLine(line) == fixed + text + (runs + since + image);
    HasParts(b, at, fixed + text, runs + since + image);
    HasParts(b, at, fixed, text);
  }

  ghost function LineCodec(): Codec<TermLine, WireLine> {
    Codec(EncLine, ReadLine, Kept, TextFits)
  }

  /** A written line reads back as what was kept of it, and the reader stops exactly where the writer did, exactly when
      its text takes fewer than 2^32 bytes; then every field is told. */
  lemma LineReadsBackIff(b: seq<byte>, at: nat, line: TermLine)
    requires HasAt(b, at, EncLine(line))
    ensures ReadLine(b, at) == Parsed(Kept(line), at + |EncLine(line)|) <==> |Encode(line.text)| < 0x1_0000_0000
    ensures |Encode(line.text)| < 0x1_0000_0000 ==> ReadLine(b, at).Parsed? && LineIsTold(line, ReadLine(b, at).value)
    ensures ReadsBack(LineCodec(), line, b, at)
  {
    KeptIsTold(line);
    hide LineIsTold;
    hide Le, ReadLe, FromLe, HasAt, EncStr16, EncStr32, EncRuns, EncElapsed, EncImage, ReadStr, ReadAll, Encode, EncFixed, EncLine;
    hide ReadElapsed, ReadImageBlock, Bits, Flags, KeptRuns;
    LineParts(b, at, line);
    FixedAt(b, at, line);
    if TextFits(line) {
      Str32At(b, at + |EncFixed(line)|, line.text);
      TailAt(b, at + |EncFixed(line)| + |EncStr32(line.text)|, line);
    } else {
      LongStr32IsLost(b, at + |EncFixed(line)|, line.text);
    }
  }

  lemma LineCodecIsFaithful()
    ensures Faithful(LineCodec())
  {
    hide HasAt, EncLine, ReadLine, Kept, TextFits;
    var c := LineCodec();
    forall line, b, at | HasAt(b, at, c.enc(line))
      ensures ReadsBack(c, line, b, at)
    {
      LineReadsBackIff(b, at, line);
    }
  }
}
