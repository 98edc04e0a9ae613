/** The glob compiler of `apps/vscode/src/glob.ts`. It emits the syntax tree of the regular expression whose source text
    the code concatenates, but for character classes, which stay text as the engine has its own reading of them.
    Characters are UTF-16 code units and `char` has none of the surrogates, so only the basic multilingual plane is
    covered. */
module Glob {
  import opened Options
  import opened Regex

  // ----- strings

  /** `indexOf` of one character. */
  function Find(s: string, c: char): (r: int)
    ensures -1 <= r < |s|
    ensures r >= 0 ==> s[r] == c && c !in s[..r]
    ensures r < 0 ==> c !in s
  {
    if s == "" then -1
    else if s[0] == c then 0
    else
      var rest := Find(s[1..], c);
      assert s == [s[0]] + s[1..];
      assert rest >= 0 ==> s[..rest + 1] == [s[0]] + s[1..][..rest];
      if rest < 0 then -1 else rest + 1
  }

  /** `split` on one character. */
  function SplitOn(s: string, sep: char): (r: seq<string>)
    ensures r != [] && forall i :: 0 <= i < |r| ==> |r[i]| <= |s|
  {
    if s == "" then
      [""]
    else
      var rest := SplitOn(s[1..], sep);
      if s[0] == sep then [""] + rest else [[s[0]] + rest[0]] + rest[1..]
  }

  function Trimmed(glob: string): string {
    DropTrailingSlashes(if "./" <= glob then glob[2..] else glob)
  }

  function DropTrailingSlashes(s: string): string {
    if s != "" && s[|s| - 1] == '/' then DropTrailingSlashes(s[..|s| - 1]) else s
  }

  function Slashes(n: nat): string {
    seq(n, _ => '/')
  }

  lemma {:induction false} SlashesDrop(body: string, n: nat)
    requires body != "" ==> body[|body| - 1] != '/'
    ensures DropTrailingSlashes(body + Slashes(n)) == body
    decreases n
  {
    if n == 0 {
      assert body + Slashes(0) == body;
    } else {
      SlashesDrop(body, n - 1);
      assert (body + Slashes(n))[..|body| + n - 1] == body + Slashes(n - 1);
    }
  }

  /** Trimming takes off one leading `./` and every trailing slash, and nothing else. */
  lemma TrimTakesOff(body: string, n: nat)
    requires body != "" ==> body[|body| - 1] != '/'
    ensures Trimmed("./" + body + Slashes(n)) == body
    ensures !("./" <= body + Slashes(n)) ==> Trimmed(body + Slashes(n)) == body
  {
    SlashesDrop(body, n);
    assert ("./" + body + Slashes(n))[2..] == body + Slashes(n);
  }

  function DropStars(s: string): (r: string)
    ensures |r| <= |s|
  {
    if s != "" && s[0] == '*' then DropStars(s[1..]) else s
  }

  // ----- segments

  function DepthAfter(depth: nat, c: char): nat {
    if c == '{' || c == '[' then depth + 1
    else if (c == '}' || c == ']') && depth > 0 then depth - 1
    else depth
  }

  /** The segments of `glob` from a place that is `depth` brackets deep: slashes inside brackets do not split. */
  function Segments(glob: string, depth: nat): (r: seq<string>)
    ensures r != [] && forall i :: 0 <= i < |r| ==> |r[i]| <= |glob|
  {
    if glob == "" then
      [""]
    else
      var next := DepthAfter(depth, glob[0]);
      var rest := Segments(glob[1..], next);
      if glob[0] == '/' && next == 0 then [""] + rest else [[glob[0]] + rest[0]] + rest[1..]
  }

  /** Two lists of segments end to end, the last of the first running on into the first of the second. */
  function Glue(a: seq<string>, b: seq<string>): (r: seq<string>)
    requires a != [] && b != []
    ensures r != []
  {
    a[..|a| - 1] + [a[|a| - 1] + b[0]] + b[1..]
  }

  lemma GlueNothing(b: seq<string>)
    requires b != []
    ensures Glue([""], b) == b
  {
    assert "" + b[0] == b[0];
  }

  lemma GlueNewSegment(a: seq<string>, b: seq<string>)
    requires a != [] && b != []
    ensures Glue(a + [""], b) == Glue(a, [""] + b)
  {
    var n := |a|;
    assert (a + [""])[..n] == a && a == a[..n - 1] + [a[n - 1]];
    assert "" + b[0] == b[0] && a[n - 1] + "" == a[n - 1] && b == [b[0]] + b[1..];
  }

  lemma GlueCharacter(a: seq<string>, c: char, b: seq<string>)
    requires a != [] && b != []
    ensures Glue(a[|a| - 1 := a[|a| - 1] + [c]], b) == Glue(a, [[c] + b[0]] + b[1..])
  {
    var last := a[|a| - 1];
    assert last + [c] + b[0] == last + ([c] + b[0]);
  }

  lemma GlueEnd(a: seq<string>)
    requires a != []
    ensures Glue(a, [""]) == a
  {
    assert a[|a| - 1] + "" == a[|a| - 1];
  }

  method SplitSegments(glob: string) returns (segments: seq<string>)
    ensures segments == Segments(glob, 0)
  {
    segments := [""];
    var depth: nat := 0;
    GlueNothing(Segments(glob, 0));
    assert glob[0..] == glob;
    for i := 0 to |glob|
      invariant segments != []
      invariant Glue(segments, Segments(glob[i..], depth)) == Segments(glob, 0)
    {
      var c := glob[i];
      ghost var rest := glob[i..];
      assert rest[0] == c && rest[1..] == glob[i + 1..];
      if c == '{' || c == '[' {
        depth := depth + 1;
      } else if (c == '}' || c == ']') && depth > 0 {
        depth := depth - 1;
      }
      ghost var tail := Segments(glob[i + 1..], depth);
      ghost var before := segments;
      if c == '/' && depth == 0 {
        segments := segments + [""];
        GlueNewSegment(before, tail);
      } else {
        segments := segments[|segments| - 1 := segments[|segments| - 1] + [c]];
        GlueCharacter(before, c, tail);
      }
    }
    GlueEnd(segments);
  }

  // ----- the expression

  function Literal(c: char): Re {
    One(Exactly(c))
  }

  const SOME_NON_SLASHES: Re := Cat(One(NotSlash), NO_SLASHES)

  /** What `**` compiles to: any number of slashes and of segments with a slash behind, and, when it is last, of
      segments with a slash in front. */
  function Globstar(last: bool): Re {
    var behind := Cat(SOME_NON_SLASHES, Literal('/'));
    Star(Alt(Literal('/'), if last then Alt(behind, Cat(Literal('/'), SOME_NON_SLASHES)) else behind))
  }

  /** A backslash in front of every backslash and closing bracket. */
  function Escaped(s: string): string {
    if s == "" then "" else (if s[0] == '\\' || s[0] == ']' then ['\\', s[0]] else [s[0]]) + Escaped(s[1..])
  }

  /** The engine reads an escaped text as the text, whatever unescaped character stands in front. */
  lemma {:induction false} EscapedIsRead(s: string)
    ensures Atoms(Escaped(s)) == s && Atoms("/" + Escaped(s)) == "/" + s
  {
    assert ("/" + Escaped(s))[1..] == Escaped(s);
    if s != "" {
      EscapedIsRead(s[1..]);
      assert s == [s[0]] + s[1..];
      if s[0] == '\\' || s[0] == ']' {
        assert Escaped(s)[2..] == Escaped(s[1..]);
      } else {
        assert Escaped(s)[1..] == Escaped(s[1..]);
      }
    }
  }

  predicate Negated(body: string) {
    body != "" && (body[0] == '!' || body[0] == '^')
  }

  /** The text a class compiles to: a negated one has a slash put in front. */
  function ClassSet(body: string): CharSet {
    if Negated(body) then Class(true, "/" + Escaped(body[1..])) else Class(false, Escaped(body))
  }

  /** The pieces a segment compiles to. */
  function SegmentParts(segment: string): seq<Re>
    decreases |segment|, 0, 0
  {
    if segment == "" then
      []
    else
      var c, rest := segment[0], segment[1..];
      if c == '*' then
        [NO_SLASHES] + SegmentParts(DropStars(rest))
      else if c == '?' then
        [One(NotSlash)] + SegmentParts(rest)
      else if c == '{' && Find(rest, '}') >= 0 then
        var close := Find(rest, '}');
        [AltAll(Alternatives(SplitOn(rest[..close], ','), close))] + SegmentParts(rest[close + 1..])
      else if c == '[' && Find(rest, ']') >= 0 then
        var close := Find(rest, ']');
        [One(ClassSet(rest[..close]))] + SegmentParts(rest[close + 1..])
      else
        [Literal(c)] + SegmentParts(rest)
  }

  function Alternatives(options: seq<string>, bound: nat): (r: seq<Re>)
    requires forall i :: 0 <= i < |options| ==> |options[i]| <= bound
    ensures |r| == |options| && forall i :: 0 <= i < |r| ==> r[i] == CatAll(GlobParts(options[i]))
    decreases bound, 3, |options|
  {
    if options == [] then [] else [CatAll(GlobParts(options[0]))] + Alternatives(options[1..], bound)
  }

  function GlobParts(glob: string): seq<Re>
    decreases |glob|, 2, 0
  {
    SourceParts(Segments(glob, 0), false, |glob|)
  }

  function Separated(segments: seq<string>): bool
    requires segments != []
  {
    |segments| > 1 && (segments[1] != "**" || |segments| > 2)
  }

  /** The pieces the segments compile to, `afterGlobstar` telling whether a `**` came right before them. */
  function SourceParts(segments: seq<string>, afterGlobstar: bool, bound: nat): seq<Re>
    requires forall i :: 0 <= i < |segments| ==> |segments[i]| <= bound
    decreases bound, 1, |segments|
  {
    if segments == [] then
      []
    else if segments[0] == "**" then
      (if afterGlobstar then [] else [Globstar(|segments| == 1)]) + SourceParts(segments[1..], true, bound)
    else
      SegmentParts(segments[0]) + (if Separated(segments) then [Literal('/')] else [])
      + SourceParts(segments[1..], false, bound)
  }

  method CompileOptions(options: seq<string>, ghost bound: nat) returns (compiled: seq<Re>)
    requires forall i :: 0 <= i < |options| ==> |options[i]| <= bound
    ensures compiled == Alternatives(options, bound)
    decreases bound, 3
  {
    compiled := [];
    for k := 0 to |options|
      invariant |compiled| == k
      invariant forall j :: 0 <= j < k ==> compiled[j] == CatAll(GlobParts(options[j]))
    {
      var source := GlobSource(options[k]);
      compiled := compiled + [CatAll(source)];
    }
  }

  lemma StarParts(segment: string, from: nat, i: nat)
    requires from <= i < |segment| && forall j :: from <= j <= i ==> segment[j] == '*'
    requires i + 1 < |segment| ==> segment[i + 1] != '*'
    ensures SegmentParts(segment[from..]) == [NO_SLASHES] + SegmentParts(segment[i + 1..])
  {
    var rest := segment[from..][1..];
    assert rest == segment[from + 1..];
    DropsTo(segment, from + 1, i + 1);
  }

  lemma {:induction false} DropsTo(s: string, a: nat, b: nat)
    requires a <= b <= |s| && forall j :: a <= j < b ==> s[j] == '*'
    requires b < |s| ==> s[b] != '*'
    ensures DropStars(s[a..]) == s[b..]
    decreases b - a
  {
    if a < b {
      assert s[a..][1..] == s[a + 1..];
      DropsTo(s, a + 1, b);
    }
  }

  lemma {:induction false} OneCharacterParts(segment: string, at: nat)
    requires at < |segment|
    ensures var c, rest := segment[at], segment[at + 1..];
            && (c == '?' ==> SegmentParts(segment[at..]) == [One(NotSlash)] + SegmentParts(rest))
            && (c !in "*?{[" || (c == '{' && Find(rest, '}') < 0) || (c == '[' && Find(rest, ']') < 0) ==>
                  SegmentParts(segment[at..]) == [Literal(c)] + SegmentParts(rest))
  {
    assert segment[at..][0] == segment[at] && segment[at..][1..] == segment[at + 1..];
  }

  lemma BraceParts(segment: string, at: nat, close: nat)
    requires at < |segment| && segment[at] == '{' && Find(segment[at + 1..], '}') == close
    ensures SegmentParts(segment[at..])
         == [AltAll(Alternatives(SplitOn(segment[at + 1..][..close], ','), close))] + SegmentParts(segment[at + close + 2..])
  {
    hide Find, SplitOn, Alternatives, AltAll;
    var rest := segment[at + 1..];
    assert segment[at..][0] == '{' && segment[at..][1..] == rest;
    assert rest[close + 1..] == segment[at + close + 2..];
  }

  lemma ClassParts(segment: string, at: nat, close: nat)
    requires at < |segment| && segment[at] == '[' && Find(segment[at + 1..], ']') == close
    ensures SegmentParts(segment[at..])
         == [One(ClassSet(segment[at + 1..][..close]))] + SegmentParts(segment[at + close + 2..])
  {
    hide Find, SplitOn, Alternatives, AltAll;
    var rest := segment[at + 1..];
    assert segment[at..][0] == '[' && segment[at..][1..] == rest;
    assert rest[close + 1..] == segment[at + close + 2..];
  }

  /** One turn of the loop over a segment: the piece that starts at `at`, and where the next one starts. */
  method CompilePart(segment: string, at: nat) returns (part: Re, next: nat)
    requires at < |segment|
    ensures at < next <= |segment|
    ensures SegmentParts(segment[at..]) == [part] + SegmentParts(segment[next..])
    decreases |segment|, 0
  {
    hide SegmentParts, Alternatives, SplitOn, AltAll, ClassSet;
    OneCharacterParts(segment, at);
    var i := at;
    var c, rest := segment[i], segment[i + 1..];
    if c == '*' {
      while i + 1 < |segment| && segment[i + 1] == '*'
        invariant at <= i < |segment| && forall j :: at <= j <= i ==> segment[j] == '*'
      {
        i := i + 1;
      }
      StarParts(segment, at, i);
      return NO_SLASHES, i + 1;
    }
    if c == '?' {
      return One(NotSlash), i + 1;
    }
    if c == '{' {
      var close := Find(rest, '}');
      if close < 0 {
        return Literal('{'), i + 1;
      }
      BraceParts(segment, at, close);
      var compiled := CompileOptions(SplitOn(rest[..close], ','), close);
      return AltAll(compiled), i + close + 2;
    }
    if c == '[' {
      var close := Find(rest, ']');
      if close < 0 {
        return Literal('['), i + 1;
      }
      ClassParts(segment, at, close);
      return One(ClassSet(rest[..close])), i + close + 2;
    }
    return Literal(c), i + 1;
  }

  method SegmentToRegExp(segment: string) returns (out: seq<Re>)
    ensures out == SegmentParts(segment)
    decreases |segment|, 1
  {
    out := [];
    assert segment[0..] == segment;
    hide SegmentParts;
    var i: nat := 0;
    while i < |segment|
      invariant i <= |segment|
      invariant out + SegmentParts(segment[i..]) == SegmentParts(segment)
    {
      var part, next := CompilePart(segment, i);
      Reassociate(out, [part], SegmentParts(segment[next..]));
      out := out + [part];
      i := next;
    }
    NoParts(segment);
  }

  lemma NoParts(segment: string)
    ensures SegmentParts(segment[|segment|..]) == []
  {
  }

  lemma Reassociate<T>(a: seq<T>, b: seq<T>, c: seq<T>)
    ensures a + (b + c) == a + b + c
  {
  }

  method GlobSource(glob: string) returns (source: seq<Re>)
    ensures source == GlobParts(glob)
    decreases |glob|, 2
  {
    var segments := SplitSegments(glob);
    source := [];
    var afterGlobstar := false;
    assert segments[0..] == segments;
    for index := 0 to |segments|
      invariant source + SourceParts(segments[index..], afterGlobstar, |glob|) == GlobParts(glob)
    {
      var segment := segments[index];
      var last := index == |segments| - 1;
      ghost var left, more := segments[index..], segments[index + 1..];
      assert left[0] == segment && left[1..] == more;
      assert !last ==> left[1] == segments[index + 1];
      if segment == "**" {
        var part := if afterGlobstar then [] else [Globstar(last)];
        assert SourceParts(left, afterGlobstar, |glob|) == part + SourceParts(more, true, |glob|);
        Reassociate(source, part, SourceParts(more, true, |glob|));
        source := source + part;
        afterGlobstar := true;
        continue;
      }
      var compiled := SegmentToRegExp(segment);
      var slash := if !last && (segments[index + 1] != "**" || index + 2 < |segments|) then [Literal('/')] else [];
      assert SourceParts(left, afterGlobstar, |glob|) == compiled + slash + SourceParts(more, false, |glob|);
      Reassociate(source, compiled + slash, SourceParts(more, false, |glob|));
      Reassociate(source, compiled, slash);
      afterGlobstar := false;
      source := source + compiled + slash;
    }
  }

  /** The anchored expression of a glob; none where the engine refuses it, and the code throws. */
  function PatternOf(glob: string): Option<Re> {
    var pattern := CatAll(GlobParts(Trimmed(glob)));
    if Accepted(pattern) then Some(pattern) else None
  }

  method GlobToRegExp(glob: string) returns (pattern: Option<Re>)
    ensures pattern == PatternOf(glob)
  {
    var source := GlobSource(Trimmed(glob));
    pattern := if Accepted(CatAll(source)) then Some(CatAll(source)) else None;
  }
}
