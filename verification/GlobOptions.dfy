/** What a brace is worth: a glob with one in it matches exactly what the globs with one of its options in its place match,
    and the options are what stands between its commas. */
module GlobOptions {
  import opened Regex
  import opened Glob
  import opened GlobMeaning
  import opened GlobPaths
  import opened GlobSegments
  import opened GlobSplits
  import opened GlobCorrect
  import opened GlobBraces

  // ----- what stands between the commas

  function JoinOn(pieces: seq<string>, sep: char): string {
    if pieces == [] then ""
    else if |pieces| == 1 then pieces[0]
    else pieces[0] + ([sep] + JoinOn(pieces[1..], sep))
  }

  lemma {:induction false} JoinMore(x: string, pieces: seq<string>, sep: char)
    requires pieces != []
    ensures JoinOn([x + pieces[0]] + pieces[1..], sep) == x + JoinOn(pieces, sep)
    ensures JoinOn([""] + pieces, sep) == [sep] + JoinOn(pieces, sep)
  {
    var all := [x + pieces[0]] + pieces[1..];
    assert all[1..] == pieces[1..] && ([""] + pieces)[1..] == pieces;
    assert "" + ([sep] + JoinOn(pieces, sep)) == [sep] + JoinOn(pieces, sep);
    if |pieces| > 1 {
      assert (x + pieces[0]) + ([sep] + JoinOn(pieces[1..], sep)) == x + (pieces[0] + ([sep] + JoinOn(pieces[1..], sep)));
    }
  }

  /** Splitting loses nothing, and leaves no separator in a piece. */
  lemma {:induction false} SplitOnSplits(s: string, sep: char)
    ensures JoinOn(SplitOn(s, sep), sep) == s
    ensures forall k :: 0 <= k < |SplitOn(s, sep)| ==> sep !in SplitOn(s, sep)[k]
  {
    if s != "" {
      var rest := SplitOn(s[1..], sep);
      SplitOnSplits(s[1..], sep);
      JoinMore([s[0]], rest, sep);
      assert s == [s[0]] + s[1..];
    }
  }

  /** So pieces without a separator come back as they were joined. */
  lemma {:induction false} SplitOnFinds(pieces: seq<string>, sep: char)
    requires pieces != [] && forall k :: 0 <= k < |pieces| ==> sep !in pieces[k]
    ensures SplitOn(JoinOn(pieces, sep), sep) == pieces
  {
    if |pieces| == 1 {
      FirstPiece(pieces[0], "", sep);
      assert pieces[0] + "" == pieces[0];
    } else {
      SplitOnFinds(pieces[1..], sep);
      var more := [sep] + JoinOn(pieces[1..], sep);
      FirstPiece(pieces[0], more, sep);
      assert more[1..] == JoinOn(pieces[1..], sep);
      assert SplitOn(more, sep) == [""] + pieces[1..];
      assert pieces == [pieces[0]] + pieces[1..] && pieces[0] + "" == pieces[0];
    }
  }

  lemma {:induction false} FirstPiece(x: string, t: string, sep: char)
    requires sep !in x
    ensures SplitOn(x + t, sep) == [x + SplitOn(t, sep)[0]] + SplitOn(t, sep)[1..]
  {
    if x == "" {
      assert x + t == t && "" + SplitOn(t, sep)[0] == SplitOn(t, sep)[0];
    } else {
      assert x[0] in x && x == [x[0]] + x[1..] && (x + t)[1..] == x[1..] + t;
      FirstPiece(x[1..], t, sep);
      assert [x[0]] + (x[1..] + SplitOn(t, sep)[0]) == x + SplitOn(t, sep)[0];
    }
  }

  // ----- segments, cut

  /** The expression of a segment matches a string. */
  ghost predicate Seg(x: string, s: string) {
    Matches(CatAll(SegmentParts(x)), s)
  }

  lemma NothingSeg(s: string)
    ensures Seg("", s) <==> s == ""
  {
  }

  /** What the first piece of a segment compiles to, a star by itself. */
  function FirstRe(x: string): Re
    requires x != ""
  {
    if OpensBrace(x) then AltAll(Alternatives(OptionsOf(x), Find(x[1..], '}')))
    else if x[0] == '*' then NO_SLASHES
    else PieceOf(Front(x))
  }

  function More(x: string): (t: string)
    requires x != ""
    ensures |t| < |x|
  {
    if OpensBrace(x) then Behind(x) else Rest(x)
  }

  /** Stars in a row take no more than one star. */
  lemma {:induction false} StarsAreOne(t: string, s: string)
    ensures (exists j :: 0 <= j <= |s| && '/' !in s[..j] && Seg(t, s[j..]))
       <==> (exists j :: 0 <= j <= |s| && '/' !in s[..j] && Seg(DropStars(t), s[j..]))
    decreases |t|
  {
    if t != "" && t[0] == '*' {
      ScanStars(t);
      assert DropStars(t) == DropStars(t[1..]);
      hide Seg;
      if j :| 0 <= j <= |s| && '/' !in s[..j] && Seg(t, s[j..]) {
        var k := StarSplits(t, s[j..]);
        assert s[..j + k] == s[..j] + s[j..][..k] && s[j + k..] == s[j..][k..];
      }
      if j :| 0 <= j <= |s| && '/' !in s[..j] && Seg(DropStars(t), s[j..]) {
        assert s[j..][..0] == "" && s[j..][0..] == s[j..];
        StarJoins(t, s[j..], 0);
      }
    }
  }

  lemma StarSplits(t: string, s: string) returns (k: nat)
    requires t != "" && t[0] == '*' && Seg(t, s)
    ensures k <= |s| && '/' !in s[..k] && Seg(DropStars(t), s[k..])
  {
    ScanStars(t);
    OnePiece(NO_SLASHES, SegmentParts(DropStars(t[1..])), s);
    hide Matches;
    k :| 0 <= k <= |s| && Matches(NO_SLASHES, s[..k]) && Matches(CatAll(SegmentParts(DropStars(t[1..]))), s[k..]);
    RunOfNonSlashes(s[..k]);
  }

  lemma StarJoins(t: string, s: string, k: nat)
    requires t != "" && t[0] == '*' && k <= |s| && '/' !in s[..k] && Seg(DropStars(t), s[k..])
    ensures Seg(t, s)
  {
    ScanStars(t);
    RunOfNonSlashes(s[..k]);
    OnePiece(NO_SLASHES, SegmentParts(DropStars(t[1..])), s);
    hide Matches;
  }

  /** A segment matches by its first piece and the rest of it. */
  lemma {:induction false} SegStep(x: string, s: string)
    requires x != ""
    ensures Seg(x, s) <==> exists i :: 0 <= i <= |s| && Matches(FirstRe(x), s[..i]) && Seg(More(x), s[i..])
  {
    if OpensBrace(x) {
      ScanBrace(x);
      OnePiece(FirstRe(x), SegmentParts(Behind(x)), s);
    } else if x[0] == '*' {
      ScanStars(x);
      StarsAreOne(x[1..], s);
      assert FirstRe(x) == NO_SLASHES && More(x) == x[1..];
      hide Seg, Matches, More;
      forall j | 0 <= j <= |s|
        ensures Matches(NO_SLASHES, s[..j]) <==> '/' !in s[..j]
      {
        RunOfNonSlashes(s[..j]);
      }
      if Seg(x, s) {
        var k := StarSplits(x, s);
      }
      if j :| 0 <= j <= |s| && '/' !in s[..j] && Seg(DropStars(x), s[j..]) {
        StarJoins(x, s, j);
      }
    } else {
      ScanPiece(x);
      OnePiece(FirstRe(x), SegmentParts(Rest(x)), s);
    }
  }

  lemma {:induction false} FirstStays(p: string, y: string)
    requires p != "" && Contained(p)
    ensures p + y != "" && FirstRe(p + y) == FirstRe(p) && More(p + y) == More(p) + y && Contained(More(p))
  {
    ContainedIs(p);
    if OpensBrace(p) {
      BraceStays(p, y);
      BraceEnds(p, y);
    } else {
      PieceStays(p, y);
      assert (p + y)[0] == p[0];
    }
  }

  lemma {:induction false} BraceEnds(p: string, y: string)
    requires OpensBrace(p)
    ensures Find((p + y)[1..], '}') == Find(p[1..], '}')
  {
    assert (p + y)[1..] == p[1..] + y;
    FindInFront(p[1..], y, '}');
  }

  lemma CutOnce(s: string, i: nat, j: nat)
    requires i <= j <= |s|
    ensures s[..j][..i] == s[..i] && s[..j][i..] == s[i..][..j - i] && s[j..] == s[i..][j - i..]
  {
  }

  /** A segment that ends with all its brackets and braces closed can be cut off from what follows. */
  lemma {:induction false} SegCut(p: string, y: string, s: string)
    requires Contained(p)
    ensures Seg(p + y, s) <==> exists j :: 0 <= j <= |s| && Seg(p, s[..j]) && Seg(y, s[j..])
    decreases |p|
  {
    hide Seg, Matches, FirstRe, More, Contained;
    if p == "" {
      NothingFirst(y, s);
    } else {
      FirstStays(p, y);
      if Seg(p + y, s) {
        var j := SegSplits(p, y, s);
      }
      if j :| 0 <= j <= |s| && Seg(p, s[..j]) && Seg(y, s[j..]) {
        SegJoins(p, y, s, j);
      }
    }
  }

  lemma NothingFirst(y: string, s: string)
    ensures Seg("" + y, s) <==> exists j :: 0 <= j <= |s| && Seg("", s[..j]) && Seg(y, s[j..])
  {
    hide Seg;
    assert "" + y == y && s[..0] == "" && s[0..] == s;
    forall j | 0 <= j <= |s|
      ensures Seg("", s[..j]) <==> j == 0
    {
      NothingSeg(s[..j]);
    }
  }

  lemma {:induction false} SegSplits(p: string, y: string, s: string) returns (j: nat)
    requires p != "" && Contained(p) && Seg(p + y, s)
    ensures j <= |s| && Seg(p, s[..j]) && Seg(y, s[j..])
    decreases |p|, 0
  {
    hide Seg, Matches, FirstRe, More, Contained;
    FirstStays(p, y);
    SegStep(p + y, s);
    var i :| 0 <= i <= |s| && Matches(FirstRe(p), s[..i]) && Seg(More(p) + y, s[i..]);
    assert |More(p)| < |p|;
    SegCut(More(p), y, s[i..]);
    var k :| 0 <= k <= |s[i..]| && Seg(More(p), s[i..][..k]) && Seg(y, s[i..][k..]);
    j := i + k;
    CutOnce(s, i, j);
    SegStep(p, s[..j]);
  }

  lemma {:induction false} SegJoins(p: string, y: string, s: string, j: nat)
    requires p != "" && Contained(p) && j <= |s| && Seg(p, s[..j]) && Seg(y, s[j..])
    ensures Seg(p + y, s)
    decreases |p|, 0
  {
    hide Seg, Matches, FirstRe, More, Contained;
    FirstStays(p, y);
    SegStep(p, s[..j]);
    var i :| 0 <= i <= |s[..j]| && Matches(FirstRe(p), s[..j][..i]) && Seg(More(p), s[..j][i..]);
    CutOnce(s, i, j);
    assert |More(p)| < |p|;
    SegCut(More(p), y, s[i..]);
    SegStep(p + y, s);
  }

  // ----- a brace between two texts

  /** An option that stands for itself: no comma, slash, bracket or brace, and not a globstar. */
  predicate Option(option: string) {
    ',' !in option && '/' !in option && '{' !in option && '}' !in option && '[' !in option && ']' !in option
    && !IsGlobstar(option)
  }

  predicate AllOptions(options: seq<string>) {
    options != [] && forall k :: 0 <= k < |options| ==> Option(options[k])
  }

  function Brace(options: seq<string>): string {
    "{" + (JoinOn(options, ',') + "}")
  }

  lemma {:induction false} JoinHas(options: seq<string>, c: char)
    requires c != ',' && forall k :: 0 <= k < |options| ==> c !in options[k]
    ensures c !in JoinOn(options, ',')
  {
    if |options| > 1 {
      JoinHas(options[1..], c);
    }
  }

  lemma {:induction false} BraceIs(options: seq<string>, q: string)
    requires AllOptions(options)
    ensures var t := Brace(options) + q; OpensBrace(t) && OptionsOf(t) == options && Behind(t) == q
  {
    var inside := JoinOn(options, ',');
    var t := Brace(options) + q;
    JoinHas(options, '}');
    SplitOnFinds(options, ',');
    assert t[1..] == inside + ("}" + q);
    assert forall j :: 0 <= j < |inside| ==> t[1..][j] == inside[j];
    FindIs(t[1..], '}', |inside|);
    assert t[1..][..|inside|] == inside && t[1..][|inside| + 1..] == q;
  }

  lemma {:induction false} OptionIsPlain(option: string, q: string)
    requires Option(option)
    ensures Contained(option) && Unsplit(option, 0) && DepthBehind(option, 0) == 0 && Segments(option, 0) == [option]
  {
    BareIsContained(option);
    BareIsUnsplit(option, 0);
    UnsplitPasses(option, "", 0);
    assert option + "" == option;
  }

  lemma {:induction false} BareIsContained(x: string)
    requires '{' !in x && '[' !in x
    ensures Contained(x)
    decreases |x|
  {
    if x != "" {
      assert x[0] in x && x == [x[0]] + x[1..] && x[..1] == [x[0]];
      BareIsContained(x[1..]);
    }
  }

  lemma {:induction false} BareIsUnsplit(x: string, depth: nat)
    requires '{' !in x && '}' !in x && '[' !in x && ']' !in x && ('/' in x ==> depth > 0)
    ensures Unsplit(x, depth) && DepthBehind(x, depth) == depth
  {
    if x != "" {
      assert x[0] in x && x == [x[0]] + x[1..];
      BareIsUnsplit(x[1..], depth);
    }
  }

  /** An option compiles to what it compiles to as a segment. */
  lemma {:induction false} OptionSeg(option: string, s: string)
    requires Option(option)
    ensures Matches(CatAll(GlobParts(option)), s) <==> Seg(option, s)
  {
    OptionIsPlain(option, "");
    assert [option][1..] == [];
    assert SourceParts([], false, |option|) == [];
    assert GlobParts(option) == SegmentParts(option);
  }

  lemma {:induction false} BraceSeg(options: seq<string>, q: string, s: string)
    requires AllOptions(options)
    ensures Seg(Brace(options) + q, s) <==> exists k :: 0 <= k < |options| && Seg(options[k] + q, s)
  {
    var t := Brace(options) + q;
    BraceIs(options, q);
    SegStep(t, s);
    var compiled := Alternatives(options, Find(t[1..], '}'));
    hide Seg, Matches, Brace, AltAll, OptionsOf, Behind;
    forall i, k | 0 <= i <= |s| && 0 <= k < |options|
      ensures Matches(compiled[k], s[..i]) <==> Seg(options[k], s[..i])
    {
      OptionSeg(options[k], s[..i]);
    }
    forall i | 0 <= i <= |s|
      ensures Matches(FirstRe(t), s[..i]) <==> exists k :: 0 <= k < |options| && Seg(options[k], s[..i])
    {
      AltAllIsSome(compiled, s[..i]);
    }
    forall k | 0 <= k < |options|
      ensures Seg(options[k] + q, s) <==> exists i :: 0 <= i <= |s| && Seg(options[k], s[..i]) && Seg(q, s[i..])
    {
      OptionIsPlain(options[k], q);
      SegCut(options[k], q, s);
    }
  }

  /** Behind a text whose brackets and braces are closed. */
  lemma {:induction false} BraceInside(p: string, options: seq<string>, q: string, s: string)
    requires AllOptions(options) && Contained(p)
    ensures Seg(p + (Brace(options) + q), s) <==> exists k :: 0 <= k < |options| && Seg(p + (options[k] + q), s)
  {
    hide Seg, Brace, AllOptions, Contained;
    SegCut(p, Brace(options) + q, s);
    forall j | 0 <= j <= |s|
      ensures Seg(Brace(options) + q, s[j..]) <==> exists k :: 0 <= k < |options| && Seg(options[k] + q, s[j..])
    {
      BraceSeg(options, q, s[j..]);
    }
    forall k | 0 <= k < |options|
      ensures Seg(p + (options[k] + q), s) <==> exists j :: 0 <= j <= |s| && Seg(p, s[..j]) && Seg(options[k] + q, s[j..])
    {
      SegCut(p, options[k] + q, s);
    }
  }

  // ----- globs with a brace in them

  lemma {:induction false} SegmentsCut(pre: string, y: string, depth: nat)
    ensures Segments(pre + y, depth) == Glue(Segments(pre, depth), Segments(y, DepthBehind(pre, depth)))
  {
    if pre == "" {
      assert pre + y == y;
      GlueNothing(Segments(y, depth));
    } else {
      var next := DepthAfter(depth, pre[0]);
      assert (pre + y)[0] == pre[0] && (pre + y)[1..] == pre[1..] + y;
      SegmentsCut(pre[1..], y, next);
      var rest, tail := Segments(pre[1..], next), Segments(y, DepthBehind(pre, depth));
      GlueFirst(pre[0], rest, tail);
    }
  }

  lemma GlueFirst(c: char, rest: seq<string>, tail: seq<string>)
    requires rest != [] && tail != []
    ensures Glue([""] + rest, tail) == [""] + Glue(rest, tail)
    ensures Glue([[c] + rest[0]] + rest[1..], tail) == [[c] + Glue(rest, tail)[0]] + Glue(rest, tail)[1..]
  {
    var n := |rest|;
    assert ([""] + rest)[..n] == [""] + rest[..n - 1];
    if n == 1 {
      assert [c] + rest[0] + tail[0] == [c] + (rest[0] + tail[0]);
    } else {
      var all := [[c] + rest[0]] + rest[1..];
      assert all[..n - 1] == [[c] + rest[0]] + rest[1..n - 1] && all[n - 1] == rest[n - 1];
      assert rest[..n - 1] == [rest[0]] + rest[1..n - 1];
    }
  }

  function LastSegment(pre: string): string {
    Segments(pre, 0)[|Segments(pre, 0)| - 1]
  }

  /** Behind a text the splitter leaves at depth 0, an unsplit text runs from its last segment into the first of what
      follows. */
  lemma {:induction false} SegmentsAround(pre: string, x: string, post: string)
    requires DepthBehind(pre, 0) == 0 && Unsplit(x, 0) && DepthBehind(x, 0) == 0
    ensures var a, b := Segments(pre, 0), Segments(post, 0);
            Segments(pre + x + post, 0) == a[..|a| - 1] + [LastSegment(pre) + (x + b[0])] + b[1..]
  {
    hide Segments, DepthBehind, Unsplit;
    assert pre + x + post == pre + (x + post);
    SegmentsCut(pre, x + post, 0);
    UnsplitPasses(x, post, 0);
  }

  lemma {:induction false} BraceIsUnsplit(options: seq<string>)
    requires AllOptions(options)
    ensures Unsplit(Brace(options), 0) && DepthBehind(Brace(options), 0) == 0
  {
    var inside := JoinOn(options, ',');
    JoinHas(options, '/');
    JoinHas(options, '{');
    JoinHas(options, '}');
    JoinHas(options, '[');
    JoinHas(options, ']');
    BareIsUnsplit(inside, 1);
    UnsplitBoth(inside, "}", 1);
    assert Brace(options)[1..] == inside + "}" && "}"[1..] == "";
    assert DepthBehind("", 0) == 0 && Unsplit("", 0);
    assert DepthBehind("}", 1) == 0 && Unsplit("}", 1);
  }

  lemma {:induction false} UnsplitBoth(x: string, t: string, depth: nat)
    requires Unsplit(x, depth)
    ensures Unsplit(x + t, depth) <==> Unsplit(t, DepthBehind(x, depth))
    ensures DepthBehind(x + t, depth) == DepthBehind(t, DepthBehind(x, depth))
  {
    if x == "" {
      assert x + t == t;
    } else {
      assert (x + t)[0] == x[0] && (x + t)[1..] == x[1..] + t;
      UnsplitBoth(x[1..], t, DepthAfter(depth, x[0]));
    }
  }

  /** A segment that takes what one of several takes, in their place. */
  lemma {:induction false} ReadsAny(a: seq<string>, x: string, xs: seq<string>, b: seq<string>, words: seq<string>)
    requires !IsGlobstar(x) && xs != [] && forall k :: 0 <= k < |xs| ==> !IsGlobstar(xs[k])
    requires forall part :: SegmentTakes(x, part) <==> exists k :: 0 <= k < |xs| && SegmentTakes(xs[k], part)
    ensures Reads(a + [x] + b, words) <==> exists k :: 0 <= k < |xs| && Reads(a + [xs[k]] + b, words)
    decreases |a|
  {
    hide SegmentTakes;
    if a == [] {
      FirstOf(x, b);
      forall k | 0 <= k < |xs|
        ensures a + [xs[k]] + b != [] && (a + [xs[k]] + b)[1..] == b && (a + [xs[k]] + b)[0] == xs[k]
      {
        FirstOf(xs[k], b);
      }
    } else {
      BehindFirst(a, x, b);
      forall k | 0 <= k < |xs|
        ensures a + [xs[k]] + b != []
        ensures (a + [xs[k]] + b)[1..] == a[1..] + [xs[k]] + b && (a + [xs[k]] + b)[0] == a[0]
      {
        BehindFirst(a, xs[k], b);
      }
      forall i | 0 <= i <= |words|
        ensures Reads(a[1..] + [x] + b, words[i..]) <==> exists k :: 0 <= k < |xs| && Reads(a[1..] + [xs[k]] + b, words[i..])
      {
        ReadsAny(a[1..], x, xs, b, words[i..]);
      }
    }
  }

  lemma FirstOf(x: string, b: seq<string>)
    ensures [] + [x] + b != [] && ([] + [x] + b)[1..] == b && ([] + [x] + b)[0] == x
  {
  }

  lemma BehindFirst(a: seq<string>, x: string, b: seq<string>)
    requires a != []
    ensures a + [x] + b != [] && (a + [x] + b)[1..] == a[1..] + [x] + b && (a + [x] + b)[0] == a[0]
  {
  }

  lemma GoodAround(a: seq<string>, x: string, b: seq<string>)
    requires !IsGlobstar(x)
    ensures Good(a + [x] + b) <==> !(|b| >= 2 && IsGlobstar(b[|b| - 1]) && IsGlobstar(b[|b| - 2]))
  {
    var all := a + [x] + b;
    assert all[|a|] == x;
    assert forall i :: 0 <= i < |b| ==> all[|a| + 1 + i] == b[i];
  }

  lemma {:induction false} BraceTakes(p: string, options: seq<string>, q: string, part: seq<string>)
    requires AllOptions(options) && Contained(p)
    ensures SegmentTakes(p + (Brace(options) + q), part)
       <==> exists k :: 0 <= k < |options| && SegmentTakes(p + (options[k] + q), part)
  {
    hide Matches, SegmentParts, Brace, AllOptions, Contained;
    if part != [] {
      BraceInside(p, options, q, JoinSlash(part));
      forall x
        ensures SegmentTakes(x, part) <==> Seg(x, JoinSlash(part))
      {
      }
    }
  }

  lemma BraceStands(p: string, options: seq<string>, q: string)
    ensures !IsGlobstar(p + (Brace(options) + q))
  {
    assert (p + (Brace(options) + q))[|p|] == '{';
  }

  /** Text in front whose last segment is closed to the compiler, and at depth 0 to the splitter. */
  predicate Cuttable(pre: string) {
    DepthBehind(pre, 0) == 0 && Contained(LastSegment(pre))
  }

  /** No option makes the segment it stands in a globstar. */
  predicate NoGlobstar(pre: string, options: seq<string>, post: string) {
    forall k :: 0 <= k < |options| ==> !IsGlobstar(LastSegment(pre) + (options[k] + Segments(post, 0)[0]))
  }

  lemma {:induction false} BraceReads(pre: string, options: seq<string>, post: string, words: seq<string>)
    requires AllOptions(options) && Cuttable(pre) && NoGlobstar(pre, options, post)
    ensures Reads(Segments(pre + Brace(options) + post, 0), words)
       <==> exists k :: 0 <= k < |options| && Reads(Segments(pre + options[k] + post, 0), words)
    ensures forall k :: 0 <= k < |options| ==>
              (Good(Segments(pre + Brace(options) + post, 0)) <==> Good(Segments(pre + options[k] + post, 0)))
  {
    hide Reads, Good, Segments, SegmentTakes, Brace, DepthBehind, Unsplit, Contained, Option;
    var a, b := Segments(pre, 0), Segments(post, 0);
    var front, p, q, back := a[..|a| - 1], LastSegment(pre), b[0], b[1..];
    var x := p + (Brace(options) + q);
    var xs := seq(|options|, k requires 0 <= k < |options| => p + (options[k] + q));
    BraceIsUnsplit(options);
    SegmentsAround(pre, Brace(options), post);
    BraceStands(p, options, q);
    GoodAround(front, x, back);
    forall k | 0 <= k < |options|
      ensures Segments(pre + options[k] + post, 0) == front + [xs[k]] + back
      ensures Good(front + [x] + back) <==> Good(front + [xs[k]] + back)
    {
      OptionIsPlain(options[k], "");
      SegmentsAround(pre, options[k], post);
      GoodAround(front, xs[k], back);
    }
    forall part
      ensures SegmentTakes(x, part) <==> exists k :: 0 <= k < |xs| && SegmentTakes(xs[k], part)
    {
      BraceTakes(p, options, q, part);
      assert forall k :: 0 <= k < |xs| ==> xs[k] == p + (options[k] + q);
    }
    ReadsAny(front, x, xs, back, words);
  }

  // ----- whether the engine takes it

  lemma {:induction false} InOrderCut(p: string, y: string)
    requires Contained(p)
    ensures SegmentInOrder(p + y) <==> SegmentInOrder(p) && SegmentInOrder(y)
    decreases |p|
  {
    hide Contained, Front, Rest, OpensBrace, OptionsOf, Behind, InOrder, Segments;
    assert SegmentInOrder("");
    if p == "" {
      assert p + y == y;
    } else {
      ContainedIs(p);
      assert p + y != "";
      if OpensBrace(p) {
        BraceStays(p, y);
        InOrderCut(Behind(p), y);
      } else {
        PieceStays(p, y);
        InOrderCut(Rest(p), y);
      }
    }
  }

  lemma {:induction false} OptionInOrder(option: string)
    requires Option(option)
    ensures SegmentInOrder(option)
  {
    NoClass(option);
    NotOpened(option);
  }

  lemma {:induction false} BraceInOrder(p: string, options: seq<string>, q: string, k: nat)
    requires AllOptions(options) && Contained(p) && k < |options|
    ensures SegmentInOrder(p + (Brace(options) + q)) <==> SegmentInOrder(p + (options[k] + q))
  {
    hide Contained, Brace, OptionsOf, Behind, OpensBrace, Segments;
    InOrderCut(p, Brace(options) + q);
    InOrderCut(p, options[k] + q);
    OptionIsPlain(options[k], "");
    OptionInOrder(options[k]);
    InOrderCut(options[k], q);
    BraceIs(options, q);
    forall j | 0 <= j < |options|
      ensures GlobInOrder(options[j])
    {
      OptionIsPlain(options[j], "");
      OptionInOrder(options[j]);
    }
    OrderOfBrace(Brace(options) + q);
  }

  lemma {:induction false} OrderOfBrace(t: string)
    requires OpensBrace(t)
    ensures SegmentInOrder(t)
       <==> (forall k :: 0 <= k < |OptionsOf(t)| ==> GlobInOrder(OptionsOf(t)[k])) && SegmentInOrder(Behind(t))
  {
    hide AllAccepted, Accepted, SegmentInOrder, GlobInOrder, SegmentParts;
    ScanBrace(t);
    BraceAccepted(t);
    AcceptedInFront(AltAll(Alternatives(OptionsOf(t), Find(t[1..], '}'))), SegmentParts(Behind(t)));
    SegmentAccepted(t);
    SegmentAccepted(Behind(t));
  }

  lemma {:induction false} BraceGlobInOrder(pre: string, options: seq<string>, post: string, k: nat)
    requires AllOptions(options) && Cuttable(pre) && k < |options|
    ensures GlobInOrder(pre + Brace(options) + post) <==> GlobInOrder(pre + options[k] + post)
  {
    hide Segments, SegmentInOrder, Brace, DepthBehind, Unsplit, Contained, Option;
    var a, b := Segments(pre, 0), Segments(post, 0);
    var front, back := a[..|a| - 1], b[1..];
    BraceIsUnsplit(options);
    SegmentsAround(pre, Brace(options), post);
    OptionIsPlain(options[k], "");
    SegmentsAround(pre, options[k], post);
    BraceInOrder(LastSegment(pre), options, b[0], k);
    OrderAround(front, LastSegment(pre) + (Brace(options) + b[0]), back);
    OrderAround(front, LastSegment(pre) + (options[k] + b[0]), back);
  }

  lemma OrderAround(a: seq<string>, x: string, b: seq<string>)
    ensures var all := a + [x] + b;
            (forall i :: 0 <= i < |all| ==> SegmentInOrder(all[i]))
            <==> (forall i :: 0 <= i < |a| ==> SegmentInOrder(a[i])) && SegmentInOrder(x)
                 && (forall i :: 0 <= i < |b| ==> SegmentInOrder(b[i]))
  {
    hide SegmentInOrder;
    var all := a + [x] + b;
    assert forall i :: 0 <= i < |a| ==> all[i] == a[i];
    assert all[|a|] == x;
    assert forall i :: 0 <= i < |b| ==> all[|a| + 1 + i] == b[i];
  }

  lemma {:induction false} BraceIsTrimmed(pre: string, options: seq<string>, option: string, post: string)
    requires Trimmed(pre + option + post) == pre + option + post
    ensures Trimmed(pre + Brace(options) + post) == pre + Brace(options) + post
  {
    var t, x := pre + option + post, pre + Brace(options) + post;
    NothingTrimmed(t);
    assert x[|pre|] == '{' && (post == "" ==> x[|x| - 1] == '}');
    assert |pre| >= 2 ==> x[0] == pre[0] == t[0] && x[1] == pre[1] == t[1];
    assert post != "" ==> x[|x| - 1] == post[|post| - 1] == t[|t| - 1];
    assert "./"[0] == '.' && "./"[1] == '/';
  }

  lemma NothingTrimmed(t: string)
    ensures Trimmed(t) == t <==> !("./" <= t) && (t == "" || t[|t| - 1] != '/')
  {
    assert |DropTrailingSlashes(t)| <= |t| by { DropIsShorter(t); }
    if "./" <= t {
      DropIsShorter(t[2..]);
    } else if t != "" && t[|t| - 1] == '/' {
      DropIsShorter(t[..|t| - 1]);
    }
  }

  lemma {:induction false} DropIsShorter(t: string)
    ensures |DropTrailingSlashes(t)| <= |t|
  {
    if t != "" && t[|t| - 1] == '/' {
      DropIsShorter(t[..|t| - 1]);
    }
  }

  /** A glob with a brace in it matches a path exactly when the glob with one of the options in the place of the brace does,
      whatever stands around it: nothing in the last segment in front is left open, no option turns that segment into a
      globstar, and there is nothing to trim. */
  lemma {:induction false} BraceIsAnyOption(pre: string, options: seq<string>, post: string, words: seq<string>)
    requires IsPath(words) && AllOptions(options) && Cuttable(pre) && NoGlobstar(pre, options, post)
    requires forall k :: 0 <= k < |options| ==> Trimmed(pre + options[k] + post) == pre + options[k] + post
    ensures GlobMatches(pre + Brace(options) + post, words)
       <==> exists k :: 0 <= k < |options| && GlobMatches(pre + options[k] + post, words)
  {
    hide Reads, Good, Segments, Brace, Cuttable, NoGlobstar, Option, GlobMatches, GlobInOrder, PatternOf, Trimmed, IsPath;
    var t := pre + Brace(options) + post;
    BraceIsTrimmed(pre, options, options[0], post);
    BraceReads(pre, options, post, words);
    CompilesIff(t);
    GlobstarsMatch(t, words);
    forall k | 0 <= k < |options|
      ensures GlobMatches(pre + options[k] + post, words)
         <==> PatternOf(t).Some? && Good(Segments(t, 0)) && Reads(Segments(pre + options[k] + post, 0), words)
    {
      CompilesIff(pre + options[k] + post);
      GlobstarsMatch(pre + options[k] + post, words);
      BraceGlobInOrder(pre, options, post, k);
    }
  }
}
