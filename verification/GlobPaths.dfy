/** Globs against normalised paths: for whatever segments, where `**` may stand, and the one place where the compiler
    misses its meaning. */
module GlobPaths {
  import opened Regex
  import opened Glob
  import opened GlobMeaning

  // ----- paths as strings

  lemma {:induction false} PathEnds(words: seq<string>)
    requires words != [] && WordsOk(words)
    ensures var s := JoinSlash(words); s != "" && s[0] != '/' && s[|s| - 1] != '/'
    ensures var s := JoinSlash(words); forall i :: 0 <= i < |s| - 1 && s[i] == '/' ==> s[i + 1] != '/'
  {
    assert WordOk(words[0]);
    if |words| > 1 {
      PathEnds(words[1..]);
      var tail := JoinSlash(words[1..]);
      var s := words[0] + "/" + tail;
      assert forall i :: 0 <= i < |words[0]| ==> s[i] in words[0];
      assert forall i :: |words[0]| < i < |s| ==> s[i] == tail[i - |words[0]| - 1];
    }
  }

  lemma {:induction false} PathCut(words: seq<string>, k: nat)
    requires 1 <= k < |words|
    ensures JoinSlash(words) == JoinSlash(words[..k]) + "/" + JoinSlash(words[k..])
  {
    if k > 1 {
      PathCut(words[1..], k - 1);
      assert words[1..][..k - 1] == words[..k][1..] && words[1..][k - 1..] == words[k..];
      assert words[0] + "/" + (JoinSlash(words[..k][1..]) + "/" + JoinSlash(words[k..]))
          == words[0] + "/" + JoinSlash(words[..k][1..]) + "/" + JoinSlash(words[k..]);
    } else {
      assert words[..1] == [words[0]];
    }
  }

  /** Every slash of a path stands between two of its words. */
  lemma {:induction false} SlashIsACut(words: seq<string>, i: nat) returns (k: nat)
    requires words != [] && WordsOk(words) && i < |JoinSlash(words)| && JoinSlash(words)[i] == '/'
    ensures 1 <= k < |words|
    ensures JoinSlash(words)[..i] == JoinSlash(words[..k]) && JoinSlash(words)[i + 1..] == JoinSlash(words[k..])
  {
    var s := JoinSlash(words);
    assert WordOk(words[0]);
    assert forall j :: 0 <= j < |words[0]| ==> s[j] == words[0][j] && words[0][j] in words[0];
    if i <= |words[0]| {
      k := 1;
      PathCut(words, 1);
      assert words[..1] == [words[0]];
    } else {
      var j := i - |words[0]| - 1;
      k := SlashIsACut(words[1..], j);
      k := k + 1;
      PathCut(words, k);
      PathCut(words[1..], k - 1);
      assert words[1..][..k - 1] == words[..k][1..] && words[1..][k - 1..] == words[k..];
      assert JoinSlash(words[..k]) == words[0] + "/" + JoinSlash(words[1..][..k - 1]);
      assert |JoinSlash(words[1..][..k - 1])| == j;
    }
  }

  lemma CutIsASlash(words: seq<string>, k: nat) returns (i: nat)
    requires 1 <= k < |words|
    ensures i < |JoinSlash(words)| && JoinSlash(words)[i] == '/'
    ensures JoinSlash(words)[..i] == JoinSlash(words[..k]) && JoinSlash(words)[i + 1..] == JoinSlash(words[k..])
  {
    hide JoinSlash;
    PathCut(words, k);
    i := |JoinSlash(words[..k])|;
  }

  // ----- what `**` compiles to

  lemma SomeNonSlashes(s: string)
    ensures Matches(SOME_NON_SLASHES, s) <==> s != "" && '/' !in s
  {
    CatOne(NotSlash, NO_SLASHES, s);
    if s != "" {
      RunOfNonSlashes(s[1..]);
      assert s == [s[0]] + s[1..];
    }
  }

  /** One turn of a compiled `**`. */
  ghost predicate Turn(last: bool, s: string) {
    && s != ""
    && (|| s == "/"
        || (s[|s| - 1] == '/' && |s| > 1 && '/' !in s[..|s| - 1])
        || (last && s[0] == '/' && |s| > 1 && '/' !in s[1..]))
  }

  /** Some non-slashes and a slash. */
  lemma SlashBehind(s: string)
    ensures Matches(Cat(SOME_NON_SLASHES, Literal('/')), s) <==> |s| > 1 && s[|s| - 1] == '/' && '/' !in s[..|s| - 1]
  {
    var slash := Literal('/');
    if Matches(Cat(SOME_NON_SLASHES, slash), s) {
      var i := CatElim(SOME_NON_SLASHES, slash, s);
      SomeNonSlashes(s[..i]);
      assert i == |s| - 1 && s[i..][0] == s[i];
    }
    if |s| > 1 && s[|s| - 1] == '/' && '/' !in s[..|s| - 1] {
      SomeNonSlashes(s[..|s| - 1]);
      assert s[|s| - 1..][0] == '/';
      CatIntro(SOME_NON_SLASHES, slash, s, |s| - 1);
    }
  }

  lemma TurnMatches(last: bool, s: string)
    ensures Matches(Globstar(last).body, s) <==> Turn(last, s)
  {
    SlashBehind(s);
    CatOne(Exactly('/'), SOME_NON_SLASHES, s);
    if s != "" {
      SomeNonSlashes(s[1..]);
    }
    assert Matches(Literal('/'), s) <==> s == "/";
  }

  lemma FirstTurn(last: bool, s: string) returns (i: nat)
    requires Matches(Globstar(last), s) && s != ""
    ensures 0 < i <= |s| && Turn(last, s[..i]) && Matches(Globstar(last), s[i..])
  {
    i :| 0 < i <= |s| && Matches(Globstar(last).body, s[..i]) && Matches(Globstar(last), s[i..]);
    TurnMatches(last, s[..i]);
  }

  lemma TakeTurn(last: bool, s: string, i: nat)
    requires 0 < i <= |s| && Turn(last, s[..i]) && Matches(Globstar(last), s[i..])
    ensures Matches(Globstar(last), s)
  {
    TurnMatches(last, s[..i]);
  }

  /** Not last, it takes nothing or something that ends in a slash. */
  lemma {:induction false} InnerGlobstarEnds(s: string)
    requires Matches(Globstar(false), s)
    ensures s == "" || s[|s| - 1] == '/'
    decreases |s|
  {
    if s != "" {
      hide Matches;
      var i := FirstTurn(false, s);
      InnerGlobstarEnds(s[i..]);
      assert i == |s| ==> s[..i] == s;
      assert i < |s| ==> s[i..][|s[i..]| - 1] == s[|s| - 1];
    }
  }

  /** Not last, it takes any number of whole words with their slashes. */
  lemma {:induction false} InnerGlobstarTakes(words: seq<string>)
    requires WordsOk(words)
    ensures words == [] ==> Matches(Globstar(false), "")
    ensures words != [] ==> Matches(Globstar(false), JoinSlash(words) + "/")
  {
    if words != [] {
      assert WordOk(words[0]);
      InnerGlobstarTakes(words[1..]);
      var s, w := JoinSlash(words) + "/", words[0];
      assert s[..|w| + 1] == w + "/";
      assert (w + "/")[..|w|] == w;
      if |words| > 1 {
        assert s[|w| + 1..] == JoinSlash(words[1..]) + "/";
      } else {
        assert s[|w| + 1..] == "";
      }
      hide Matches;
      TakeTurn(false, s, |w| + 1);
    }
  }

  /** Last, it takes nothing, or any number of whole words with a slash in front. */
  lemma {:induction false} LastGlobstarTakes(words: seq<string>)
    requires WordsOk(words)
    ensures Matches(Globstar(true), "")
    ensures words != [] ==> Matches(Globstar(true), "/" + JoinSlash(words))
  {
    if words != [] {
      assert WordOk(words[0]);
      LastGlobstarTakes(words[1..]);
      var s, w := "/" + JoinSlash(words), words[0];
      assert s[..|w| + 1] == "/" + w;
      assert ("/" + w)[1..] == w;
      if |words| > 1 {
        assert s[|w| + 1..] == "/" + JoinSlash(words[1..]);
      } else {
        assert s[|w| + 1..] == "";
      }
      hide Matches;
      TakeTurn(true, s, |w| + 1);
    }
  }

  /** A stretch of a path that starts inside or at a word and runs to the end. */
  ghost predicate RunsOn(s: string) {
    && s != "" && s[0] != '/' && s[|s| - 1] != '/'
    && forall i :: 0 <= i < |s| - 1 && s[i] == '/' ==> s[i + 1] != '/'
  }

  /** Even last, it never takes a stretch that starts with a word: each word would need a slash of its own. */
  lemma {:induction false} LastGlobstarNeedsSlash(s: string)
    requires RunsOn(s)
    ensures !Matches(Globstar(true), s)
    decreases |s|
  {
    if Matches(Globstar(true), s) {
      hide Matches;
      var i := FirstTurn(true, s);
      assert s[..i][0] == s[0] && s[..i][i - 1] == s[i - 1];
      assert i < |s|;
      assert s[i..][0] == s[i] && s[i..][|s[i..]| - 1] == s[|s| - 1];
      assert forall j :: 0 <= j < |s[i..]| ==> s[i..][j] == s[i + j];
      LastGlobstarNeedsSlash(s[i..]);
    }
  }

  // ----- whole globs

  /** A compiled segment takes a stretch of words. */
  ghost predicate SegmentTakes(segment: string, words: seq<string>) {
    words != [] && Matches(CatAll(SegmentParts(segment)), JoinSlash(words))
  }

  /** The segments take a path between them, a globstar any number of words. */
  ghost predicate Reads(segments: seq<string>, words: seq<string>)
    decreases |segments|
  {
    if segments == [] then
      words == []
    else
      exists k :: 0 <= k <= |words| && (IsGlobstar(segments[0]) || SegmentTakes(segments[0], words[..k]))
                  && Reads(segments[1..], words[k..])
  }

  /** Some segment is not a globstar, and no two globstars end the glob. */
  ghost predicate Good(segments: seq<string>) {
    && (exists i :: 0 <= i < |segments| && !IsGlobstar(segments[i]))
    && !EndsInTwoGlobstars(segments)
  }

  ghost predicate EndsInTwoGlobstars(segments: seq<string>) {
    |segments| >= 2 && IsGlobstar(segments[|segments| - 1]) && IsGlobstar(segments[|segments| - 2])
  }

  /** What the segments from here on compile to matches `s`. */
  ghost predicate Compiled(segments: seq<string>, afterGlobstar: bool, bound: nat, s: string) {
    && (forall i :: 0 <= i < |segments| ==> |segments[i]| <= bound)
    && Matches(CatAll(SourceParts(segments, afterGlobstar, bound)), s)
  }

  ghost predicate Bounded(segments: seq<string>, bound: nat) {
    forall i :: 0 <= i < |segments| ==> |segments[i]| <= bound
  }

  /** A piece in front of others. */
  lemma OnePiece(part: Re, parts: seq<Re>, s: string)
    ensures Matches(CatAll([part] + parts), s) <==>
            exists i :: 0 <= i <= |s| && Matches(part, s[..i]) && Matches(CatAll(parts), s[i..])
  {
    assert ([part] + parts)[1..] == parts;
  }

  /** Two runs of pieces with a slash between them. */
  lemma SlashBetween(a: seq<Re>, b: seq<Re>, s: string)
    ensures Matches(CatAll(a + [Literal('/')] + b), s) <==>
            exists i :: 0 <= i < |s| && s[i] == '/' && Matches(CatAll(a), s[..i]) && Matches(CatAll(b), s[i + 1..])
  {
    hide Matches;
    var slash := [Literal('/')] + b;
    assert a + [Literal('/')] + b == a + slash && slash[1..] == b;
    if Matches(CatAll(a + slash), s) {
      var i := CatAllSplit(a, slash, s);
      CatOne(Exactly('/'), CatAll(b), s[i..]);
      assert s[i..][1..] == s[i + 1..];
    }
    if i :| 0 <= i < |s| && s[i] == '/' && Matches(CatAll(a), s[..i]) && Matches(CatAll(b), s[i + 1..]) {
      CatOne(Exactly('/'), CatAll(b), s[i..]);
      assert s[i..][1..] == s[i + 1..];
      CatAllJoin(a, slash, s, i);
    }
  }

  /** A segment that is not a globstar needs a word. */
  lemma {:induction false} WordsAreNeeded(segments: seq<string>)
    requires exists i :: 0 <= i < |segments| && !IsGlobstar(segments[i])
    ensures !Reads(segments, [])
  {
    var i :| 0 <= i < |segments| && !IsGlobstar(segments[i]);
    var none: seq<string> := [];
    assert none[..0] == none && none[0..] == none;
    if IsGlobstar(segments[0]) {
      assert !IsGlobstar(segments[1..][i - 1]);
      WordsAreNeeded(segments[1..]);
    }
  }

  lemma WordsAreLeft(segments: seq<string>, words: seq<string>, k: nat)
    requires Good(segments) && k <= |words| && Reads(segments, words[k..])
    ensures k < |words|
  {
    hide Meaning;
    WordsAreNeeded(segments);
    assert words[|words|..] == [];
  }

  lemma LoneSegment(segments: seq<string>, bound: nat, s: string)
    requires |segments| == 1 && !IsGlobstar(segments[0]) && Bounded(segments, bound)
    ensures Compiled(segments, false, bound, s) <==> Matches(CatAll(SegmentParts(segments[0])), s)
  {
    hide Matches, SegmentParts;
    var parts := SegmentParts(segments[0]);
    assert SourceParts(segments[1..], false, bound) == [];
    assert SourceParts(segments, false, bound) == parts;
  }

  lemma SegmentThenLastGlobstar(segments: seq<string>, bound: nat, s: string)
    requires |segments| == 2 && !IsGlobstar(segments[0]) && IsGlobstar(segments[1]) && Bounded(segments, bound)
    ensures Compiled(segments, false, bound, s) <==>
            exists i :: 0 <= i <= |s| && Matches(CatAll(SegmentParts(segments[0])), s[..i]) && Matches(Globstar(true), s[i..])
  {
    hide SegmentParts, Globstar, Matches;
    var parts, star := SegmentParts(segments[0]), [Globstar(true)];
    assert segments[1..][1..] == [];
    assert SourceParts(segments[1..], false, bound) == star;
    assert SourceParts(segments, false, bound) == parts + star;
    forall x
      ensures Matches(CatAll(star), x) <==> Matches(Globstar(true), x)
    {
      JustOne(Globstar(true), x);
    }
    if Matches(CatAll(parts + star), s) {
      var i := CatAllSplit(parts, star, s);
    }
    if i :| 0 <= i <= |s| && Matches(CatAll(parts), s[..i]) && Matches(Globstar(true), s[i..]) {
      CatAllJoin(parts, star, s, i);
    }
  }

  lemma JustOne(r: Re, s: string)
    ensures Matches(CatAll([r]), s) <==> Matches(r, s)
  {
    assert s[..|s|] == s && s[|s|..] == "";
    if Matches(r, s) {
      assert Matches(Empty, s[|s|..]);
      CatIntro(r, Empty, s, |s|);
    }
  }

  lemma SegmentThenMore(segments: seq<string>, bound: nat, s: string)
    requires |segments| >= 2 && !IsGlobstar(segments[0]) && Bounded(segments, bound)
    requires IsGlobstar(segments[1]) ==> |segments| > 2
    ensures Compiled(segments, false, bound, s) <==>
            exists i :: 0 <= i < |s| && s[i] == '/' && Matches(CatAll(SegmentParts(segments[0])), s[..i])
                        && Compiled(segments[1..], false, bound, s[i + 1..])
  {
    hide SegmentParts, Matches;
    var parts, more := SegmentParts(segments[0]), SourceParts(segments[1..], false, bound);
    assert SourceParts(segments, false, bound) == parts + [Literal('/')] + more;
    SlashBetween(parts, more, s);
  }

  lemma GlobstarThenMore(segments: seq<string>, bound: nat, s: string)
    requires |segments| >= 2 && IsGlobstar(segments[0]) && Bounded(segments, bound)
    ensures Compiled(segments, false, bound, s) <==>
            exists i :: 0 <= i <= |s| && Matches(Globstar(false), s[..i]) && Compiled(segments[1..], true, bound, s[i..])
  {
    hide Globstar, Matches;
    OnePiece(Globstar(false), SourceParts(segments[1..], true, bound), s);
  }

  function DropGlobstars(segments: seq<string>): (r: seq<string>)
    ensures |r| <= |segments|
    ensures r != [] ==> !IsGlobstar(r[0])
  {
    if segments != [] && IsGlobstar(segments[0]) then DropGlobstars(segments[1..]) else segments
  }

  lemma {:induction false} DropKeeps(segments: seq<string>, bound: nat)
    requires Good(segments) && Bounded(segments, bound)
    ensures var rest := DropGlobstars(segments);
            Good(rest) && Bounded(rest, bound) && rest != []
  {
    if IsGlobstar(segments[0]) {
      GoodTail(segments, bound);
      DropKeeps(segments[1..], bound);
    }
  }

  lemma GoodTail(segments: seq<string>, bound: nat)
    requires Good(segments) && Bounded(segments, bound)
    requires |segments| >= 2 && !(|segments| == 2 && !IsGlobstar(segments[0]) && IsGlobstar(segments[1]))
    ensures Good(segments[1..]) && Bounded(segments[1..], bound)
  {
    var rest := segments[1..];
    assert forall i :: 0 <= i < |rest| ==> rest[i] == segments[i + 1];
    var i :| 0 <= i < |segments| && !IsGlobstar(segments[i]);
    if i > 0 {
      assert !IsGlobstar(rest[i - 1]);
    } else if |segments| == 2 {
      assert !IsGlobstar(rest[0]);
    } else {
      assert !IsGlobstar(rest[|rest| - 1]) || !IsGlobstar(rest[|rest| - 2]);
    }
  }

  lemma {:induction false} CompiledDrops(segments: seq<string>, bound: nat, s: string)
    requires Good(segments) && Bounded(segments, bound)
    ensures Compiled(segments, true, bound, s) <==> Compiled(DropGlobstars(segments), false, bound, s)
  {
    hide Matches, SegmentParts;
    DropKeeps(segments, bound);
    if IsGlobstar(segments[0]) {
      GoodTail(segments, bound);
      CompiledDrops(segments[1..], bound, s);
      var more := SourceParts(segments[1..], true, bound);
      assert SourceParts(segments, true, bound) == [] + more == more;
    } else {
      assert SourceParts(segments, true, bound) == SourceParts(segments, false, bound);
    }
  }

  ghost predicate ReadsSomeTail(segments: seq<string>, words: seq<string>) {
    exists k :: 0 <= k <= |words| && Reads(segments, words[k..])
  }

  lemma {:induction false} ReadingDrops(segments: seq<string>, words: seq<string>)
    ensures ReadsSomeTail(segments, words) <==> ReadsSomeTail(DropGlobstars(segments), words)
  {
    if segments != [] && IsGlobstar(segments[0]) {
      ReadingDrops(segments[1..], words);
      if ReadsSomeTail(segments, words) {
        var k :| 0 <= k <= |words| && Reads(segments, words[k..]);
        var j :| 0 <= j <= |words[k..]| && Reads(segments[1..], words[k..][j..]);
        assert words[k..][j..] == words[k + j..];
        assert ReadsSomeTail(segments[1..], words);
      }
      if ReadsSomeTail(segments[1..], words) {
        assert words[0..] == words;
        assert Reads(segments, words[0..]);
      }
    }
  }

  /** The compiled segments match a path exactly when they take it between them, word by word. */
  lemma {:induction false} PathMeans(segments: seq<string>, bound: nat, words: seq<string>)
    requires Good(segments) && Bounded(segments, bound)
    requires words != [] && WordsOk(words)
    ensures Compiled(segments, false, bound, JoinSlash(words)) <==> Reads(segments, words)
    decreases |segments|
  {
    hide Matches, SegmentParts, Compiled, Globstar;
    var s := JoinSlash(words);
    if IsGlobstar(segments[0]) {
      GlobstarMeans(segments, bound, words);
    } else if |segments| == 1 {
      LoneSegment(segments, bound, s);
      assert words[..|words|] == words && words[|words|..] == [];
      assert forall k :: 0 <= k <= |words| && words[k..] == [] ==> words[..k] == words;
    } else if |segments| == 2 && IsGlobstar(segments[1]) {
      SegmentThenLastGlobstar(segments, bound, s);
      SegmentAndAllBelow(segments, words);
    } else {
      GoodTail(segments, bound);
      SegmentThenMore(segments, bound, s);
      SegmentReadsMore(segments, bound, words);
    }
  }

  lemma {:induction false} SegmentReadsMore(segments: seq<string>, bound: nat, words: seq<string>)
    requires |segments| >= 2 && !IsGlobstar(segments[0])
    requires Good(segments[1..]) && Bounded(segments, bound)
    requires words != [] && WordsOk(words)
    ensures var s := JoinSlash(words);
            Reads(segments, words) <==>
            exists i :: 0 <= i < |s| && s[i] == '/' && Matches(CatAll(SegmentParts(segments[0])), s[..i])
                        && Compiled(segments[1..], false, bound, s[i + 1..])
    decreases |segments|, 0
  {
    hide Matches, SegmentParts, Compiled, JoinSlash, WordOk;
    var s, first, rest := JoinSlash(words), segments[0], segments[1..];
    if i :| 0 <= i < |s| && s[i] == '/' && Matches(CatAll(SegmentParts(first)), s[..i]) && Compiled(rest, false, bound, s[i + 1..]) {
      var k := SlashIsACut(words, i);
      PathMeans(rest, bound, words[k..]);
      assert Reads(segments, words);
    }
    if Reads(segments, words) {
      var k :| 0 <= k <= |words| && SegmentTakes(first, words[..k]) && Reads(rest, words[k..]);
      WordsAreLeft(rest, words, k);
      PathMeans(rest, bound, words[k..]);
      var i := CutIsASlash(words, k);
    }
  }

  lemma AnyBelow(words: seq<string>)
    ensures Reads(["**"], words)
  {
    assert words[|words|..] == [] && ["**"][1..] == [];
  }

  /** What a segment with a last `**` behind it leaves of a path is nothing, or starts with a slash. */
  lemma LastGlobstarCuts(words: seq<string>, i: nat) returns (k: nat)
    requires words != [] && WordsOk(words) && i <= |JoinSlash(words)| && Matches(Globstar(true), JoinSlash(words)[i..])
    ensures 1 <= k <= |words| && JoinSlash(words)[..i] == JoinSlash(words[..k])
  {
    hide Matches, Globstar;
    var s := JoinSlash(words);
    k := |words|;
    if i == |s| {
      assert s[..i] == s && words[..k] == words;
    } else {
      PathEnds(words);
      assert s[i] == '/' by {
        if s[i] != '/' {
          TailRunsOn(s, i);
          LastGlobstarNeedsSlash(s[i..]);
        }
      }
      k := SlashIsACut(words, i);
    }
  }

  /** The other way round: after any number of words a last `**` takes the rest. */
  lemma {:induction false} LastGlobstarFollows(words: seq<string>, k: nat)
    requires WordsOk(words) && 1 <= k <= |words|
    ensures var i := |JoinSlash(words[..k])|;
            && i <= |JoinSlash(words)| && JoinSlash(words)[..i] == JoinSlash(words[..k])
            && Matches(Globstar(true), JoinSlash(words)[i..])
  {
    hide Matches, Globstar;
    var s, i := JoinSlash(words), |JoinSlash(words[..k])|;
    LastGlobstarTakes(words[k..]);
    if k == |words| {
      assert words[..k] == words && s[..|s|] == s && s[|s|..] == "";
    } else {
      PathCut(words, k);
      assert s[..i] == JoinSlash(words[..k]) && s[i..] == "/" + JoinSlash(words[k..]);
    }
  }

  lemma {:induction false} SegmentAndAllBelow(segments: seq<string>, words: seq<string>)
    requires |segments| == 2 && !IsGlobstar(segments[0]) && IsGlobstar(segments[1])
    requires words != [] && WordsOk(words)
    ensures var s := JoinSlash(words);
            Reads(segments, words) <==>
            exists i :: 0 <= i <= |s| && Matches(CatAll(SegmentParts(segments[0])), s[..i]) && Matches(Globstar(true), s[i..])
  {
    hide Matches, SegmentParts, Globstar;
    var s, first := JoinSlash(words), segments[0];
    assert segments[1..] == ["**"];
    if i :| 0 <= i <= |s| && Matches(CatAll(SegmentParts(first)), s[..i]) && Matches(Globstar(true), s[i..]) {
      var k := LastGlobstarCuts(words, i);
      AnyBelow(words[k..]);
      assert Reads(segments, words);
    }
    if Reads(segments, words) {
      var k :| 0 <= k <= |words| && SegmentTakes(first, words[..k]) && Reads(segments[1..], words[k..]);
      LastGlobstarFollows(words, k);
    }
  }

  lemma TailRunsOn(s: string, i: nat)
    requires RunsOn(s) && i < |s| && s[i] != '/'
    ensures RunsOn(s[i..])
  {
    assert forall j :: 0 <= j < |s[i..]| ==> s[i..][j] == s[i + j];
  }

  /** What an inner `**` takes of a path ends at a cut between words. */
  lemma {:induction false} InnerGlobstarCuts(words: seq<string>, i: nat) returns (k: nat)
    requires words != [] && WordsOk(words) && i <= |JoinSlash(words)| && Matches(Globstar(false), JoinSlash(words)[..i])
    ensures k < |words| && JoinSlash(words)[i..] == JoinSlash(words[k..])
  {
    hide Matches, Globstar, WordOk;
    var s := JoinSlash(words);
    InnerGlobstarEnds(s[..i]);
    k := 0;
    if i > 0 {
      assert s[..i][i - 1] == s[i - 1];
      k := SlashIsACut(words, i - 1);
    } else {
      assert s[0..] == s && words[0..] == words;
    }
  }

  /** The other way round: it takes the words in front of any cut. */
  lemma {:induction false} InnerGlobstarFollows(words: seq<string>, k: nat) returns (i: nat)
    requires WordsOk(words) && k < |words|
    ensures i <= |JoinSlash(words)| && Matches(Globstar(false), JoinSlash(words)[..i])
    ensures JoinSlash(words)[i..] == JoinSlash(words[k..])
  {
    hide Matches, Globstar, WordOk;
    var s := JoinSlash(words);
    InnerGlobstarTakes(words[..k]);
    i := 0;
    if k > 0 {
      PathCut(words, k);
      i := |JoinSlash(words[..k])| + 1;
      assert s[..i] == JoinSlash(words[..k]) + "/" && s[i..] == JoinSlash(words[k..]);
    } else {
      assert words[..0] == [] && s[..0] == "" && s[0..] == s && words[0..] == words;
    }
  }

  lemma {:induction false} GlobstarMeans(segments: seq<string>, bound: nat, words: seq<string>)
    requires Good(segments) && Bounded(segments, bound) && IsGlobstar(segments[0])
    requires words != [] && WordsOk(words)
    ensures Compiled(segments, false, bound, JoinSlash(words)) <==> Reads(segments, words)
    decreases |segments|, 0
  {
    hide Matches, SegmentParts, Compiled, Globstar, WordOk, DropGlobstars, JoinSlash;
    var s, rest := JoinSlash(words), segments[1..];
    assert |segments| >= 2;
    GoodTail(segments, bound);
    DropKeeps(rest, bound);
    var dropped := DropGlobstars(rest);
    ReadingDrops(rest, words);
    GlobstarThenMore(segments, bound, s);
    if i :| 0 <= i <= |s| && Matches(Globstar(false), s[..i]) && Compiled(rest, true, bound, s[i..]) {
      CompiledDrops(rest, bound, s[i..]);
      var k := InnerGlobstarCuts(words, i);
      PathMeans(dropped, bound, words[k..]);
      assert ReadsSomeTail(dropped, words);
    }
    if ReadsSomeTail(dropped, words) {
      var k :| 0 <= k <= |words| && Reads(dropped, words[k..]);
      WordsAreLeft(dropped, words, k);
      PathMeans(dropped, bound, words[k..]);
      var i := InnerGlobstarFollows(words, k);
      CompiledDrops(rest, bound, s[i..]);
    }
  }

  // ----- globs that are not good

  lemma {:induction false} TwoGlobstarsEndInSlash(segments: seq<string>, after: bool, bound: nat, s: string)
    requires EndsInTwoGlobstars(segments) && Bounded(segments, bound) && Compiled(segments, after, bound, s)
    ensures s == "" || s[|s| - 1] == '/'
    decreases |segments|
  {
    hide Matches, SegmentParts, Globstar;
    var rest := segments[1..];
    if !IsGlobstar(segments[0]) {
      assert SourceParts(segments, after, bound) == SourceParts(segments, false, bound);
      SegmentThenMore(segments, bound, s);
      var i :| 0 <= i < |s| && s[i] == '/' && Matches(CatAll(SegmentParts(segments[0])), s[..i])
                && Compiled(rest, false, bound, s[i + 1..]);
      TwoGlobstarsEndInSlash(rest, false, bound, s[i + 1..]);
    } else {
      var i := 0;
      if after {
        assert [] + SourceParts(rest, true, bound) == SourceParts(rest, true, bound);
        assert s[0..] == s && s[..0] == "";
      } else {
        GlobstarThenMore(segments, bound, s);
        i :| 0 <= i <= |s| && Matches(Globstar(false), s[..i]) && Compiled(rest, true, bound, s[i..]);
        InnerGlobstarEnds(s[..i]);
      }
      if |segments| == 2 {
        NothingAfterGlobstar(rest, bound, s[i..]);
      } else {
        TwoGlobstarsEndInSlash(rest, true, bound, s[i..]);
      }
      assert i == |s| ==> s[..i] == s;
      assert i < |s| ==> s[i..][|s[i..]| - 1] == s[|s| - 1];
    }
  }

  lemma NothingAfterGlobstar(segments: seq<string>, bound: nat, s: string)
    requires |segments| == 1 && IsGlobstar(segments[0]) && Compiled(segments, true, bound, s)
    ensures s == ""
  {
    assert SourceParts(segments[1..], true, bound) == [];
  }

  lemma OnlyOneGlobstar(segments: seq<string>)
    requires segments != [] && !Good(segments) && !EndsInTwoGlobstars(segments)
    ensures |segments| == 1 && IsGlobstar(segments[0])
  {
    var last := |segments| - 1;
    assert IsGlobstar(segments[last]) && IsGlobstar(segments[if last > 0 then last - 1 else 0]);
  }

  /** A glob that is not good compiles to an expression no path matches. */
  lemma {:induction false} BadMatchesNothing(segments: seq<string>, bound: nat, words: seq<string>)
    requires segments != [] && Bounded(segments, bound) && !Good(segments)
    requires words != [] && WordsOk(words)
    ensures !Compiled(segments, false, bound, JoinSlash(words))
  {
    hide Matches, SegmentParts;
    var s := JoinSlash(words);
    PathEnds(words);
    if EndsInTwoGlobstars(segments) {
      if Compiled(segments, false, bound, s) {
        TwoGlobstarsEndInSlash(segments, false, bound, s);
      }
    } else {
      OnlyOneGlobstar(segments);
      assert SourceParts(segments[1..], true, bound) == [];
      JustOne(Globstar(true), s);
      LastGlobstarNeedsSlash(s);
    }
  }
}
