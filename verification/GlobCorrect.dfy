/** The promise of the glob compiler, and exactly which globs it holds for. */
module GlobCorrect {
  import opened Regex
  import opened Glob
  import opened GlobMeaning
  import opened GlobPaths
  import opened GlobSegments
  import opened GlobWords
  import opened GlobSplits
  import opened GlobClasses
  import opened GlobReadings

  // ----- all globs

  /** The expression the compiler makes of a glob is there and matches a path given by its words. */
  ghost predicate GlobMatches(glob: string, words: seq<string>) {
    PatternOf(glob).Some? && Matches(PatternOf(glob).value, JoinSlash(words))
  }

  /** Whether the compiler keeps the meaning of a glob: there is an expression, and it matches what the glob means. */
  ghost predicate Kept(glob: string) {
    && PatternOf(glob).Some?
    && forall words :: IsPath(words) ==> (GlobMatches(glob, words) <==> Means(Trimmed(glob), words))
  }

  lemma BoundedByText(t: string)
    ensures Bounded(Segments(t, 0), |t|)
  {
  }

  /** The engine takes the expression of a glob exactly when no range of a class the compiler reads runs backwards. */
  lemma CompilesIff(glob: string)
    ensures PatternOf(glob).Some? <==> GlobInOrder(Trimmed(glob))
  {
    hide Accepted, SourceParts, SegmentInOrder;
    var t := Trimmed(glob);
    SourceAccepted(Segments(t, 0), false, |t|);
    CatAllAccepted(GlobParts(t));
  }

  lemma {:induction false} PartsMatch(t: string, words: seq<string>)
    requires IsPath(words)
    ensures Matches(CatAll(GlobParts(t)), JoinSlash(words)) <==> Good(Segments(t, 0)) && Reads(Segments(t, 0), words)
  {
    hide Matches, SegmentParts, SegmentTakes;
    var segments := Segments(t, 0);
    BoundedByText(t);
    assert Compiled(segments, false, |t|, JoinSlash(words)) <==> Matches(CatAll(GlobParts(t)), JoinSlash(words));
    if Good(segments) {
      PathMeans(segments, |t|, words);
    } else {
      BadMatchesNothing(segments, |t|, words);
    }
  }

  /** For every glob: what the compiled expression matches is what its segments take, `**` standing for any number of
      words, provided some segment is not a globstar and the glob does not end in two; otherwise it matches no path. */
  lemma GlobstarsMatch(glob: string, words: seq<string>)
    requires IsPath(words)
    ensures GlobMatches(glob, words) <==>
            && PatternOf(glob).Some?
            && Good(Segments(Trimmed(glob), 0)) && Reads(Segments(Trimmed(glob), 0), words)
  {
    hide Matches, SegmentParts, SegmentTakes, Accepted, GlobParts, Good, Reads;
    PartsMatch(Trimmed(glob), words);
  }

  /** A glob means some path exactly when one of its expansions has a word for each of its parts, globstars aside. */
  lemma MeansSomePathIff(t: string)
    ensures (exists words :: IsPath(words) && Means(t, words))
       <==> (exists e :: IsExpansion(t, e) && AllMatchable(Meant, Parts(e)))
  {
    hide Meaning, IsExpansion, AllMatchable, IsPath;
    if words :| IsPath(words) && Means(t, words) {
      var e :| IsExpansion(t, e) && Meaning(Meant, Parts(e), words);
      CanMean(e);
    }
    if e :| IsExpansion(t, e) && AllMatchable(Meant, Parts(e)) {
      CanMean(e);
      var words :| IsPath(words) && Meaning(Meant, Parts(e), words);
      assert Means(t, words);
    }
  }

  lemma CanMean(e: string)
    ensures AllMatchable(Meant, Parts(e)) <==> exists words :: IsPath(words) && Meaning(Meant, Parts(e), words)
  {
    hide Meaning, AllMatchable, IsPath;
    PartsAre(e);
    SealedAreSlashFree(Parts(e));
    CanMeanIff(Parts(e));
  }

  /** Whatever the glob: where its globstars stand right it keeps its meaning exactly when its segments take what it means,
      and otherwise exactly when it means no path. */
  lemma KeptIff(glob: string)
    ensures var t := Trimmed(glob);
            Kept(glob) <==>
            && GlobInOrder(t)
            && if Good(Segments(t, 0)) then forall words :: IsPath(words) ==> (Reads(Segments(t, 0), words) <==> Means(t, words))
               else !exists e :: IsExpansion(t, e) && AllMatchable(Meant, Parts(e))
  {
    var t := Trimmed(glob);
    hide Means, Reads, Good, GlobInOrder, GlobMatches, PatternOf, Parts, AllMatchable, IsExpansion, Trimmed, IsPath;
    CompilesIff(glob);
    MeansSomePathIff(t);
    forall words | IsPath(words)
      ensures GlobMatches(glob, words) <==> PatternOf(glob).Some? && Good(Segments(t, 0)) && Reads(Segments(t, 0), words)
    {
      GlobstarsMatch(glob, words);
    }
  }

  // ----- globs without braces

  /** No brace is closed, neither in the glob nor in what the splitter makes of it. */
  predicate Plain(t: string) {
    NoBraces(t) && forall segment :: segment in Segments(t, 0) ==> NoBraces(segment)
  }

  /** No closing brace stands behind an opening one. */
  predicate NoPair(t: string) {
    forall i, j :: 0 <= i < j < |t| ==> !(t[i] == '{' && t[j] == '}')
  }

  lemma NoPairWithin(a: string, b: string)
    requires NoPair(a + b)
    ensures NoPair(a) && NoPair(b)
  {
    assert forall i :: 0 <= i < |a| ==> (a + b)[i] == a[i];
    assert forall i :: 0 <= i < |b| ==> (a + b)[|a| + i] == b[i];
  }

  /** Then no brace is closed. */
  lemma {:induction false} NoPairIsPlain(t: string)
    requires NoPair(t)
    ensures Plain(t)
  {
    hide NoPair, NoBraces;
    var segments := Segments(t, 0);
    NeverOpens(t);
    JoinOfSegments(t, 0);
    forall i | 0 <= i < |segments|
      ensures NoBraces(segments[i])
    {
      NoPairInPart(segments, i);
      NeverOpens(segments[i]);
    }
  }

  lemma {:induction false} NeverOpens(e: string)
    requires NoPair(e)
    ensures NoBraces(e)
    decreases |e|
  {
    if e != "" {
      NoPairWithin(Front(e), Rest(e));
      NeverOpens(Rest(e));
      assert forall j :: 0 <= j < |e| - 1 ==> e[1..][j] == e[j + 1];
    }
  }

  lemma {:induction false} NoPairInPart(parts: seq<string>, i: nat)
    requires i < |parts| && NoPair(JoinSlash(parts))
    ensures NoPair(parts[i])
  {
    hide NoPair, JoinSlash;
    JoinIs(parts);
    if |parts| > 1 {
      NoPairWithin(parts[0], "/" + JoinSlash(parts[1..]));
      NoPairWithin("/", JoinSlash(parts[1..]));
      if i > 0 {
        NoPairInPart(parts[1..], i - 1);
      }
    }
  }

  lemma PlainMeans(t: string, words: seq<string>)
    requires NoBraces(t)
    ensures Means(t, words) <==> Meaning(Meant, Parts(t), words)
  {
    hide Meaning, IsExpansion, Parts;
    forall e
      ensures IsExpansion(t, e) <==> e == t
    {
      NoBracesExpand(t, e);
    }
  }

  lemma PlainReads(t: string, words: seq<string>)
    requires Plain(t) && WordsOk(words)
    ensures Reads(Segments(t, 0), words) <==> Meaning(Emitted, ReadParts(t), words)
  {
    hide Meaning, NoBraces;
    var segments := Segments(t, 0);
    assert forall i :: 0 <= i < |segments| ==> segments[i] in segments;
    SegmentsReadParts(segments, words);
  }

  /** What the compiled expression of a glob without braces matches: what the parts the compiler goes by take, their classes
      read as they were emitted. */
  lemma PlainGlobMatches(glob: string, words: seq<string>)
    requires Plain(Trimmed(glob)) && IsPath(words)
    ensures GlobMatches(glob, words) <==>
            && GlobInOrder(Trimmed(glob))
            && Good(Segments(Trimmed(glob), 0)) && Meaning(Emitted, ReadParts(Trimmed(glob)), words)
  {
    hide Matches, Meaning, Reads, Good, Plain, GlobInOrder, GlobMatches, PatternOf;
    CompilesIff(glob);
    GlobstarsMatch(glob, words);
    PlainReads(Trimmed(glob), words);
  }

  lemma {:induction false} EffectiveIsSlashFree(segments: seq<string>)
    ensures AllSlashFree(Effective(segments))
  {
    hide SlashFree;
    if segments != [] {
      EffectiveIsSlashFree(segments[1..]);
      var first := if IsGlobstar(segments[0]) then ["**"] else AllStarred(Parts(segments[0]));
      assert Effective(segments) == first + Effective(segments[1..]);
      PartsAre(segments[0]);
      SealedAreSlashFree(Parts(segments[0]));
      StarsAreSlashFree();
      assert AllSlashFree(first);
    }
  }

  lemma StarsAreSlashFree()
    ensures SlashFree("**") && SlashFree("*")
  {
    assert Front("**") == "*" && Rest("**") == "*" && Front("*") == "*" && Rest("*") == "";
  }

  /** Without an opening bracket the splitter finds the parts. */
  lemma {:induction false} NothingOpens(t: string)
    requires '[' !in t && '{' !in t
    ensures Segments(t, 0) == Parts(t)
  {
    if t != "" {
      assert t == [t[0]] + t[1..];
      NothingOpens(t[1..]);
      assert t[0] in t && Front(t) == [t[0]] && Rest(t) == t[1..];
    }
  }

  lemma {:induction false} JoinHasOnly(parts: seq<string>, c: char)
    requires c != '/' && forall i :: 0 <= i < |parts| ==> c !in parts[i]
    ensures c !in JoinSlash(parts)
  {
    JoinIs(parts);
    if |parts| > 1 {
      JoinHasOnly(parts[1..], c);
    }
  }

  /** A glob of nothing but globstars is not good. */
  lemma {:induction false} OnlyGlobstarsIsBad(t: string)
    requires WordsNeeded(Parts(t)) == 0
    ensures !Good(Segments(t, 0))
  {
    var parts := Parts(t);
    PartsAre(t);
    AllAreGlobstars(parts);
    JoinHasOnly(parts, '[');
    JoinHasOnly(parts, '{');
    NothingOpens(t);
  }

  lemma {:induction false} AllAreGlobstars(parts: seq<string>)
    requires WordsNeeded(parts) == 0
    ensures forall i :: 0 <= i < |parts| ==> parts[i] == "**"
  {
    if parts != [] {
      AllAreGlobstars(parts[1..]);
      assert forall i :: 0 < i < |parts| ==> parts[i] == parts[1..][i - 1];
    }
  }

  /** A glob that means some path loses it where the compiler goes by other parts. */
  lemma OtherPartsLose(t: string) returns (words: seq<string>)
    requires AllMatchable(Meant, Parts(t)) && Good(Segments(t, 0)) && ReadParts(t) != Parts(t)
    ensures IsPath(words) && Meaning(Meant, Parts(t), words) && !Meaning(Emitted, ReadParts(t), words)
  {
    hide Meaning, AllMatchable, Good, WordsNeeded, Effective, Parts;
    JoinOfSegments(t, 0);
    SplitsNeedMore(Segments(t, 0));
    if WordsNeeded(Parts(t)) == 0 {
      OnlyGlobstarsIsBad(t);
    }
    words := ShortestPath(Meant, Parts(t));
    if Meaning(Emitted, ReadParts(t), words) {
      MeaningIsLong(Emitted, ReadParts(t), words);
    }
  }

  /** What has to hold of a glob without braces that means some path: the splitter finds its parts, its globstars stand
      right, its classes have the members that are meant, slashes aside, and no slash one of them takes inside a part makes
      a difference. */
  ghost predicate Sound(t: string) {
    && ReadParts(t) == Parts(t) && Good(Segments(t, 0))
    && PartsAgree(Parts(t)) && SlashesAbsorbed(Parts(t))
  }

  /** Exactly when the compiler keeps the meaning of a glob without braces. */
  lemma MeaningWithoutBracesIsKeptIff(glob: string)
    requires Plain(Trimmed(glob))
    ensures var t := Trimmed(glob);
            Kept(glob) <==>
            && GlobInOrder(t)
            && if AllMatchable(Meant, Parts(t)) then Sound(t)
               else !(Good(Segments(t, 0)) && CanMatch(ReadParts(t)))
  {
    var t := Trimmed(glob);
    hide Meaning, Means, AllMatchable, Good, Plain, GlobInOrder, GlobMatches, PatternOf, PartsAgree, SlashesAbsorbed, CanMatch,
         Parts, ReadParts, IsPath, Trimmed;
    CompilesIff(glob);
    if GlobInOrder(t) {
      forall words | IsPath(words)
        ensures GlobMatches(glob, words) <==> Good(Segments(t, 0)) && Meaning(Emitted, ReadParts(t), words)
        ensures Means(t, words) <==> Meaning(Meant, Parts(t), words)
      {
        PlainGlobMatches(glob, words);
        assert NoBraces(t) by { PlainHasNone(t); }
        PlainMeans(t, words);
      }
      if AllMatchable(Meant, Parts(t)) {
        if !Good(Segments(t, 0)) {
          var words := SomePath(Meant, Parts(t));
        } else if ReadParts(t) != Parts(t) {
          var words := OtherPartsLose(t);
        } else {
          ReadingsAgreeIff(Parts(t));
        }
      } else {
        CanMean(t);
        ReadPartsAre(t);
        CanMatchIff(ReadParts(t));
      }
    }
  }

  lemma PlainHasNone(t: string)
    requires Plain(t)
    ensures NoBraces(t)
  {
  }

  lemma ReadPartsAre(t: string)
    ensures ReadParts(t) != [] && AllSlashFree(ReadParts(t))
  {
    EffectiveIsSlashFree(Segments(t, 0));
  }

  /** A sound glob keeps its meaning, whether it means any path or not. */
  lemma GlobPreservesMeaning(glob: string, words: seq<string>)
    requires Plain(Trimmed(glob)) && Sound(Trimmed(glob)) && IsPath(words)
    ensures GlobMatches(glob, words) <==> GlobInOrder(Trimmed(glob)) && Means(Trimmed(glob), words)
  {
    var t := Trimmed(glob);
    hide Meaning, Means, Good, GlobInOrder, GlobMatches, PatternOf, PartsAgree, SlashesAbsorbed, Parts, ReadParts, Trimmed;
    PlainGlobMatches(glob, words);
    PlainMeans(t, words);
    PartsAre(t);
    SealedAreSlashFree(Parts(t));
    AgreeWhenAbsorbed(Parts(t));
  }

  lemma SoundIsKept(glob: string)
    requires Plain(Trimmed(glob)) && Sound(Trimmed(glob)) && GlobInOrder(Trimmed(glob))
    ensures Kept(glob)
  {
    hide Means, Sound, Plain, GlobInOrder, GlobMatches, PatternOf, Trimmed, IsPath;
    CompilesIff(glob);
    forall words | IsPath(words)
      ensures GlobMatches(glob, words) <==> Means(Trimmed(glob), words)
    {
      GlobPreservesMeaning(glob, words);
    }
  }

  // ----- globs without brackets

  lemma {:induction false} SlashFreeIsOnePart(p: string)
    requires SlashFree(p)
    ensures Parts(p) == [p]
    decreases |p|
  {
    if p != "" {
      SlashFreeIsOnePart(Rest(p));
      assert p[..1] == [p[0]] && p == Front(p) + Rest(p);
    }
  }

  lemma {:induction false} PartsAreEffective(parts: seq<string>)
    requires AllSlashFree(parts)
    ensures Effective(parts) == parts
  {
    hide SlashFree, Parts;
    if parts != [] {
      var p, rest := parts[0], parts[1..];
      assert forall i :: 0 <= i < |rest| ==> rest[i] == parts[i + 1];
      PartsAreEffective(rest);
      SlashFreeIsOnePart(p);
      assert IsGlobstar(p) || AllStarred([p]) == [p];
      assert parts == [p] + rest;
    }
  }

  lemma {:induction false} NoClass(e: string)
    requires '[' !in e
    ensures ClassesAgree(e) && (forall first :: !SlashWithin(e, first)) && (!OpensBrace(e) && '{' !in e ==> SegmentInOrder(e))
    decreases |e|
  {
    if e != "" {
      assert e == Front(e) + Rest(e) && e[0] in e;
      NoClass(Rest(e));
      assert '{' !in e ==> '{' !in Rest(e);
      NotOpened(Rest(e));
    }
  }

  lemma NotOpened(e: string)
    ensures '{' !in e ==> !OpensBrace(e)
  {
    if e != "" {
      assert e[0] in e;
    }
  }

  /** Without an opening bracket or brace it is enough that the globstars stand right. */
  lemma {:induction false} WithoutBracketsIsSound(t: string)
    requires '[' !in t && '{' !in t && Good(Segments(t, 0))
    ensures Sound(t)
  {
    hide Good, Parts, Segments, ClassesAgree, SlashWithin, SlashFree;
    NothingOpens(t);
    PartsAre(t);
    SealedAreSlashFree(Parts(t));
    PartsAreEffective(Parts(t));
    PartsHaveNo(t, '[');
    forall i | 0 <= i < |Parts(t)|
      ensures ClassesAgree(Parts(t)[i]) && !SlashWithin(Parts(t)[i], true)
    {
      assert Parts(t)[i] in Parts(t);
      NoClass(Parts(t)[i]);
    }
  }
}
