/** Globs with braces: when each segment takes what its expansions mean, the glob keeps its meaning. */
module GlobBraces {
  import opened Regex
  import opened Glob
  import opened GlobMeaning
  import opened GlobPaths
  import opened GlobSegments
  import opened GlobWords
  import opened GlobSplits
  import opened GlobClasses
  import opened GlobReadings
  import opened GlobCorrect

  // ----- expansions of joined texts

  /** No bracket and no brace is left open. */
  predicate Contained(x: string)
    decreases |x|
  {
    if x == "" then true
    else if OpensBrace(x) then Contained(Behind(x))
    else Front(x) != "[" && Front(x) != "{" && Contained(Rest(x))
  }

  lemma {:induction false} BraceStays(a: string, t: string)
    requires OpensBrace(a)
    ensures OpensBrace(a + t) && OptionsOf(a + t) == OptionsOf(a) && Behind(a + t) == Behind(a) + t
  {
    var rest := a[1..];
    assert (a + t)[1..] == rest + t;
    FindInFront(rest, t, '}');
    assert (rest + t)[..Find(rest, '}')] == rest[..Find(rest, '}')];
  }

  lemma {:induction false} PieceStays(a: string, t: string)
    requires a != "" && !OpensBrace(a) && Front(a) != "[" && Front(a) != "{"
    ensures !OpensBrace(a + t) && Front(a + t) == Front(a) && Rest(a + t) == Rest(a) + t
  {
    assert a[..1] == [a[0]];
    FrontStays(a, t);
  }

  lemma NothingExpands()
    ensures forall e :: IsExpansion("", e) <==> e == ""
  {
  }

  lemma BraceStep(t: string, e: string) returns (k: nat)
    requires OpensBrace(t) && IsExpansion(t, e)
    ensures k < |OptionsOf(t)| && OptionsOf(t)[k] <= e && IsExpansion(Behind(t), e[|OptionsOf(t)[k]|..])
  {
    k :| 0 <= k < |OptionsOf(t)| && OptionsOf(t)[k] <= e && IsExpansion(Behind(t), e[|OptionsOf(t)[k]|..]);
  }

  lemma PieceStep(t: string, e: string)
    requires t != "" && !OpensBrace(t) && IsExpansion(t, e)
    ensures Front(t) <= e && IsExpansion(Rest(t), e[|Front(t)|..])
  {
  }

  lemma ContainedIs(a: string)
    requires a != "" && Contained(a)
    ensures OpensBrace(a) ==> Contained(Behind(a))
    ensures !OpensBrace(a) ==> Front(a) != "[" && Front(a) != "{" && Contained(Rest(a))
  {
  }

  /** A contained text expands on its own. */
  lemma {:induction false} ExpansionSplit(a: string, t: string, e: string) returns (u: string, v: string)
    requires Contained(a) && IsExpansion(a + t, e)
    ensures e == u + v && IsExpansion(a, u) && IsExpansion(t, v)
    decreases |a|
  {
    hide IsExpansion, Contained, Front, Rest, OptionsOf, Behind, OpensBrace;
    if a == "" {
      NothingExpands();
      u, v := "", e;
      assert a + t == t && u + v == e;
    } else {
      ContainedIs(a);
      var x, rest: string, k: nat := "", "", 0;
      if OpensBrace(a) {
        BraceStays(a, t);
        k := BraceStep(a + t, e);
        x, rest := OptionsOf(a)[k], Behind(a);
      } else {
        PieceStays(a, t);
        PieceStep(a + t, e);
        x, rest := Front(a), Rest(a);
      }
      u, v := ExpansionSplit(rest, t, e[|x|..]);
      if OpensBrace(a) {
        OptionThenMore(a, k, u);
      } else {
        ExpansionAfterPiece(a, u);
      }
      assert e == x + e[|x|..];
      u := x + u;
    }
  }

  lemma {:induction false} ExpansionJoin(a: string, t: string, u: string, v: string)
    requires Contained(a) && IsExpansion(a, u) && IsExpansion(t, v)
    ensures IsExpansion(a + t, u + v)
    decreases |a|
  {
    hide IsExpansion, Contained, Front, Rest, OptionsOf, Behind, OpensBrace;
    if a == "" {
      NothingExpands();
      assert a + t == t && u + v == v;
    } else {
      ContainedIs(a);
      if OpensBrace(a) {
        BraceStays(a, t);
        var k := BraceStep(a, u);
        var x := OptionsOf(a)[k];
        ExpansionJoin(Behind(a), t, u[|x|..], v);
        OptionThenMore(a + t, k, u[|x|..] + v);
        assert u + v == x + (u[|x|..] + v);
      } else {
        PieceStays(a, t);
        PieceStep(a, u);
        var x := Front(a);
        ExpansionJoin(Rest(a), t, u[|x|..], v);
        ExpansionAfterPiece(a + t, u[|x|..] + v);
        assert u + v == x + (u[|x|..] + v);
      }
    }
  }

  lemma ClosedIs(a: string)
    requires a != "" && Closed(a)
    ensures Front(a) != "[" && Closed(Rest(a))
    ensures a[0] == '/' ==> Rest(a) == a[1..]
  {
  }

  lemma {:induction false} ClosedParts(a: string, t: string)
    requires Closed(a)
    ensures Parts(a + ("/" + t)) == Parts(a) + Parts(t)
    decreases |a|
  {
    hide Parts, Closed, Front;
    PartsIs(a);
    if a == "" {
      PartsIs("/" + t);
      assert a + ("/" + t) == "/" + t && ("/" + t)[1..] == t;
    } else {
      ClosedIs(a);
      ClosedParts(Rest(a), t);
      if a[0] == '/' {
        PartsIs(a + ("/" + t));
        assert (a + ("/" + t))[1..] == a[1..] + ("/" + t);
        assert [""] + (Parts(a[1..]) + Parts(t)) == [""] + Parts(a[1..]) + Parts(t);
      } else {
        PartsBehind(a, "/" + t);
        PrependBoth(Front(a), Parts(Rest(a)), Parts(t));
      }
    }
  }

  // ----- segments that take what they mean

  ghost predicate SegmentRight(x: string) {
    && Contained(x) && (forall e :: IsExpansion(x, e) ==> Closed(e))
    && forall words :: WordsOk(words) ==> ((IsGlobstar(x) || SegmentTakes(x, words)) <==> Means(x, words))
  }

  lemma {:induction false} MeansSplit(x: string, t: string, words: seq<string>) returns (k: nat)
    requires Contained(x) && (forall e :: IsExpansion(x, e) ==> Closed(e)) && Means(x + ("/" + t), words)
    ensures k <= |words| && Means(x, words[..k]) && Means(t, words[k..])
  {
    hide Meaning, IsExpansion, Parts, Contained, Closed;
    var e :| IsExpansion(x + ("/" + t), e) && Meaning(Meant, Parts(e), words);
    var u, v := ExpansionSplit(x, "/" + t, e);
    SlashExpands(t, v);
    ClosedParts(u, v[1..]);
    k := MeaningSplit(Meant, Parts(u), Parts(v[1..]), words);
  }

  lemma SlashExpands(t: string, v: string)
    ensures IsExpansion("/" + t, v) <==> v != "" && v == "/" + v[1..] && IsExpansion(t, v[1..])
  {
    CharFront('/', t);
    assert !OpensBrace("/" + t);
  }

  lemma {:induction false} MeansJoin(x: string, t: string, words: seq<string>, k: nat)
    requires Contained(x) && (forall e :: IsExpansion(x, e) ==> Closed(e))
    requires k <= |words| && Means(x, words[..k]) && Means(t, words[k..])
    ensures Means(x + ("/" + t), words)
  {
    hide Meaning, IsExpansion, Parts, Contained, Closed;
    var u :| IsExpansion(x, u) && Meaning(Meant, Parts(u), words[..k]);
    var v :| IsExpansion(t, v) && Meaning(Meant, Parts(v), words[k..]);
    assert ("/" + v)[1..] == v;
    SlashExpands(t, "/" + v);
    ExpansionJoin(x, "/" + t, u, "/" + v);
    ClosedParts(u, v);
    MeaningJoin(Meant, Parts(u), Parts(v), words[..k], words[k..]);
    assert words == words[..k] + words[k..];
  }

  /** Segments that take what they mean read, joined, what they mean joined. */
  lemma {:induction false} RightSegmentsMean(segments: seq<string>, words: seq<string>)
    requires segments != [] && WordsOk(words) && forall i :: 0 <= i < |segments| ==> SegmentRight(segments[i])
    ensures Reads(segments, words) <==> Means(JoinSlash(segments), words)
    decreases |segments|
  {
    hide Means, SegmentTakes, Contained, Closed, IsExpansion, JoinSlash, WordOk;
    var x, rest := segments[0], segments[1..];
    assert SegmentRight(x) && forall i :: 0 <= i < |rest| ==> rest[i] == segments[i + 1];
    JoinIs(segments);
    if rest == [] {
      assert words[..|words|] == words && words[|words|..] == [];
      assert forall k :: 0 <= k <= |words| && Reads(rest, words[k..]) ==> words[..k] == words;
    } else {
      forall k | 0 <= k <= |words|
        ensures Reads(rest, words[k..]) <==> Means(JoinSlash(rest), words[k..])
      {
        RightSegmentsMean(rest, words[k..]);
      }
      if Means(JoinSlash(segments), words) {
        var k := MeansSplit(x, JoinSlash(rest), words);
      }
      if Reads(segments, words) {
        var k :| 0 <= k <= |words| && (IsGlobstar(x) || SegmentTakes(x, words[..k])) && Reads(rest, words[k..]);
        MeansJoin(x, JoinSlash(rest), words, k);
      }
    }
  }

  /** A globstar means what it takes. */
  lemma {:induction false} GlobstarIsRight()
    ensures SegmentRight("**")
  {
    assert Front("**") == "*" && Rest("**") == "*" && Front("*") == "*" && Rest("*") == "";
    assert Contained("*") && NoBraces("*") && Closed("*");
    TwoStarsAlone();
    hide Parts;
    forall words | WordsOk(words)
      ensures Means("**", words)
    {
      PlainMeans("**", words);
      GlobstarTakesAll(Meant, words);
    }
    forall e
      ensures IsExpansion("**", e) <==> e == "**"
    {
      NoBracesExpand("**", e);
    }
  }

  // ----- braces inside a segment

  /** Parts none of which is a globstar, whose classes have the members that are meant and take no slash inside. */
  ghost predicate PartsSimple(parts: seq<string>) {
    forall i :: 0 <= i < |parts| ==> !IsGlobstar(parts[i]) && ClassesAgree(parts[i]) && !SlashWithin(parts[i], true)
  }

  /** A segment with tame options, all of whose expansions are simple. */
  ghost predicate InnerBraces(x: string) {
    Contained(x) && Tame(x) && forall e :: IsExpansion(x, e) ==> PartsSimple(Parts(e))
  }

  lemma TameIs(x: string)
    requires x != "" && Tame(x)
    ensures OpensBrace(x) ==> Tame(Behind(x)) && forall option :: option in OptionsOf(x) ==> OptionTame(option)
    ensures !OpensBrace(x) ==> Front(x) != "[" && Tame(Rest(x))
  {
  }

  lemma {:induction false} TameIsClosed(x: string, e: string)
    requires Tame(x) && IsExpansion(x, e)
    ensures Closed(e)
    decreases |x|
  {
    hide IsExpansion, Tame, OptionTame, Closed, OptionsOf, Behind, Front, Rest, OpensBrace;
    if x == "" {
      NothingExpands();
      NothingIsOpen();
    } else {
      TameIs(x);
      var y: string;
      if OpensBrace(x) {
        var k := BraceStep(x, e);
        y := OptionsOf(x)[k];
        assert y in OptionsOf(x);
        TameOptionIsClosed(y);
        TameIsClosed(Behind(x), e[|y|..]);
      } else {
        PieceStep(x, e);
        y := Front(x);
        ClosedPiece(x);
        TameIsClosed(Rest(x), e[|y|..]);
      }
      ClosedAppend(y, e[|y|..]);
      assert e == y + e[|y|..];
    }
  }

  lemma SimpleIsSlashFree(e: string)
    ensures SealedParts(Parts(e)) && AllSlashFree(Parts(e)) && JoinSlash(Parts(e)) == e && Parts(e) != []
  {
    PartsAre(e);
    SealedAreSlashFree(Parts(e));
  }

  lemma SimpleIsStarred(parts: seq<string>)
    requires PartsSimple(parts)
    ensures AllStarred(parts) == parts && PartsAgree(parts) && SlashesAbsorbed(parts) && WordsNeeded(parts) == |parts|
  {
    hide ClassesAgree, SlashWithin;
    NoneStarred(parts);
    assert forall i :: 0 <= i < |parts| ==> Starred(parts[i]) == parts[i];
  }

  /** Simple expansions take stretches as they mean them. */
  lemma {:induction false} SimpleTakes(e: string, words: seq<string>)
    requires PartsSimple(Parts(e)) && WordsOk(words)
    ensures PartTakes(Emitted, e, words) <==> Meaning(Meant, Parts(e), words)
  {
    hide Meaning, Wild, Parts, PartsSimple, PartsAgree, SlashesAbsorbed, SealedParts, AllSlashFree, PartTakes, JoinSlash, WordOk;
    SimpleIsSlashFree(e);
    SimpleIsStarred(Parts(e));
    TextIsItsParts(Parts(e), words);
    if words == [] {
      NothingTaken(Parts(e));
    } else {
      AgreeWhenAbsorbed(Parts(e));
      assert ReadingsAgree(Parts(e)) && IsPath(words);
    }
  }

  lemma NothingTaken(parts: seq<string>)
    requires parts != [] && WordsNeeded(parts) == |parts|
    ensures !Meaning(Meant, parts, []) && !Meaning(Emitted, parts, [])
  {
    hide Meaning;
    if Meaning(Meant, parts, []) {
      MeaningIsLong(Meant, parts, []);
    }
    if Meaning(Emitted, parts, []) {
      MeaningIsLong(Emitted, parts, []);
    }
  }

  lemma {:induction false} InnerBracesAreRight(x: string)
    requires InnerBraces(x) && !IsGlobstar(x)
    ensures SegmentRight(x)
  {
    hide Meaning, Wild, Parts, PartsSimple, IsExpansion, Tame, Contained, Closed, SegmentParts, Matches;
    forall e | IsExpansion(x, e)
      ensures Closed(e)
    {
      TameIsClosed(x, e);
    }
    forall words | WordsOk(words)
      ensures SegmentTakes(x, words) <==> Means(x, words)
    {
      TameSegment(x, JoinSlash(words));
      forall e | IsExpansion(x, e)
        ensures PartTakes(Emitted, e, words) <==> Meaning(Meant, Parts(e), words)
      {
        SimpleTakes(e, words);
      }
    }
  }

  // ----- a segment that is a brace

  /** A segment that is one brace, whose options are sound globs: they may hold globstars. */
  ghost predicate WholeBrace(x: string) {
    OpensBrace(x) && Behind(x) == "" && forall option :: option in OptionsOf(x) ==> Closed(option) && Sound(option)
  }

  lemma {:induction false} WholeBraceExpands(x: string, e: string)
    requires OpensBrace(x) && Behind(x) == ""
    ensures IsExpansion(x, e) <==> e in OptionsOf(x)
  {
    hide IsExpansion, OptionsOf, Behind;
    NothingExpands();
    if IsExpansion(x, e) {
      var k := BraceStep(x, e);
      assert e == OptionsOf(x)[k] + e[|OptionsOf(x)[k]|..];
    }
    if e in OptionsOf(x) {
      var k :| 0 <= k < |OptionsOf(x)| && OptionsOf(x)[k] == e;
      OptionThenMore(x, k, "");
      assert e + "" == e;
    }
  }

  lemma {:induction false} OptionTakes(option: string, words: seq<string>)
    requires '}' !in option && Sound(option) && IsPath(words)
    ensures Matches(CatAll(GlobParts(option)), JoinSlash(words)) <==> Meaning(Meant, Parts(option), words)
  {
    hide Matches, Meaning, Parts, Reads, Good, NoBraces, PartsAgree, SlashesAbsorbed, ReadParts, IsPath;
    PartsMatch(option, words);
    CharsOfSegments(option, 0, '}');
    forall segment | segment in Segments(option, 0)
      ensures NoBraces(segment)
    {
      NoCloser(segment);
    }
    NoCloser(option);
    assert WordsOk(words) by { PathIsOk(words); }
    PlainReads(option, words);
    SimpleIsSlashFree(option);
    AgreeWhenAbsorbed(Parts(option));
  }

  lemma PathIsOk(words: seq<string>)
    requires IsPath(words)
    ensures WordsOk(words)
  {
  }

  lemma {:induction false} WholeBraceTakes(x: string, words: seq<string>)
    requires WholeBrace(x) && IsPath(words)
    ensures SegmentTakes(x, words) <==> Means(x, words)
  {
    hide Matches, Meaning, Parts, Sound, AltAll, IsExpansion, IsPath, Closed;
    var options, s := OptionsOf(x), JoinSlash(words);
    var compiled := Alternatives(options, Find(x[1..], '}'));
    ScanBrace(x);
    assert SegmentParts(Behind(x)) == [] by { NothingAccepted(); }
    assert [AltAll(compiled)] + [] == [AltAll(compiled)];
    JustOne(AltAll(compiled), s);
    AltAllIsSome(compiled, s);
    OptionsHaveNoCloser(x);
    forall k | 0 <= k < |options|
      ensures Matches(compiled[k], s) <==> Meaning(Meant, Parts(options[k]), words)
    {
      assert options[k] in options;
      OptionTakes(options[k], words);
    }
    forall e
      ensures IsExpansion(x, e) <==> e in options
    {
      WholeBraceExpands(x, e);
    }
    assert words != [] by { PathIsSome(words); }
    hide SegmentParts, Alternatives, OptionsOf;
    assert SegmentTakes(x, words) <==> exists k :: 0 <= k < |options| && Matches(compiled[k], s);
    assert Means(x, words) <==> exists e :: e in options && Meaning(Meant, Parts(e), words);
  }

  lemma PathIsSome(words: seq<string>)
    requires IsPath(words)
    ensures words != []
  {
  }

  lemma SoundNeedsWords(t: string)
    requires Sound(t)
    ensures !Meaning(Meant, Parts(t), [])
  {
    hide Meaning, Parts, Good;
    if Meaning(Meant, Parts(t), []) {
      MeaningIsLong(Meant, Parts(t), []);
      OnlyGlobstarsIsBad(t);
    }
  }

  lemma {:induction false} WholeBraceIsRight(x: string)
    requires WholeBrace(x)
    ensures SegmentRight(x)
  {
    hide Meaning, Parts, Sound, IsExpansion, Closed, SegmentParts, Matches, OptionsOf;
    assert Contained("") && !IsGlobstar(x);
    forall e
      ensures IsExpansion(x, e) <==> e in OptionsOf(x)
    {
      WholeBraceExpands(x, e);
    }
    forall words | WordsOk(words)
      ensures SegmentTakes(x, words) <==> Means(x, words)
    {
      if words == [] {
        forall e | IsExpansion(x, e)
          ensures !Meaning(Meant, Parts(e), words)
        {
          SoundNeedsWords(e);
        }
      } else {
        WholeBraceTakes(x, words);
      }
    }
  }

  // ----- globs with braces

  /** Every segment is a globstar, has its braces inside, or is one brace. */
  ghost predicate BracesSound(t: string) {
    forall i :: 0 <= i < |Segments(t, 0)| ==>
      var x := Segments(t, 0)[i]; IsGlobstar(x) || InnerBraces(x) || WholeBrace(x)
  }

  lemma {:induction false} BracesMean(t: string, words: seq<string>)
    requires BracesSound(t) && WordsOk(words)
    ensures Reads(Segments(t, 0), words) <==> Means(t, words)
  {
    hide Means, Reads, InnerBraces, WholeBrace, SegmentRight, WordOk;
    var segments := Segments(t, 0);
    JoinOfSegments(t, 0);
    forall i | 0 <= i < |segments|
      ensures SegmentRight(segments[i])
    {
      if IsGlobstar(segments[i]) {
        GlobstarIsRight();
      } else if InnerBraces(segments[i]) {
        InnerBracesAreRight(segments[i]);
      } else {
        WholeBraceIsRight(segments[i]);
      }
    }
    RightSegmentsMean(segments, words);
  }

  /** Exactly when the compiler keeps the meaning of a glob whose segments are sound, with braces or without: when the
      engine takes it and its globstars stand right, or none of its expansions means any path. */
  lemma MeaningIsKeptIff(glob: string)
    requires BracesSound(Trimmed(glob))
    ensures var t := Trimmed(glob);
            Kept(glob) <==>
            && GlobInOrder(t)
            && (Good(Segments(t, 0)) || !exists e :: IsExpansion(t, e) && AllMatchable(Meant, Parts(e)))
  {
    var t := Trimmed(glob);
    hide Means, Reads, Good, GlobInOrder, Kept, BracesSound, Parts, AllMatchable, IsExpansion, Trimmed;
    KeptIff(glob);
    forall words | IsPath(words)
      ensures Reads(Segments(t, 0), words) <==> Means(t, words)
    {
      BracesMean(t, words);
    }
  }
}
