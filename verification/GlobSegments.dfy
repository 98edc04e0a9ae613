/** What the expression of one segment matches, and when the engine takes it. */
module GlobSegments {
  import opened Regex
  import opened Glob
  import opened GlobMeaning
  import opened GlobPaths

  // ----- the scan of a segment, piece by piece

  /** No brace is closed outside of a class, so none is expanded. */
  predicate NoBraces(e: string)
    decreases |e|
  {
    e == "" || (!OpensBrace(e) && NoBraces(Rest(e)))
  }

  lemma {:induction false} NoCloser(e: string)
    requires '}' !in e
    ensures NoBraces(e)
    decreases |e|
  {
    if e != "" {
      assert e == Front(e) + Rest(e);
      NoCloser(Rest(e));
    }
  }

  lemma {:induction false} NoBracesExpand(t: string, e: string)
    requires NoBraces(t)
    ensures IsExpansion(t, e) <==> e == t
    decreases |t|
  {
    if t != "" {
      var x := Front(t);
      assert t == x + Rest(t);
      if x <= e {
        NoBracesExpand(Rest(t), e[|x|..]);
        assert e == x + e[|x|..];
      }
    }
  }

  /** The piece a character that opens nothing compiles to, and a class. */
  function PieceOf(x: string): Re
    requires x != "" && x != "*"
  {
    if x == "?" then One(NotSlash) else if IsClass(x) then One(ClassSet(Inside(x))) else Literal(x[0])
  }

  lemma {:induction false} ScanPiece(e: string)
    requires e != "" && e[0] != '*' && !OpensBrace(e)
    ensures SegmentParts(e) == [PieceOf(Front(e))] + SegmentParts(Rest(e))
  {
    if e[0] == '[' && Find(e[1..], ']') >= 0 {
      var close := Find(e[1..], ']');
      assert Inside(Front(e)) == e[1..][..close] && Rest(e) == e[1..][close + 1..];
    }
  }

  lemma {:induction false} ScanStars(e: string)
    requires e != "" && e[0] == '*'
    ensures SegmentParts(e) == [NO_SLASHES] + SegmentParts(DropStars(e[1..]))
    ensures Front(e) == "*" && Rest(e) == e[1..]
  {
  }

  lemma {:induction false} ScanBrace(e: string)
    requires OpensBrace(e)
    ensures SegmentParts(e)
         == [AltAll(Alternatives(OptionsOf(e), Find(e[1..], '}')))] + SegmentParts(Behind(e))
  {
  }

  /** A piece compiles to what takes the same strings. */
  lemma PieceMatches(x: string, s: string)
    requires x != "" && x != "*" && (IsClass(x) || |x| == 1)
    ensures Matches(PieceOf(x), s) <==> Takes(Emitted, x, s)
  {
  }

  lemma WildStarInFront(reading: Reading, y: string, s: string)
    requires y != "" && y[0] == '*'
    ensures (exists j :: 0 <= j <= |s| && '/' !in s[..j] && Wild(reading, y, s[j..]))
       <==> (exists j :: 0 <= j <= |s| && '/' !in s[..j] && Wild(reading, y[1..], s[j..]))
  {
    hide Wild;
    assert Front(y) == "*" && Rest(y) == y[1..];
    if j :| 0 <= j <= |s| && '/' !in s[..j] && Wild(reading, y, s[j..]) {
      var k := WildStep(reading, y, s[j..]);
      assert s[..j + k] == s[..j] + s[j..][..k] && s[j + k..] == s[j..][k..];
      assert '/' !in s[..j + k] && Wild(reading, y[1..], s[j + k..]);
    }
    if j :| 0 <= j <= |s| && '/' !in s[..j] && Wild(reading, y[1..], s[j..]) {
      WildMore(reading, y, "", s[j..]);
      assert "" + s[j..] == s[j..];
    }
  }

  lemma {:induction false} StarsCollapse(reading: Reading, y: string, s: string)
    ensures (exists j :: 0 <= j <= |s| && '/' !in s[..j] && Wild(reading, y, s[j..]))
       <==> (exists j :: 0 <= j <= |s| && '/' !in s[..j] && Wild(reading, DropStars(y), s[j..]))
    decreases |y|
  {
    hide Wild;
    if y != "" && y[0] == '*' {
      WildStarInFront(reading, y, s);
      StarsCollapse(reading, y[1..], s);
    }
  }

  lemma {:induction false} DropStarsNoBraces(y: string)
    requires NoBraces(y)
    ensures NoBraces(DropStars(y))
  {
    if y != "" && y[0] == '*' {
      assert Rest(y) == y[1..];
      DropStarsNoBraces(y[1..]);
    }
  }

  /** The expression of a segment without braces matches what its emitted reading takes. */
  lemma {:induction false} PlainSegment(e: string, s: string)
    requires NoBraces(e)
    ensures Matches(CatAll(SegmentParts(e)), s) <==> Wild(Emitted, e, s)
    decreases |e|
  {
    hide Matches, Wild, Takes;
    if e == "" {
      NothingSegment(s);
    } else if e[0] == '*' {
      StarSegment(e, s);
    } else {
      ScanPiece(e);
      OnePiece(PieceOf(Front(e)), SegmentParts(Rest(e)), s);
      forall i | 0 <= i <= |s|
        ensures Matches(PieceOf(Front(e)), s[..i]) <==> Takes(Emitted, Front(e), s[..i])
        ensures Matches(CatAll(SegmentParts(Rest(e))), s[i..]) <==> Wild(Emitted, Rest(e), s[i..])
      {
        PieceMatches(Front(e), s[..i]);
        PlainSegment(Rest(e), s[i..]);
      }
      WildSteps(Emitted, e, s);
    }
  }

  lemma WildSteps(reading: Reading, e: string, s: string)
    requires e != ""
    ensures Wild(reading, e, s) <==>
            exists j :: 0 <= j <= |s| && Takes(reading, Front(e), s[..j]) && Wild(reading, Rest(e), s[j..])
  {
  }

  lemma NothingSegment(s: string)
    ensures Matches(CatAll(SegmentParts("")), s) <==> Wild(Emitted, "", s)
  {
  }

  lemma {:induction false} StarSegment(e: string, s: string)
    requires NoBraces(e) && e != "" && e[0] == '*'
    ensures Matches(CatAll(SegmentParts(e)), s) <==> Wild(Emitted, e, s)
    decreases |e|, 0
  {
    hide Matches, Wild;
    ScanStars(e);
    var rest := DropStars(e[1..]);
    DropStarsNoBraces(e[1..]);
    OnePiece(NO_SLASHES, SegmentParts(rest), s);
    forall i | 0 <= i <= |s|
      ensures Matches(NO_SLASHES, s[..i]) <==> '/' !in s[..i]
      ensures Matches(CatAll(SegmentParts(rest)), s[i..]) <==> Wild(Emitted, rest, s[i..])
    {
      RunOfNonSlashes(s[..i]);
      PlainSegment(rest, s[i..]);
    }
    WildSteps(Emitted, e, s);
    StarsCollapse(Emitted, e[1..], s);
  }

  // ----- braces

  /** An option that reads on its own as it does inside its segment: no bracket of it is left open, and no part of it is
      a globstar. */
  predicate OptionTame(option: string) {
    forall p :: p in Segments(option, 0) ==> Closed(p) && !IsGlobstar(p)
  }

  /** A segment whose brackets are closed and whose options are tame. */
  predicate Tame(segment: string)
    decreases |segment|
  {
    if segment == "" then true
    else if OpensBrace(segment) then
      (forall option :: option in OptionsOf(segment) ==> OptionTame(option)) && Tame(Behind(segment))
    else
      Front(segment) != "[" && Tame(Rest(segment))
  }

  /** Joining the segments gives back the text. */
  lemma {:induction false} JoinOfSegments(t: string, depth: nat)
    ensures JoinSlash(Segments(t, depth)) == t
  {
    if t != "" {
      var next := DepthAfter(depth, t[0]);
      var rest := Segments(t[1..], next);
      JoinOfSegments(t[1..], next);
      assert t == [t[0]] + t[1..];
      if t[0] == '/' && next == 0 {
        assert ([""] + rest)[1..] == rest;
      } else {
        assert ([[t[0]] + rest[0]] + rest[1..])[1..] == rest[1..];
        if |rest| > 1 {
          assert [t[0]] + rest[0] + "/" + JoinSlash(rest[1..]) == [t[0]] + (rest[0] + "/" + JoinSlash(rest[1..]));
        }
      }
    }
  }

  lemma {:induction false} SlashBetweenWild(reading: Reading, a: string, b: string, s: string)
    requires Sealed(a, "/" + b)
    ensures Wild(reading, a + "/" + b, s) <==>
            exists i :: 0 <= i < |s| && s[i] == '/' && Wild(reading, a, s[..i]) && Wild(reading, b, s[i + 1..])
  {
    hide Wild;
    var slash := "/" + b;
    assert a + "/" + b == a + slash;
    CharFront('/', b);
    if Wild(reading, a + slash, s) {
      var i := WildSplit(reading, a, slash, s);
      var j := WildStep(reading, slash, s[i..]);
      assert s[i..][..j] == "/" && s[i..][0] == s[i] && s[i..][1..] == s[i + 1..];
    }
    if i :| 0 <= i < |s| && s[i] == '/' && Wild(reading, a, s[..i]) && Wild(reading, b, s[i + 1..]) {
      WildMore(reading, slash, "/", s[i + 1..]);
      WildJoin(reading, a, slash, s[..i], "/" + s[i + 1..]);
      assert s[..i] + ("/" + s[i + 1..]) == s;
    }
  }

  ghost predicate TameParts(parts: seq<string>, bound: nat) {
    forall i :: 0 <= i < |parts| ==> Closed(parts[i]) && !IsGlobstar(parts[i]) && '}' !in parts[i] && |parts[i]| <= bound
  }

  lemma TameSourceIs(parts: seq<string>, bound: nat)
    requires TameParts(parts, bound)
    ensures parts == [] ==> SourceParts(parts, false, bound) == []
    ensures |parts| == 1 ==> SourceParts(parts, false, bound) == SegmentParts(parts[0])
    ensures |parts| > 1 ==>
              && TameParts(parts[1..], bound)
              && SourceParts(parts, false, bound)
              == SegmentParts(parts[0]) + [Literal('/')] + SourceParts(parts[1..], false, bound)
  {
    hide SegmentParts, Closed;
    if parts != [] {
      assert forall i :: 0 <= i < |parts[1..]| ==> parts[1..][i] == parts[i + 1];
      assert |parts| == 1 ==> SourceParts(parts[1..], false, bound) == [];
    }
  }

  lemma {:induction false} TameSource(parts: seq<string>, bound: nat, s: string)
    requires TameParts(parts, bound)
    ensures Matches(CatAll(SourceParts(parts, false, bound)), s) <==> Wild(Emitted, JoinSlash(parts), s)
    decreases |parts|
  {
    hide Matches, Wild, SegmentParts, SourceParts, Closed, CatAll;
    TameSourceIs(parts, bound);
    if parts == [] {
      NothingSegment(s);
      assert SegmentParts("") == [] by { NothingAccepted(); }
    } else {
      var p, rest := parts[0], parts[1..];
      NoCloser(p);
      if rest == [] {
        PlainSegment(p, s);
      } else {
        SlashBetween(SegmentParts(p), SourceParts(rest, false, bound), s);
        SlashBetweenWild(Emitted, p, JoinSlash(rest), s);
        forall i | 0 <= i < |s|
          ensures Matches(CatAll(SegmentParts(p)), s[..i]) <==> Wild(Emitted, p, s[..i])
          ensures Matches(CatAll(SourceParts(rest, false, bound)), s[i + 1..]) <==> Wild(Emitted, JoinSlash(rest), s[i + 1..])
        {
          PlainSegment(p, s[..i]);
          TameSource(rest, bound, s[i + 1..]);
        }
      }
    }
  }

  lemma {:induction false} CharsOfSegments(t: string, depth: nat, c: char)
    requires c !in t
    ensures forall p :: p in Segments(t, depth) ==> c !in p
  {
    if t != "" {
      var next := DepthAfter(depth, t[0]);
      CharsOfSegments(t[1..], next, c);
    }
  }

  lemma OptionMatches(option: string, s: string)
    requires OptionTame(option) && '}' !in option
    ensures Matches(CatAll(GlobParts(option)), s) <==> Wild(Emitted, option, s)
  {
    hide Matches, Wild, Closed;
    var parts := Segments(option, 0);
    CharsOfSegments(option, 0, '}');
    JoinOfSegments(option, 0);
    assert forall i :: 0 <= i < |parts| ==> parts[i] in parts;
    TameSource(parts, |option|, s);
  }

  lemma {:induction false} SplitHasOnly(s: string, sep: char, c: char)
    requires c !in s
    ensures forall piece :: piece in SplitOn(s, sep) ==> c !in piece
  {
    if s != "" {
      SplitHasOnly(s[1..], sep, c);
    }
  }

  lemma OptionsHaveNoCloser(t: string)
    requires OpensBrace(t)
    ensures forall option :: option in OptionsOf(t) ==> '}' !in option
  {
    SplitHasOnly(t[1..][..Find(t[1..], '}')], ',', '}');
  }

  /** A brace's alternatives match what one of its options takes. */
  lemma {:induction false} BraceMatches(t: string, s: string)
    requires OpensBrace(t) && forall option :: option in OptionsOf(t) ==> OptionTame(option)
    ensures Matches(AltAll(Alternatives(OptionsOf(t), Find(t[1..], '}'))), s)
       <==> exists k :: 0 <= k < |OptionsOf(t)| && Wild(Emitted, OptionsOf(t)[k], s)
  {
    hide Matches, Wild, OptionTame, AltAll;
    var options := OptionsOf(t);
    var compiled := Alternatives(options, Find(t[1..], '}'));
    AltAllIsSome(compiled, s);
    OptionsHaveNoCloser(t);
    forall k | 0 <= k < |options|
      ensures Matches(compiled[k], s) <==> Wild(Emitted, options[k], s)
    {
      assert options[k] in options;
      OptionMatches(options[k], s);
    }
  }

  /** Some expansion of a segment takes a string. */
  ghost predicate Expanded(segment: string, s: string) {
    exists e :: IsExpansion(segment, e) && Wild(Emitted, e, s)
  }

  lemma {:induction false} TameOptionIsClosed(option: string)
    requires OptionTame(option)
    ensures Closed(option)
  {
    var parts := Segments(option, 0);
    JoinOfSegments(option, 0);
    assert forall i :: 0 <= i < |parts| ==> parts[i] in parts;
    JoinedIsClosed(parts);
  }

  lemma {:induction false} ClosedAppend(a: string, t: string)
    requires Closed(a)
    ensures Closed(a + t) <==> Closed(t)
    decreases |a|
  {
    if a == "" {
      assert a + t == t;
    } else {
      FrontAppend(a, t);
      ClosedAppend(Rest(a), t);
    }
  }

  lemma SlashCloses(t: string)
    ensures Closed("/" + t) <==> Closed(t)
  {
    CharFront('/', t);
  }

  lemma {:induction false} JoinedIsClosed(parts: seq<string>)
    requires forall i :: 0 <= i < |parts| ==> Closed(parts[i])
    ensures Closed(JoinSlash(parts))
  {
    hide Closed, JoinSlash;
    JoinIs(parts);
    if |parts| > 1 {
      var rest := parts[1..];
      assert forall i :: 0 <= i < |rest| ==> rest[i] == parts[i + 1];
      JoinedIsClosed(rest);
      SlashCloses(JoinSlash(rest));
      ClosedAppend(parts[0], "/" + JoinSlash(rest));
    } else if parts == [] {
      assert Closed("") by { NothingIsOpen(); }
    }
  }

  lemma NothingIsOpen()
    ensures Closed("")
  {
  }

  lemma {:induction false} BraceTaken(t: string, s: string) returns (i: nat, k: nat)
    requires OpensBrace(t) && (forall option :: option in OptionsOf(t) ==> Closed(option)) && Expanded(t, s)
    ensures i <= |s| && k < |OptionsOf(t)| && Wild(Emitted, OptionsOf(t)[k], s[..i]) && Expanded(Behind(t), s[i..])
  {
    hide Wild, Closed, OptionsOf, Behind;
    var e :| IsExpansion(t, e) && Wild(Emitted, e, s);
    k :| 0 <= k < |OptionsOf(t)| && OptionsOf(t)[k] <= e && IsExpansion(Behind(t), e[|OptionsOf(t)[k]|..]);
    hide IsExpansion;
    var option, tail := OptionsOf(t)[k], e[|OptionsOf(t)[k]|..];
    assert option in OptionsOf(t) && e == option + tail;
    i := WildSplit(Emitted, option, tail, s);
  }

  lemma OptionThenMore(t: string, k: nat, e: string)
    requires OpensBrace(t) && k < |OptionsOf(t)| && IsExpansion(Behind(t), e)
    ensures IsExpansion(t, OptionsOf(t)[k] + e)
  {
    hide OptionsOf, Behind;
    var option := OptionsOf(t)[k];
    assert option <= option + e && (option + e)[|option|..] == e;
  }

  lemma {:induction false} BraceExpands(t: string, s: string, i: nat, k: nat)
    requires OpensBrace(t) && forall option :: option in OptionsOf(t) ==> Closed(option)
    requires i <= |s| && k < |OptionsOf(t)| && Wild(Emitted, OptionsOf(t)[k], s[..i]) && Expanded(Behind(t), s[i..])
    ensures Expanded(t, s)
  {
    hide Wild, Closed, OptionsOf, Behind, IsExpansion, OpensBrace;
    var option := OptionsOf(t)[k];
    var e :| IsExpansion(Behind(t), e) && Wild(Emitted, e, s[i..]);
    OptionThenMore(t, k, e);
    assert option in OptionsOf(t);
    WildJoin(Emitted, option, e, s[..i], s[i..]);
    assert s[..i] + s[i..] == s;
  }

  lemma {:induction false} ExpandedBrace(t: string, s: string)
    requires OpensBrace(t) && forall option :: option in OptionsOf(t) ==> Closed(option)
    ensures Expanded(t, s) <==>
            exists i, k :: 0 <= i <= |s| && 0 <= k < |OptionsOf(t)|
                           && Wild(Emitted, OptionsOf(t)[k], s[..i]) && Expanded(Behind(t), s[i..])
  {
    hide Wild, Closed, OptionsOf, Behind, Expanded;
    if Expanded(t, s) {
      var i, k := BraceTaken(t, s);
    }
    if i, k :| 0 <= i <= |s| && 0 <= k < |OptionsOf(t)| && Wild(Emitted, OptionsOf(t)[k], s[..i]) && Expanded(Behind(t), s[i..]) {
      BraceExpands(t, s, i, k);
    }
  }

  lemma {:induction false} ExpandedPiece(t: string, s: string)
    requires t != "" && !OpensBrace(t) && Front(t) != "["
    ensures Expanded(t, s) <==>
            exists i :: 0 <= i <= |s| && Takes(Emitted, Front(t), s[..i]) && Expanded(Rest(t), s[i..])
  {
    hide Takes, Expanded, Wild;
    if Expanded(t, s) {
      var i := PieceTaken(t, s);
    }
    if i :| 0 <= i <= |s| && Takes(Emitted, Front(t), s[..i]) && Expanded(Rest(t), s[i..]) {
      PieceExpands(t, s, i);
    }
  }

  lemma {:induction false} PieceTaken(t: string, s: string) returns (i: nat)
    requires t != "" && !OpensBrace(t) && Front(t) != "[" && Expanded(t, s)
    ensures i <= |s| && Takes(Emitted, Front(t), s[..i]) && Expanded(Rest(t), s[i..])
  {
    hide Wild, Takes;
    var x := Front(t);
    var e :| IsExpansion(t, e) && Wild(Emitted, e, s);
    var e' := e[|x|..];
    assert x <= e && IsExpansion(Rest(t), e');
    hide IsExpansion;
    PieceThenMore(t, e');
    assert e == x + e';
    i := WildStep(Emitted, e, s);
  }

  lemma ExpansionAfterPiece(t: string, e: string)
    requires t != "" && !OpensBrace(t) && IsExpansion(Rest(t), e)
    ensures IsExpansion(t, Front(t) + e)
  {
    hide Rest, Front, OpensBrace;
    assert Front(t) <= Front(t) + e && (Front(t) + e)[|Front(t)|..] == e;
  }

  lemma {:induction false} PieceExpands(t: string, s: string, i: nat)
    requires t != "" && !OpensBrace(t) && Front(t) != "["
    requires i <= |s| && Takes(Emitted, Front(t), s[..i]) && Expanded(Rest(t), s[i..])
    ensures Expanded(t, s)
  {
    hide Wild, Takes, IsExpansion, Rest, Front, OpensBrace;
    var e :| IsExpansion(Rest(t), e) && Wild(Emitted, e, s[i..]);
    PieceThenMore(t, e);
    ExpansionAfterPiece(t, e);
    WildMore(Emitted, Front(t) + e, s[..i], s[i..]);
    assert s[..i] + s[i..] == s;
  }

  lemma PieceThenMore(t: string, e: string)
    requires t != "" && Front(t) != "["
    ensures Front(Front(t) + e) == Front(t) && Rest(Front(t) + e) == e
  {
    PieceIsItsFront(t);
    assert Closed(Front(t));
    PieceFront(t, e);
  }

  /** The expression of a tame segment matches exactly the strings one of its expansions takes. */
  lemma {:induction false} TameSegment(t: string, s: string)
    requires Tame(t)
    ensures Matches(CatAll(SegmentParts(t)), s) <==> Expanded(t, s)
    decreases |t|
  {
    hide Matches, Expanded, Takes, OptionTame;
    if t == "" {
      NothingExpanded(s);
    } else if OpensBrace(t) {
      forall option | option in OptionsOf(t)
        ensures Closed(option)
      {
        TameOptionIsClosed(option);
      }
      ScanBrace(t);
      var brace := AltAll(Alternatives(OptionsOf(t), Find(t[1..], '}')));
      OnePiece(brace, SegmentParts(Behind(t)), s);
      ExpandedBrace(t, s);
      hide OptionsOf, Behind, Wild, AltAll, Alternatives, SegmentParts, Closed, Tame;
      forall i | 0 <= i <= |s|
        ensures Matches(brace, s[..i]) <==> exists k :: 0 <= k < |OptionsOf(t)| && Wild(Emitted, OptionsOf(t)[k], s[..i])
        ensures Matches(CatAll(SegmentParts(Behind(t))), s[i..]) <==> Expanded(Behind(t), s[i..])
      {
        BraceMatches(t, s[..i]);
        assert Tame(Behind(t)) by { TameBehind(t); }
        TameSegment(Behind(t), s[i..]);
      }
    } else if t[0] == '*' {
      TameStars(t, s);
    } else {
      ScanPiece(t);
      OnePiece(PieceOf(Front(t)), SegmentParts(Rest(t)), s);
      ExpandedPiece(t, s);
      forall i | 0 <= i <= |s|
        ensures Matches(PieceOf(Front(t)), s[..i]) <==> Takes(Emitted, Front(t), s[..i])
        ensures Matches(CatAll(SegmentParts(Rest(t))), s[i..]) <==> Expanded(Rest(t), s[i..])
      {
        PieceMatches(Front(t), s[..i]);
        TameSegment(Rest(t), s[i..]);
      }
    }
  }

  lemma TameBehind(t: string)
    requires Tame(t) && OpensBrace(t)
    ensures Tame(Behind(t))
  {
  }

  lemma NothingExpanded(s: string)
    ensures Matches(CatAll(SegmentParts("")), s) <==> Expanded("", s)
  {
    assert IsExpansion("", "");
  }

  lemma {:induction false} TwoStars(t: string, s: string)
    requires t != "" && t[0] == '*'
    ensures (exists j :: 0 <= j <= |s| && '/' !in s[..j] && Expanded(t, s[j..]))
       <==> (exists j :: 0 <= j <= |s| && '/' !in s[..j] && Expanded(t[1..], s[j..]))
  {
    hide Expanded;
    var rest := t[1..];
    assert Front(t) == "*" && Rest(t) == rest;
    if j :| 0 <= j <= |s| && '/' !in s[..j] && Expanded(t, s[j..]) {
      var k := PieceTaken(t, s[j..]);
      assert s[..j + k] == s[..j] + s[j..][..k] && s[j + k..] == s[j..][k..];
      assert '/' !in s[..j + k] && Expanded(rest, s[j + k..]);
    }
    if j :| 0 <= j <= |s| && '/' !in s[..j] && Expanded(rest, s[j..]) {
      assert s[j..][..0] == "" && s[j..][0..] == s[j..];
      PieceExpands(t, s[j..], 0);
    }
  }

  lemma {:induction false} ExpandedStars(t: string, s: string)
    ensures (exists j :: 0 <= j <= |s| && '/' !in s[..j] && Expanded(t, s[j..]))
       <==> (exists j :: 0 <= j <= |s| && '/' !in s[..j] && Expanded(DropStars(t), s[j..]))
    decreases |t|
  {
    hide Expanded;
    if t != "" && t[0] == '*' {
      TwoStars(t, s);
      ExpandedStars(t[1..], s);
    }
  }

  lemma {:induction false} DropStarsTame(t: string)
    requires Tame(t)
    ensures Tame(DropStars(t))
  {
    if t != "" && t[0] == '*' {
      assert Rest(t) == t[1..];
      DropStarsTame(t[1..]);
    }
  }

  lemma {:induction false} TameStars(t: string, s: string)
    requires Tame(t) && t != "" && t[0] == '*'
    ensures Matches(CatAll(SegmentParts(t)), s) <==> Expanded(t, s)
    decreases |t|, 0
  {
    hide Matches, Expanded;
    ScanStars(t);
    var rest := DropStars(t[1..]);
    DropStarsTame(t[1..]);
    OnePiece(NO_SLASHES, SegmentParts(rest), s);
    forall i | 0 <= i <= |s|
      ensures Matches(NO_SLASHES, s[..i]) <==> '/' !in s[..i]
      ensures Matches(CatAll(SegmentParts(rest)), s[i..]) <==> Expanded(rest, s[i..])
    {
      RunOfNonSlashes(s[..i]);
      TameSegment(rest, s[i..]);
    }
    ExpandedPiece(t, s);
    ExpandedStars(t[1..], s);
  }

  // ----- which expressions the engine takes

  /** The classes the compiler reads in a segment are in order, those in its options included. */
  ghost predicate SegmentInOrder(t: string)
    decreases |t|
  {
    if t == "" then true
    else if OpensBrace(t) then
      (forall k, i :: 0 <= k < |OptionsOf(t)| && 0 <= i < |Segments(OptionsOf(t)[k], 0)| ==>
         SegmentInOrder(Segments(OptionsOf(t)[k], 0)[i]))
      && SegmentInOrder(Behind(t))
    else
      (IsClass(Front(t)) ==> InOrder(Inside(Front(t)))) && SegmentInOrder(Rest(t))
  }

  ghost predicate GlobInOrder(t: string) {
    forall i :: 0 <= i < |Segments(t, 0)| ==> SegmentInOrder(Segments(t, 0)[i])
  }

  ghost predicate AllAccepted(parts: seq<Re>) {
    forall i :: 0 <= i < |parts| ==> Accepted(parts[i])
  }

  lemma {:induction false} CatAllAccepted(parts: seq<Re>)
    ensures Accepted(CatAll(parts)) <==> AllAccepted(parts)
  {
    if parts != [] {
      CatAllAccepted(parts[1..]);
      assert forall i :: 0 < i < |parts| ==> parts[i] == parts[1..][i - 1];
    }
  }

  lemma {:induction false} AltAllAccepted(options: seq<Re>)
    requires options != []
    ensures Accepted(AltAll(options)) <==> AllAccepted(options)
  {
    if |options| > 1 {
      AltAllAccepted(options[1..]);
      assert forall i :: 0 < i < |options| ==> options[i] == options[1..][i - 1];
    }
  }

  lemma AcceptedBoth(a: seq<Re>, b: seq<Re>)
    ensures AllAccepted(a + b) <==> AllAccepted(a) && AllAccepted(b)
  {
    assert forall i :: 0 <= i < |b| ==> b[i] == (a + b)[|a| + i];
    assert forall i :: 0 <= i < |a| ==> a[i] == (a + b)[i];
  }

  lemma AcceptedInFront(part: Re, parts: seq<Re>)
    ensures AllAccepted([part] + parts) <==> Accepted(part) && AllAccepted(parts)
  {
    AcceptedBoth([part], parts);
    assert AllAccepted([part]) <==> Accepted([part][0]);
  }

  lemma PieceAccepted(x: string)
    requires x != "" && x != "*"
    ensures Accepted(PieceOf(x)) <==> (IsClass(x) ==> InOrder(Inside(x)))
  {
    if IsClass(x) {
      EmittedAre(Inside(x), '/');
    }
  }

  lemma {:induction false} StarsInOrder(t: string)
    ensures SegmentInOrder(DropStars(t)) <==> SegmentInOrder(t)
  {
    if t != "" && t[0] == '*' {
      assert Rest(t) == t[1..];
      StarsInOrder(t[1..]);
    }
  }

  /** A segment compiles to something the engine takes exactly when its classes are in order. */
  lemma {:induction false} SegmentAccepted(t: string)
    ensures AllAccepted(SegmentParts(t)) <==> SegmentInOrder(t)
    decreases |t|, 1, 0
  {
    hide AllAccepted, InOrder, SegmentParts, Accepted;
    if t == "" {
      NothingAccepted();
    } else if t[0] == '*' {
      ScanStars(t);
      StarsInOrder(t[1..]);
      AcceptedInFront(NO_SLASHES, SegmentParts(DropStars(t[1..])));
      StarAccepted();
      SegmentAccepted(DropStars(t[1..]));
    } else if OpensBrace(t) {
      ScanBrace(t);
      BraceAccepted(t);
      AcceptedInFront(AltAll(Alternatives(OptionsOf(t), Find(t[1..], '}'))), SegmentParts(Behind(t)));
      SegmentAccepted(Behind(t));
    } else {
      ScanPiece(t);
      AcceptedInFront(PieceOf(Front(t)), SegmentParts(Rest(t)));
      PieceAccepted(Front(t));
      SegmentAccepted(Rest(t));
    }
  }

  lemma NothingAccepted()
    ensures AllAccepted([]) && SegmentParts("") == []
  {
  }

  lemma StarAccepted()
    ensures Accepted(NO_SLASHES)
  {
  }

  lemma {:induction false} BraceAccepted(t: string)
    requires OpensBrace(t)
    ensures Accepted(AltAll(Alternatives(OptionsOf(t), Find(t[1..], '}'))))
       <==> forall k :: 0 <= k < |OptionsOf(t)| ==> GlobInOrder(OptionsOf(t)[k])
    decreases |t|, 0, 0
  {
    hide Accepted, AltAll, GlobInOrder;
    var options := OptionsOf(t);
    var compiled := Alternatives(options, Find(t[1..], '}'));
    AltAllAccepted(compiled);
    forall k | 0 <= k < |options|
      ensures Accepted(compiled[k]) <==> GlobInOrder(options[k])
    {
      SourceAccepted(Segments(options[k], 0), false, |options[k]|);
      CatAllAccepted(GlobParts(options[k]));
      assert GlobInOrder(options[k]) <==> forall i :: 0 <= i < |Segments(options[k], 0)| ==> SegmentInOrder(Segments(options[k], 0)[i])
      by { OrderOf(options[k]); }
    }
  }

  lemma OrderOf(t: string)
    ensures GlobInOrder(t) <==> forall i :: 0 <= i < |Segments(t, 0)| ==> SegmentInOrder(Segments(t, 0)[i])
  {
  }

  lemma {:induction false} SourceAccepted(segments: seq<string>, after: bool, bound: nat)
    requires forall i :: 0 <= i < |segments| ==> |segments[i]| <= bound
    ensures AllAccepted(SourceParts(segments, after, bound))
            <==> forall i :: 0 <= i < |segments| ==> SegmentInOrder(segments[i])
    decreases bound, 2, |segments|
  {
    hide AllAccepted, SegmentInOrder, SegmentParts, Globstar, Accepted;
    if segments == [] {
      NothingAccepted();
    } else {
      var first, rest := segments[0], segments[1..];
      assert forall i :: 0 < i < |segments| ==> segments[i] == rest[i - 1];
      SourceAccepted(rest, IsGlobstar(first), bound);
      var more := SourceParts(rest, IsGlobstar(first), bound);
      if IsGlobstar(first) {
        GlobstarAccepted(|segments| == 1);
        AcceptedInFront(Globstar(|segments| == 1), more);
        assert [] + more == more;
      } else {
        var slash := if Separated(segments) then [Literal('/')] else [];
        SegmentAccepted(first);
        SlashAccepted(Separated(segments));
        AcceptedBoth(SegmentParts(first), slash);
        AcceptedBoth(SegmentParts(first) + slash, more);
      }
    }
  }

  lemma GlobstarAccepted(last: bool)
    ensures Accepted(Globstar(last)) && SegmentInOrder("**")
  {
    assert Accepted(SOME_NON_SLASHES);
    assert Front("**") == "*" && Rest("**") == "*" && Front("*") == "*" && Rest("*") == "";
    assert SegmentInOrder("");
    assert SegmentInOrder("*");
  }

  lemma SlashAccepted(separated: bool)
    ensures AllAccepted(if separated then [Literal('/')] else [])
  {
  }
}
