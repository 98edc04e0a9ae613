/** Globs whose meaning the compiler misses, and globs that only seem to be among them. */
module GlobExamples {
  import opened Regex
  import opened Glob
  import opened GlobMeaning
  import opened GlobPaths
  import opened GlobSegments
  import opened GlobWords
  import opened GlobSplits
  import opened GlobClasses
  import opened GlobReadings
  import opened GlobCorrect
  import opened GlobBraces
  import opened GlobOptions

  // ----- small texts

  lemma StarTexts()
    ensures Front("**") == "*" && Rest("**") == "*" && Front("*") == "*" && Rest("*") == ""
    ensures Parts("") == [""] && Parts("*") == ["*"] && Parts("**") == ["**"]
  {
    TwoStarsAlone();
    assert Front("*") == "*" && Rest("*") == "" && "*" + "" == "*";
    assert Parts("*") == Prepend("*", Parts(""));
  }

  /** A plain text without slashes is one part and one segment, and reads as itself. */
  predicate IsLiteral(x: string) {
    forall c :: c in x ==> c != '/' && c != '*' && c != '?' && c != '[' && c != '{'
  }

  lemma {:induction false} LiteralText(x: string)
    requires IsLiteral(x)
    ensures Parts(x) == [x] && Segments(x, 0) == [x] && SegmentInOrder(x) && NoBraces(x) && Closed(x)
  {
    if x != "" {
      LiteralFront(x);
      LiteralText(x[1..]);
    }
  }

  lemma LiteralFront(x: string)
    requires IsLiteral(x) && x != ""
    ensures IsLiteral(x[1..]) && Front(x) == [x[0]] && Rest(x) == x[1..] && x == [x[0]] + x[1..] && x[0] != '/'
    ensures x[0] != '{' && x[0] != '['
    ensures forall reading, u :: Takes(reading, Front(x), u) <==> u == [x[0]]
  {
    assert x[0] in x && x == [x[0]] + x[1..];
    assert forall c :: c in x[1..] ==> c in x;
  }

  lemma {:induction false} LiteralWild(reading: Reading, x: string, s: string)
    requires IsLiteral(x)
    ensures Wild(reading, x, s) <==> s == x
  {
    hide Wild, Takes, IsLiteral, Front, Rest;
    if x == "" {
      NothingWild(reading);
    } else {
      LiteralFront(x);
      if Wild(reading, x, s) {
        var j := WildStep(reading, x, s);
        LiteralWild(reading, x[1..], s[j..]);
        assert s == s[..j] + s[j..];
      }
      if s == x {
        LiteralWild(reading, x[1..], x[1..]);
        WildMore(reading, x, [x[0]], x[1..]);
      }
    }
  }

  /** Words one by one. */
  lemma ConsMeans(reading: Reading, p: string, parts: seq<string>, w: string, words: seq<string>)
    requires IsGlobstar(p) || Wild(reading, p, w)
    requires Meaning(reading, parts, words)
    ensures Meaning(reading, [p] + parts, [w] + words)
  {
    hide Wild, Meaning;
    OneWord(reading, p, w);
    MeaningMore(reading, p, parts, [w], words);
  }

  lemma SkipMeans(reading: Reading, parts: seq<string>, words: seq<string>)
    requires Meaning(reading, parts, words)
    ensures Meaning(reading, ["**"] + parts, words)
  {
    hide Meaning;
    MeaningMore(reading, "**", parts, [], words);
    assert [] + words == words;
  }

  // ----- globstars

  lemma BadGlob(t: string, words: seq<string>)
    requires Trimmed(t) == t && NoPair(t) && IsPath(words) && !Good(Segments(t, 0)) && Meaning(Meant, Parts(t), words)
    ensures Means(Trimmed(t), words) && !GlobMatches(t, words)
  {
    hide Meaning, Parts, Segments, Good, Reads, GlobMatches, Means, NoPair;
    NoPairIsPlain(t);
    PlainHasNone(t);
    PlainMeans(t, words);
    GlobstarsMatch(t, words);
  }

  /** `a` followed by two globstars means the folder `a`, and the compiled expression does not match it; nor does a
      lone globstar match any path. */
  lemma GlobstarsTheCompilerMisses()
    ensures Means(Trimmed("a/**/**"), ["a"]) && !GlobMatches("a/**/**", ["a"])
    ensures Means(Trimmed("**"), ["a"]) && !GlobMatches("**", ["a"])
  {
    hide Meaning, Parts, Segments, Good, GlobMatches, Means;
    FolderAndGlobstars();
    GlobstarAlone();
    BadGlob("a/**/**", ["a"]);
    BadGlob("**", ["a"]);
  }

  lemma GlobstarAlone()
    ensures Trimmed("**") == "**" && !Good(Segments("**", 0)) && Meaning(Meant, Parts("**"), ["a"])
  {
    StarTexts();
    NothingOpens("**");
    GlobstarTakesAll(Meant, ["a"]);
    assert "**"[0] == '*' && "**"[1] == '*' && "./"[0] == '.';
  }

  lemma FolderAndGlobstars()
    ensures Trimmed("a/**/**") == "a/**/**" && !Good(Segments("a/**/**", 0)) && Meaning(Meant, Parts("a/**/**"), ["a"])
  {
    hide Meaning, Parts, Segments, Trimmed;
    FolderTrims();
    NothingOpens("a/**/**");
    FolderParts();
    assert EndsInTwoGlobstars(["a", "**", "**"]);
    LiteralWild(Meant, "a", "a");
    GlobstarTakesAll(Meant, []);
    SkipMeans(Meant, ["**"], []);
    ConsMeans(Meant, "a", ["**"] + ["**"], "a", []);
    assert ["a"] + (["**"] + ["**"]) == ["a", "**", "**"] && ["a"] + [] == ["a"];
  }

  lemma FolderTrims()
    ensures Trimmed("a/**/**") == "a/**/**"
  {
    assert "a/**/**"[0] == 'a' && "./"[0] == '.';
  }

  lemma FolderParts()
    ensures Parts("a/**/**") == ["a", "**", "**"]
  {
    hide Parts;
    StarTexts();
    LiteralText("a");
    assert Closed("") && Closed("*");
    assert Closed("**");
    hide Closed;
    ClosedParts("**", "**");
    ClosedParts("a", "**/**");
    assert "**" + ("/" + "**") == "**/**" && "a" + ("/" + "**/**") == "a/**/**";
  }

  // ----- classes that make a range of a dash

  /** None of the characters the splitter counts. */
  predicate Bare(x: string) {
    '{' !in x && '}' !in x && '[' !in x && ']' !in x
  }

  /** What stands in a class of the examples: nor a slash. */
  predicate Flat(body: string) {
    '/' !in body && Bare(body)
  }

  /** A glob that is one class. */
  lemma {:induction false} ClassGlob(body: string, word: string)
    requires Flat(body) && WordOk(word)
    ensures var glob := "[" + body + "]";
            && (GlobInOrder(Trimmed(glob)) <==> InOrder(body))
            && (GlobMatches(glob, [word]) <==> |word| == 1 && ClassHas(Emitted, body, word[0]))
            && (Means(Trimmed(glob), [word]) <==> |word| == 1 && ClassHas(Meant, body, word[0]))
  {
    var glob := "[" + body + "]";
    ClassText(body);
    hide Wild, GlobMatches, Means, ClassHas, InOrder, Parts, Segments, SegmentInOrder, GlobInOrder, Front, Rest, Trimmed,
         PatternOf, NoPair;
    LoneGlob(glob, [word]);
    CompilesIff(glob);
    LoneInOrder(glob);
    OneWord(Meant, glob, word);
    OneWord(Emitted, glob, word);
    WildPiece(Meant, glob, word);
    WildPiece(Emitted, glob, word);
    ClassTakesOne(Meant, body, word);
    ClassTakesOne(Emitted, body, word);
    if !InOrder(body) {
      RefusedIsEmpty(body);
    }
  }

  lemma RefusedIsEmpty(body: string)
    requires !InOrder(body)
    ensures forall c :: !ClassHas(Emitted, body, c)
  {
    hide InOrder;
    forall c
      ensures !ClassHas(Emitted, body, c)
    {
      EmittedAre(body, c);
    }
  }

  lemma ClassTakesOne(reading: Reading, body: string, word: string)
    requires ']' !in body
    ensures GlobMeaning.Takes(reading, "[" + body + "]", word) <==> |word| == 1 && ClassHas(reading, body, word[0])
  {
    var x := "[" + body + "]";
    assert IsClass(x) && Inside(x) == body;
  }

  lemma LoneIsGood(segment: string)
    requires !IsGlobstar(segment)
    ensures Good([segment])
  {
    assert [segment][0] == segment;
  }

  lemma LoneEffective(part: string)
    requires !IsGlobstar(part) && Segments(part, 0) == [part] && Parts(part) == [part]
    ensures ReadParts(part) == [part]
  {
    assert [part][1..] == [] && Effective([]) == [];
    assert AllStarred([part]) == [part];
  }

  lemma {:induction false} ClassText(body: string)
    requires Flat(body)
    ensures var t := "[" + body + "]";
            && Trimmed(t) == t && Parts(t) == [t] && Segments(t, 0) == [t] && NoPair(t) && !IsGlobstar(t)
            && Rest(t) == "" && Front(t) == t && (SegmentInOrder(t) <==> InOrder(body))
  {
    hide Segments, Unsplit, DepthBehind, Parts, SegmentInOrder, Trimmed, NoPair, Front, Rest;
    var t := "[" + body + "]";
    FlatIsUnsplit("", body, "");
    assert t == "[" + body + "]" + "" && "" + t == t;
    ClassFront(body, "");
    StarTexts();
    PartsIs(t);
    assert Prepend(t, [""]) == [t] by { assert t + "" == t; }
    ClassInOrder(t);
    StarsInOrderToo();
    TextOfClass(body);
  }

  lemma TextOfClass(body: string)
    requires Flat(body)
    ensures var t := "[" + body + "]"; Trimmed(t) == t && NoPair(t) && !IsGlobstar(t)
  {
    var t := "[" + body + "]";
    assert t[0] == '[' && t[|t| - 1] == ']' && "./"[0] == '.';
    assert '}' !in t;
  }

  lemma {:induction false} FlatPasses(x: string, t: string, depth: nat)
    requires Bare(x) && ('/' in x ==> depth > 0)
    ensures Unsplit(x + t, depth) <==> Unsplit(t, depth)
    ensures DepthBehind(x + t, depth) == DepthBehind(t, depth)
  {
    if x == "" {
      assert x + t == t;
    } else {
      assert x[0] in x && x == [x[0]] + x[1..] && (x + t)[1..] == x[1..] + t;
      FlatPasses(x[1..], t, depth);
    }
  }

  /** A negated class that opens with a dash and does not list it again matches a file named after the dash it was to
      leave out. */
  lemma {:induction false} DashMatches(body: string)
    requires Flat(body)
    requires InOrder(body) && OpensWithDash(body) && !Listed(body[3..], '-')
    ensures var glob := "[" + body + "]"; GlobMatches(glob, ["-"]) && !Means(Trimmed(glob), ["-"])
  {
    hide InOrder, OpensWithDash, ClassHas, Listed, GlobMatches, Means;
    DashIsLost(body);
    ClassGlob(body, "-");
  }

  lemma DashTo(high: char)
    requires high != '/' && high != '-'
    ensures var body := ['!', '-', high];
            && (InOrder(body) <==> '/' <= high)
            && forall c :: (ClassHas(Emitted, body, c) <==> '/' <= high && !('/' <= c <= high))
                        && (ClassHas(Meant, body, c) <==> c != '/' && c != '-' && c != high)
  {
    var body: string, inside: string := ['!', '-', high], ['-', high];
    assert body[1..] == inside && inside[1..] == [high] && [high][1..] == "";
    var text := "/" + inside;
    assert text == ['/', '-', high] && text[3..] == "";
    assert Ordered("") && (Ordered(text) <==> '/' <= high);
    forall c
      ensures ClassHas(Emitted, body, c) <==> '/' <= high && !('/' <= c <= high)
      ensures ClassHas(Meant, body, c) <==> c != '/' && c != '-' && c != high
    {
      EmittedAre(body, c);
      ListedIsInRanges(inside, c);
      ListedIsInRanges(text, c);
      assert !InRanges("", c);
      assert InRanges([high], c) <==> c == high;
      assert InRanges(inside, c) <==> c == '-' || c == high;
      assert InRanges(text, c) <==> '/' <= c <= high;
      hide Listed;
    }
  }

  lemma DashToGlob(high: char)
    requires high !in "/-[]{}"
    ensures var glob := "[" + ['!', '-', high] + "]";
            && (GlobInOrder(Trimmed(glob)) <==> '/' <= high)
            && (GlobMatches(glob, ["a"]) <==> '/' <= high < 'a')
            && (Means(Trimmed(glob), ["a"]) <==> high != 'a')
  {
    DashTo(high);
    hide ClassHas, InOrder, GlobMatches, GlobInOrder, Means;
    ClassGlob(['!', '-', high], "a");
  }

  /** `[!-z]` means `a` and does not match it: the emitted class leaves out everything from the slash to `z`. The
      expression of `[!-+]`, whose range runs from the slash back to the plus, is refused. */
  lemma DashesTheCompilerMisses()
    ensures PatternOf("[!-z]").Some? && Means(Trimmed("[!-z]"), ["a"]) && !GlobMatches("[!-z]", ["a"])
    ensures PatternOf("[!-+]").None? && Means(Trimmed("[!-+]"), ["a"])
  {
    hide GlobMatches, PatternOf, Means, GlobInOrder;
    DashToGlob('z');
    DashToGlob('+');
    CompilesIff("[!-z]");
    CompilesIff("[!-+]");
    assert "[" + ['!', '-', 'z'] + "]" == "[!-z]";
    assert "[" + ['!', '-', '+'] + "]" == "[!-+]";
  }

  /** One that lists the dash again may keep its members: `[!-0-]` lists the dash, the slash and the zero either way. */
  lemma DashListedAgain()
    ensures OpensWithDash("!-0-") && InOrder("!-0-") && AgreesOffSlash("!-0-")
  {
    var body: string := "!-0-";
    var inside: string, text: string := "-0-", "/-0-";
    assert body[1..] == inside && "/" + inside == text;
    assert inside[1..] == "0-" && "0-"[1..] == "-" && "-"[1..] == "" && text[3..] == "-";
    assert Ordered("-") && Ordered("");
    assert Ordered(text);
    forall c
      ensures ClassHas(Emitted, body, c) <==> ClassHas(Meant, body, c)
    {
      EmittedAre(body, c);
      ListedIsInRanges(inside, c);
      ListedIsInRanges(text, c);
      assert InRanges("", c) == false;
      assert InRanges("-", c) <==> c == '-';
      assert InRanges("0-", c) <==> c == '0' || c == '-';
    }
  }

  // ----- classes that take a slash

  /** A flat class between two texts without brackets. */
  lemma {:induction false} FlatIsUnsplit(a: string, body: string, b: string)
    requires Flat(body) && Flat(a) && Flat(b)
    ensures var t := a + ("[" + body + "]" + b);
            Unsplit(t, 0) && Segments(t, 0) == [t] && DepthBehind(t, 0) == 0
  {
    hide Unsplit, Segments, DepthBehind;
    var t := a + ("[" + body + "]" + b);
    FlatPasses(a, "[" + body + "]" + b, 0);
    Counted('[', body + ("]" + b), 0);
    FlatPasses(body, "]" + b, 1);
    Counted(']', b, 1);
    FlatPasses(b, "", 0);
    assert b + "" == b && "[" + body + "]" + b == "[" + (body + ("]" + b));
    NothingCounted(0);
    OneSegment(t);
  }

  lemma Counted(c: char, t: string, depth: nat)
    ensures Unsplit([c] + t, depth) <==> !(c == '/' && DepthAfter(depth, c) == 0) && Unsplit(t, DepthAfter(depth, c))
    ensures DepthBehind([c] + t, depth) == DepthBehind(t, DepthAfter(depth, c))
  {
    assert ([c] + t)[1..] == t;
  }

  lemma NothingCounted(depth: nat)
    ensures Unsplit("", depth) && DepthBehind("", depth) == depth
  {
  }

  lemma OneSegment(t: string)
    requires Unsplit(t, 0)
    ensures Segments(t, 0) == [t]
  {
    UnsplitPasses(t, "", 0);
    assert t + "" == t;
  }

  lemma {:induction false} ClassBetween(body: string)
    requires Flat(body)
    ensures var t := "a" + ("[" + body + "]" + "b");
            && Trimmed(t) == t && NoPair(t) && Parts(t) == [t] && Segments(t, 0) == [t] && !IsGlobstar(t)
            && Front(t) == "a" && Rest(t) == "[" + body + "]" + "b"
            && (SegmentInOrder(t) <==> InOrder(body))
  {
    hide Segments, Unsplit, DepthBehind, Parts, SegmentInOrder, Trimmed, NoPair, Front, Rest;
    var x := "[" + body + "]";
    var t := "a" + (x + "b");
    FlatIsUnsplit("a", body, "b");
    ClassFront(body, "b");
    CharFront('a', x + "b");
    LiteralText("b");
    PartsIs(x + "b");
    PartsIs(t);
    assert Prepend(x, ["b"]) == [x + "b"] && Prepend("a", [x + "b"]) == [t];
    ClassInOrder(x + "b");
    CharInOrder(t);
    NoPairBetween(body);
  }

  lemma NoPairBetween(body: string)
    requires Flat(body)
    ensures var t := "a" + ("[" + body + "]" + "b"); Trimmed(t) == t && NoPair(t)
  {
    var t := "a" + ("[" + body + "]" + "b");
    assert t[0] == 'a' && t[|t| - 1] == 'b' && "./"[0] == '.';
    assert '}' !in t;
  }

  lemma ClassInOrder(e: string)
    requires e != "" && IsClass(Front(e))
    ensures SegmentInOrder(e) <==> InOrder(Inside(Front(e))) && SegmentInOrder(Rest(e))
  {
    assert e[0] == '[';
  }

  lemma CharInOrder(e: string)
    requires e != "" && e[0] != '[' && e[0] != '{'
    ensures SegmentInOrder(e) <==> SegmentInOrder(Rest(e))
  {
  }

  /** A glob that is one part: what it means and what its expression matches. */
  lemma {:induction false} LoneGlob(glob: string, words: seq<string>)
    requires Trimmed(glob) == glob && NoPair(glob) && Parts(glob) == [glob] && Segments(glob, 0) == [glob] && !IsGlobstar(glob)
    requires IsPath(words)
    ensures Means(glob, words) <==> PartTakes(Meant, glob, words)
    ensures GlobMatches(glob, words) <==> PatternOf(glob).Some? && PartTakes(Emitted, glob, words)
    ensures PatternOf(glob).Some? <==> SegmentInOrder(glob)
  {
    hide Meaning, Reads, Good, GlobMatches, Means, PatternOf, Parts, Segments, SegmentInOrder, GlobInOrder, Trimmed, NoPair,
         PartTakes, IsPath;
    NoPairIsPlain(glob);
    PlainHasNone(glob);
    PlainMeans(glob, words);
    PlainGlobMatches(glob, words);
    CompilesIff(glob);
    LoneInOrder(glob);
    LoneIsGood(glob);
    LoneEffective(glob);
    MeaningOfOne(Meant, glob, words);
    MeaningOfOne(Emitted, glob, words);
  }

  /** A class that takes a slash, between two literals, takes the slash of a path of two words. */
  lemma {:induction false} SlashMatches(body: string)
    requires Flat(body) && ClassHas(Emitted, body, '/')
    ensures var glob := "a" + ("[" + body + "]" + "b");
            PatternOf(glob).Some? && GlobMatches(glob, ["a", "b"]) && !Means(Trimmed(glob), ["a", "b"])
  {
    hide GlobMatches, Means, ClassHas, Parts, Segments, SegmentInOrder, Trimmed, NoPair, Flat, JoinSlash, PatternOf, Wild, InOrder;
    ClassBetween(body);
    TakesSlashIff(body);
    SlashTaken(body);
    LoneGlob("a" + ("[" + body + "]" + "b"), ["a", "b"]);
  }

  lemma {:induction false} SlashTaken(body: string)
    requires Flat(body) && ClassHas(Emitted, body, '/')
    ensures Wild(Emitted, "a" + ("[" + body + "]" + "b"), JoinSlash(["a", "b"]))
  {
    var x := "[" + body + "]";
    ClassFront(body, "b");
    CharFront('a', x + "b");
    LastCharacter();
    SlashInClass(body);
    JoinIs(["a", "b"]);
    JoinIs(["a", "b"][1..]);
    hide Wild, ClassHas, Front, Rest, JoinSlash;
    WildMore(Emitted, x + "b", "/", "b");
    WildMore(Emitted, "a" + (x + "b"), "a", "/" + "b");
  }

  lemma LastCharacter()
    ensures Wild(Emitted, "b", "b")
  {
    hide Wild;
    LiteralWild(Emitted, "b", "b");
  }

  lemma SlashInClass(body: string)
    requires ']' !in body && ClassHas(Emitted, body, '/')
    ensures GlobMeaning.Takes(Emitted, "[" + body + "]", "/") && GlobMeaning.Takes(Emitted, "a", "a")
  {
    ClassTakesOne(Emitted, body, "/");
  }

  lemma PlusToNine()
    ensures Flat(['+', '-', '9']) && ClassHas(Emitted, ['+', '-', '9'], '/')
  {
    var body: string := ['+', '-', '9'];
    hide ClassHas;
    assert body[3..] == "" && Ordered("") && Ordered(body) && InRanges(body, '/');
    ListedIsInRanges(body, '/');
    TakesSlashIff(body);
  }

  /** `a[+-9]b` means no path of two words, and its expression matches `a/b`. */
  lemma SlashesTheCompilerTakes()
    ensures PatternOf("a[+-9]b").Some? && GlobMatches("a[+-9]b", ["a", "b"]) && !Means(Trimmed("a[+-9]b"), ["a", "b"])
  {
    hide GlobMatches, PatternOf, Means, ClassHas, Flat, Trimmed;
    PlusToNine();
    SlashMatches(['+', '-', '9']);
    assert "a" + ("[" + ['+', '-', '9'] + "]" + "b") == "a[+-9]b";
  }

  /** Where a globstar is next to it, a part that takes anything may take a slash: `**` absorbs the word more. */
  lemma {:induction false} AbsorbedSlash(body: string)
    requires Flat(body) && ClassHas(Emitted, body, '/') && forall c :: c != '/' ==> ClassHas(Meant, body, c)
    ensures var x := "*" + ("[" + body + "]" + "*"); SlashWithin(x, true) && Kept("**/" + x)
  {
    var x := "*" + ("[" + body + "]" + "*");
    var t := "**/" + x;
    AnyAround(body);
    StarsAround(body);
    hide Meaning, Wild, Reads, Good, GlobMatches, Means, ClassHas, Parts, Segments, SegmentInOrder, NoPair, Flat, Kept, Sound,
         GlobInOrder, Anything, SlashWithin, Trimmed;
    NoPairIsPlain(t);
    assert Sound(t) by { AbsorbedIsSound(x, t); }
    SoundIsKept(t);
  }

  /** The range from the first character to the last takes a slash inside such a part, and the glob keeps its meaning. */
  lemma SlashThatDoesNoHarm()
    ensures var x := "*" + ("[" + ['\0', '-', '\U{10FFFF}'] + "]" + "*"); SlashWithin(x, true) && Kept("**/" + x)
  {
    hide SlashWithin, Kept, ClassHas, Flat;
    AnyRange();
    AbsorbedSlash(['\0', '-', '\U{10FFFF}']);
  }

  lemma {:induction false} AnyRange()
    ensures var body := ['\0', '-', '\U{10FFFF}'];
            && Flat(body) && ClassHas(Emitted, body, '/') && forall c :: c != '/' ==> ClassHas(Meant, body, c)
  {
    var body: string := ['\0', '-', '\U{10FFFF}'];
    assert body[3..] == "" && Ordered("") && Ordered(body);
    assert Listing(body) == [Span(body[0], body[2])] + Listing("");
    forall c: char
      ensures Listed(body, c)
    {
      assert Listing(body)[0] == Span(body[0], body[2]) && body[0] <= c <= body[2];
    }
    TakesSlashIff(body);
  }

  lemma AbsorbedIsSound(x: string, t: string)
    requires Parts(t) == ["**", x] && Segments(t, 0) == ["**", x] && Parts(x) == [x] && !IsGlobstar(x)
    requires ClassesAgree(x) && Anything(x)
    ensures Sound(t)
  {
    hide Anything, Parts, Segments, ClassesAgree;
    assert ["**", x][1..] == [x] && [x][1..] == [] && Effective([]) == [] && AllStarred([x]) == [x];
    assert Effective([x]) == [x] && Effective(["**", x]) == ["**"] + [x];
    GlobstarHasNoClass(Meant, Emitted);
    StarsTakeNoSlash();
    assert ["**", x][..1] == ["**"] && AbsorbedLeft(["**"]);
    assert ["**", x][1] == x;
  }

  lemma {:induction false} StarsAround(body: string)
    requires Flat(body) && InOrder(body)
    ensures var x := "*" + ("[" + body + "]" + "*"); var t := "**/" + x;
            && Trimmed(t) == t && NoPair(t) && Parts(x) == [x] && Parts(t) == ["**", x] && Segments(t, 0) == ["**", x]
            && !IsGlobstar(x) && GlobInOrder(t)
  {
    hide Segments, Parts, SegmentInOrder, Trimmed, NoPair, Closed, Flat, InOrder;
    var x := "*" + ("[" + body + "]" + "*");
    TextOfStars(body);
    PartsOfStars(body);
    assert Closed("**") by { StarsAreClosed(); }
    StarTexts();
    ClosedParts("**", x);
    assert "**" + ("/" + x) == "**/" + x && ["**"] + [x] == ["**", x];
    StarsInOrderToo();
    TwoSegments(body);
  }

  lemma {:induction false} PartsOfStars(body: string)
    requires Flat(body) && InOrder(body)
    ensures var x := "*" + ("[" + body + "]" + "*"); Parts(x) == [x] && SegmentInOrder(x)
  {
    hide Parts, SegmentInOrder, Front, Rest, InOrder;
    var y := "[" + body + "]";
    var x := "*" + (y + "*");
    StarTexts();
    ClassFront(body, "*");
    CharFront('*', y + "*");
    PartsIs(y + "*");
    PartsIs(x);
    assert Prepend(y, ["*"]) == [y + "*"] && Prepend("*", [y + "*"]) == [x];
    ClassInOrder(y + "*");
    CharInOrder(x);
    StarsInOrderToo();
  }

  lemma TextOfStars(body: string)
    requires Flat(body)
    ensures var x := "*" + ("[" + body + "]" + "*"); var t := "**/" + x;
            Trimmed(t) == t && NoPair(t) && !IsGlobstar(x)
  {
    var x := "*" + ("[" + body + "]" + "*");
    var t := "**/" + x;
    assert x[1] == '[' && t[0] == '*' && t[|t| - 1] == '*' && "./"[0] == '.';
    assert '}' !in t;
  }

  lemma StarsAreClosed()
    ensures Closed("**")
  {
    StarTexts();
    assert Closed("") && Closed("*");
  }

  lemma StarsInOrderToo()
    ensures SegmentInOrder("") && SegmentInOrder("*") && SegmentInOrder("**")
  {
    StarTexts();
    assert SegmentInOrder("");
    assert SegmentInOrder("*");
  }

  lemma {:induction false} TwoSegments(body: string)
    requires Flat(body)
    ensures var x := "*" + ("[" + body + "]" + "*"); Segments("**/" + x, 0) == ["**", x]
  {
    hide Unsplit, Segments, DepthBehind, JoinSlash;
    var x := "*" + ("[" + body + "]" + "*");
    var both := ["**", x];
    FlatIsUnsplit("*", body, "*");
    FlatPasses("**", "", 0);
    NothingCounted(0);
    assert "**" + "" == "**" && both[1..] == [x] && [x][1..] == [];
    assert SplitsBack([]);
    assert SplitsBack([x]);
    JoinIs(both);
    JoinIs([x]);
    SegmentsOfJoinIff(both);
    assert "**" + ("/" + x) == "**/" + x;
  }

  lemma {:induction false} AnyAround(body: string)
    requires Flat(body) && ClassHas(Emitted, body, '/') && forall c :: c != '/' ==> ClassHas(Meant, body, c)
    ensures InOrder(body)
    ensures var x := "*" + ("[" + body + "]" + "*"); ClassesAgree(x) && Anything(x) && SlashWithin(x, true)
  {
    var y := "[" + body + "]";
    var x := "*" + (y + "*");
    TakesSlashIff(body);
    AgreesWithoutDash(body);
    StarTexts();
    ClassFront(body, "*");
    CharFront('*', y + "*");
    hide ClassHas, InOrder, Front, Rest, AgreesOffSlash;
    assert ClassesAgree("") && ClassesAgree("*");
    assert ClassesAgree(y + "*");
    assert PiecesTakeAny("") && PiecesTakeAny("*");
    assert PiecesTakeAny(y + "*");
    assert Needed("") == 0 && Needed("*") == 0 && Needed(y + "*") == 1;
    assert HasStar("*");
    assert SlashWithin(y + "*", false);
  }

  // ----- brackets the splitter counts

  /** A globstar swallowed by one segment takes one word. */
  lemma {:induction false} Swallowed(t: string, x: string, words: seq<string>)
    requires Trimmed(t) == t && NoPair(t) && Segments(t, 0) == [t] && Parts(t) == [x, "**"] && Parts(t) != [t]
    requires IsPath(words) && |words| > 2 && Wild(Meant, x, words[0]) && !IsGlobstar(x) && !SlashWithin(x, true)
    ensures Means(Trimmed(t), words) && !GlobMatches(t, words)
  {
    hide Meaning, Wild, Reads, Good, GlobMatches, Means, Parts, Segments, NoPair, SlashWithin, Trimmed;
    NoPairIsPlain(t);
    PlainHasNone(t);
    PlainMeans(t, words);
    PlainGlobMatches(t, words);
    GlobstarTakesAll(Meant, words[1..]);
    ConsMeans(Meant, x, ["**"], words[0], words[1..]);
    assert [x] + ["**"] == [x, "**"] && [words[0]] + words[1..] == words;
    OnlyTwoParts(t, x);
    PartsAre(t);
    if Meaning(Emitted, [x, "*"], words) {
      TwoWordsOnly(x, words);
    }
  }

  lemma OnlyTwoParts(t: string, x: string)
    requires Segments(t, 0) == [t] && Parts(t) == [x, "**"] && !IsGlobstar(x)
    ensures ReadParts(t) == [x, "*"]
  {
    assert t != "**" by { TwoStarsAlone(); assert |Parts("**")| == 1; }
    assert [t][1..] == [] && Effective([]) == [] && AllStarred([x, "**"]) == [x, "*"];
    assert Effective([t]) == [x, "*"] + [];
  }

  lemma {:induction false} TwoWordsOnly(x: string, words: seq<string>)
    requires WordsOk(words) && Meaning(Emitted, [x, "*"], words) && !IsGlobstar(x) && SlashFree(x) && !SlashWithin(x, true)
    ensures |words| == 2
  {
    hide Wild, Meaning, SlashWithin, SlashFree;
    var k := MeaningStep(Emitted, [x, "*"], words);
    assert [x, "*"][1..] == ["*"];
    LoneWord(x, words[..k]);
    MeaningOfOne(Emitted, "*", words[k..]);
    assert SlashFree("*") && !SlashWithin("*", true) by { StarIsPlain(); }
    LoneWord("*", words[k..]);
  }

  lemma StarIsPlain()
    ensures SlashFree("*") && !SlashWithin("*", true)
  {
    StarTexts();
    assert !SlashWithin("", false);
  }

  /** A class that lists a bracket, and a bracket left open, keep the splitter counting: it takes the slash behind for one
      inside brackets, and the globstar behind the slash for a star. */
  lemma BracketsTheCompilerCounts()
    ensures Means(Trimmed("[{]/**"), ["{", "a", "b"]) && !GlobMatches("[{]/**", ["{", "a", "b"])
    ensures Means(Trimmed("a[b/**"), ["a[b", "a", "b"]) && !GlobMatches("a[b/**", ["a[b", "a", "b"])
  {
    hide Meaning, Wild, GlobMatches, Means, Parts, Segments, NoPair, SlashWithin, Trimmed;
    ClassCounts();
    OpenCounts();
    Swallowed("[{]/**", "[{]", ["{", "a", "b"]);
    Swallowed("a[b/**", "a[b", ["a[b", "a", "b"]);
  }

  lemma {:induction false} ClassCounts()
    ensures var t, x := "[{]/**", "[{]";
            && Trimmed(t) == t && NoPair(t) && Segments(t, 0) == [t] && Parts(t) == [x, "**"]
            && Wild(Meant, x, "{") && !SlashWithin(x, true)
  {
    hide Segments, Parts, Front, Rest, Wild, ClassHas, SlashWithin;
    var t: string, x: string := "[{]/**", "[{]";
    assert t[0] == '[' && t[|t| - 1] == '*' && "./"[0] == '.';
    StarTexts();
    ClassFront("{", "");
    assert "[" + "{" + "]" + "" == x && "[" + "{" + "]" == x;
    PartsIs(x);
    assert Prepend(x, [""]) == [x];
    assert Closed("") && Closed(x);
    ClosedParts(x, "**");
    assert x + ("/" + "**") == t && [x] + ["**"] == [x, "**"];
    BraceInClass();
    WildPiece(Meant, x, "{");
    NotWithin();
    ClassIsUnsplit();
  }

  lemma BraceInClass()
    ensures GlobMeaning.Takes(Meant, "[{]", "{")
  {
    assert Inside("[{]") == "{";
    assert Listing("{")[0] == Span('{', '{');
  }

  lemma NotWithin()
    ensures !SlashWithin("[{]", true)
  {
    ClassFront("{", "");
    assert "[" + "{" + "]" + "" == "[{]";
    assert !SlashWithin("", false);
  }

  lemma ClassIsUnsplit()
    ensures Segments("[{]/**", 0) == ["[{]/**"]
  {
    hide Unsplit, Segments;
    StarsStayInside(1);
    Counted(']', "/**", 2);
    Counted('{', "]/**", 1);
    Counted('[', "{]/**", 0);
    assert "[" + "{]/**" == "[{]/**" && "{" + "]/**" == "{]/**" && "]" + "/**" == "]/**";
    OneSegment("[{]/**");
  }

  lemma StarsStayInside(depth: nat)
    requires depth > 0
    ensures Unsplit("/**", depth)
  {
    hide Unsplit;
    NothingCounted(depth);
    Counted('*', "", depth);
    Counted('*', "*", depth);
    Counted('/', "**", depth);
    assert "*" + "" == "*" && "*" + "*" == "**" && "/" + "**" == "/**";
  }

  lemma {:induction false} OpenCounts()
    ensures var t, x := "a[b/**", "a[b";
            && Trimmed(t) == t && NoPair(t) && Segments(t, 0) == [t] && Parts(t) == [x, "**"]
            && Wild(Meant, x, x) && !SlashWithin(x, true)
  {
    hide Segments, Parts, Front, Rest, Wild, SlashWithin;
    var t: string := "a[b/**";
    assert t[0] == 'a' && t[|t| - 1] == '*' && "./"[0] == '.';
    PartsOfOpen();
    OpenAlone();
    OpenIsUnsplit();
  }

  lemma OpenIsUnsplit()
    ensures Segments("a[b/**", 0) == ["a[b/**"]
  {
    hide Unsplit, Segments;
    StarsStayInside(1);
    Counted('b', "/**", 1);
    Counted('[', "b/**", 0);
    Counted('a', "[b/**", 0);
    assert "a" + "[b/**" == "a[b/**" && "[" + "b/**" == "[b/**" && "b" + "/**" == "b/**";
    OneSegment("a[b/**");
  }

  lemma PartsOfOpen()
    ensures Parts("a[b/**") == ["a[b", "**"]
  {
    hide Parts, Front, Rest;
    StarTexts();
    assert "a" + "[b/**" == "a[b/**" && "[" + "b/**" == "[b/**" && "b" + "/**" == "b/**" && "/**"[1..] == "**";
    CharFront('a', "[b/**");
    CharFront('[', "b/**");
    CharFront('b', "/**");
    PartsIs("/**");
    PartsIs("b/**");
    PartsIs("[b/**");
    PartsIs("a[b/**");
    assert [""] + ["**"] == ["", "**"];
    PrependTwo("b", "", "**");
    PrependTwo("[", "b", "**");
    PrependTwo("a", "[b", "**");
    assert "b" + "" == "b" && "[" + "b" == "[b" && "a" + "[b" == "a[b";
  }

  lemma PrependTwo(x: string, p: string, q: string)
    ensures Prepend(x, [p, q]) == [x + p, q]
  {
    assert [p, q][1..] == [q];
  }

  lemma OpenAlone()
    ensures Wild(Meant, "a[b", "a[b") && !SlashWithin("a[b", true)
  {
    hide Wild, Front, Rest;
    assert "a" + "[b" == "a[b" && "[" + "b" == "[b" && "b" + "" == "b";
    CharFront('a', "[b");
    CharFront('[', "b");
    CharFront('b', "");
    NothingWild(Meant);
    WildMore(Meant, "b", "b", "");
    WildMore(Meant, "[b", "[", "b");
    WildMore(Meant, "a[b", "a", "[b");
    assert !SlashWithin("", false);
    NoClassThere("b", false);
    NoClassThere("[b", false);
    NoClassThere("a[b", true);
  }

  lemma NoClassThere(e: string, first: bool)
    requires e != "" && !IsClass(Front(e)) && !SlashWithin(Rest(e), false)
    ensures !SlashWithin(e, first)
  {
  }

  // ----- braces

  /** A brace of two options. */
  function Either(a: string, b: string): string {
    "{" + (a + ("," + b) + "}")
  }

  lemma {:induction false} OneBrace(inside: string)
    requires '}' !in inside
    ensures var t := "{" + (inside + "}"); OpensBrace(t) && OptionsOf(t) == SplitOn(inside, ',') && Behind(t) == ""
  {
    var t := "{" + (inside + "}");
    assert t[1..] == inside + "}" && forall j :: 0 <= j < |inside| ==> t[1..][j] == inside[j];
    FindIs(t[1..], '}', |inside|);
    assert t[1..][..|inside|] == inside && t[1..][|inside| + 1..] == "";
  }

  lemma {:induction false} EitherIs(a: string, b: string)
    requires ',' !in a && ',' !in b && '}' !in a && '}' !in b
    ensures var t := Either(a, b); OpensBrace(t) && OptionsOf(t) == [a, b] && Behind(t) == "" && !IsGlobstar(t)
    ensures Contained(Either(a, b)) && forall e :: IsExpansion(Either(a, b), e) <==> e == a || e == b
  {
    OneBrace(a + ("," + b));
    SplitOnFinds([a, b], ',');
    assert [a, b][1..] == [b] && JoinOn([a, b], ',') == a + ("," + b);
    assert Contained("");
    hide IsExpansion;
    forall e
      ensures IsExpansion(Either(a, b), e) <==> e == a || e == b
    {
      WholeBraceExpands(Either(a, b), e);
    }
  }

  lemma {:induction false} EitherInOrder(a: string, b: string)
    requires ',' !in a && ',' !in b && '}' !in a && '}' !in b && GlobInOrder(a) && GlobInOrder(b)
    ensures SegmentInOrder(Either(a, b))
  {
    hide Segments, OptionsOf, Behind, Either, OpensBrace, IsExpansion;
    EitherIs(a, b);
    assert SegmentInOrder("");
    assert forall k :: 0 <= k < 2 ==> GlobInOrder([a, b][k]);
  }

  /** Inside of brackets the splitter counts as much behind a text as in front of it, and splits nowhere between. */
  ghost predicate PassesInside(x: string) {
    forall t, depth: nat :: depth > 0 ==> (Unsplit(x + t, depth) <==> Unsplit(t, depth))
  }

  lemma BarePasses(x: string)
    requires Bare(x)
    ensures PassesInside(x)
  {
    hide Unsplit;
    forall t, depth: nat | depth > 0
      ensures Unsplit(x + t, depth) <==> Unsplit(t, depth)
    {
      FlatPasses(x, t, depth);
    }
  }

  lemma ClassPasses(body: string)
    requires Flat(body)
    ensures PassesInside("[" + body + "]")
  {
    hide Unsplit;
    var x := "[" + body + "]";
    forall t, depth: nat | depth > 0
      ensures Unsplit(x + t, depth) <==> Unsplit(t, depth)
    {
      Counted(']', t, depth + 1);
      FlatPasses(body, "]" + t, depth + 1);
      Counted('[', body + ("]" + t), depth);
      assert x + t == "[" + (body + ("]" + t));
    }
  }

  lemma EitherIsUnsplit(a: string, b: string)
    requires PassesInside(a) && PassesInside(b)
    ensures Segments(Either(a, b), 0) == [Either(a, b)] && Unsplit(Either(a, b), 0)
  {
    hide Unsplit, Segments;
    var tail := "," + (b + "}");
    assert "}" + "" == "}" && "{" + (a + tail) == Either(a, b);
    NothingCounted(0);
    Counted('}', "", 1);
    Counted(',', b + "}", 1);
    Counted('{', a + tail, 0);
    assert Unsplit(b + "}", 1) && Unsplit(a + tail, 1);
    OneSegment(Either(a, b));
  }

  /** A brace whose options hold globstars and slashes keeps its meaning. */
  lemma {:induction false} GlobstarInBraces()
    ensures Kept("{**/a,b}")
  {
    hide Kept, Good, Segments, GlobInOrder, SegmentInOrder, Either, Trimmed, IsExpansion, Bare, Sound, Closed;
    var t := Either("**/a", "b");
    assert t == "{**/a,b}" && Trimmed(t) == t by { ExampleText(); }
    ExampleOptions();
    EitherIs("**/a", "b");
    BarePasses("**/a");
    BarePasses("b");
    EitherIsUnsplit("**/a", "b");
    EitherInOrder("**/a", "b");
    LoneIsGood(t);
    LoneInOrder(t);
    MeaningIsKeptIff(t);
  }

  lemma LoneInOrder(t: string)
    requires Segments(t, 0) == [t]
    ensures GlobInOrder(t) <==> SegmentInOrder(t)
  {
    assert Segments(t, 0)[0] == t;
  }

  lemma ExampleText()
    ensures Either("**/a", "b") == "{**/a,b}" && Trimmed("{**/a,b}") == "{**/a,b}"
  {
    assert "{**/a,b}"[0] == '{' && "{**/a,b}"[7] == '}' && "./"[0] == '.';
  }

  lemma {:induction false} ExampleOptions()
    ensures Bare("**/a") && Bare("b") && Sound("**/a") && Sound("b") && Closed("**/a") && Closed("b")
    ensures GlobInOrder("**/a") && GlobInOrder("b")
  {
    hide Segments, Sound, Good, SegmentInOrder, Parts, Closed;
    ExampleIsSplit();
    LiteralText("b");
    LiteralText("a");
    assert Good(["**", "a"]) by { LastIsGood("**", "a"); }
    LoneIsGood("b");
    WithoutBracketsIsSound("**/a");
    WithoutBracketsIsSound("b");
    StarsInOrderToo();
    LoneInOrder("b");
  }

  lemma LastIsGood(x: string, y: string)
    requires !IsGlobstar(y)
    ensures Good([x, y])
  {
    assert [x, y][1] == y;
  }

  lemma {:induction false} ExampleIsSplit()
    ensures Segments("**/a", 0) == ["**", "a"] && Closed("**/a")
  {
    hide Parts, Segments, Closed;
    StarsAreClosed();
    StarTexts();
    LiteralText("a");
    ClosedParts("**", "a");
    assert "**" + ("/" + "a") == "**/a" && ["**"] + ["a"] == ["**", "a"];
    NothingOpens("**/a");
    SlashCloses("a");
    ClosedAppend("**", "/" + "a");
  }

  // A globstar in an option is compiled as if the option stood alone: `a{**/a,b}` matches the file `aa`, which is neither an
  // `a` in a folder whose name begins with `a` nor the file `ab`.
  lemma {:induction false} OptionsStandAlone()
    ensures PatternOf("a{**/a,b}").Some? && GlobMatches("a{**/a,b}", ["aa"]) && !Means(Trimmed("a{**/a,b}"), ["aa"])
  {
    hide GlobMatches, Means, PatternOf, Good, Segments, GlobInOrder, SegmentInOrder, Either, Trimmed, SegmentTakes, Reads;
    var t := "a" + Either("**/a", "b");
    assert t == "a{**/a,b}" && Trimmed(t) == t by { AloneText(); }
    AloneFront();
    AloneIsThere();
    AloneTakes();
    AloneMeansNot();
    LoneIsGood(t);
    LoneInOrder(t);
    CompilesIff(t);
    GlobstarsMatch(t, ["aa"]);
    LoneReads(t, ["aa"]);
  }

  lemma LoneReads(x: string, words: seq<string>)
    requires SegmentTakes(x, words)
    ensures Reads([x], words)
  {
    hide SegmentTakes;
    assert words[..|words|] == words && words[|words|..] == [] && [x][1..] == [];
    assert Reads([], []);
  }

  lemma AloneText()
    ensures "a" + Either("**/a", "b") == "a{**/a,b}" && Trimmed("a{**/a,b}") == "a{**/a,b}"
  {
    assert "a{**/a,b}"[0] == 'a' && "a{**/a,b}"[8] == '}' && "./"[0] == '.';
  }

  lemma AloneFront()
    ensures var t := "a" + Either("**/a", "b");
            Front(t) == "a" && Rest(t) == Either("**/a", "b") && t != "" && t[0] == 'a' && !IsGlobstar(t) && !OpensBrace(t)
  {
    CharFront('a', Either("**/a", "b"));
  }

  lemma {:induction false} AloneIsThere()
    ensures var t := "a" + Either("**/a", "b"); Segments(t, 0) == [t] && SegmentInOrder(t)
  {
    hide Segments, SegmentInOrder, Either, Unsplit, Bare, GlobInOrder, Sound, Closed;
    AloneFront();
    ExampleOptions();
    BarePasses("**/a");
    BarePasses("b");
    EitherIsUnsplit("**/a", "b");
    Counted('a', Either("**/a", "b"), 0);
    OneSegment("a" + Either("**/a", "b"));
    EitherInOrder("**/a", "b");
    CharInOrder("a" + Either("**/a", "b"));
  }

  lemma {:induction false} AloneTakes()
    ensures SegmentTakes("a" + Either("**/a", "b"), ["aa"])
  {
    hide Matches, SegmentParts, Either, Front, Rest, OpensBrace;
    var brace := Either("**/a", "b");
    AloneFront();
    ScanPiece("a" + brace);
    BraceTakes();
    PieceMatches("a", "a");
    assert "aa"[..1] == "a" && "aa"[1..] == "a";
    OnePiece(PieceOf("a"), SegmentParts(brace), "aa");
    JoinIs(["aa"]);
  }

  lemma {:induction false} BraceTakes()
    ensures Matches(CatAll(SegmentParts(Either("**/a", "b"))), "a")
  {
    hide Matches, SegmentParts, Either, Meaning, Sound, OpensBrace, OptionsOf, Behind, Segments, Parts, Bare, IsExpansion, Wild;
    var brace := Either("**/a", "b");
    EitherIs("**/a", "b");
    ExampleOptions();
    OptionAlone();
    assert WholeBrace(brace);
    WholeBraceTakes(brace, ["a"]);
    assert IsExpansion(brace, "**/a");
    JoinIs(["a"]);
  }

  lemma {:induction false} OptionAlone()
    ensures Meaning(Meant, Parts("**/a"), ["a"]) && IsPath(["a"])
  {
    hide Meaning, Wild, Parts;
    StarsAreClosed();
    StarTexts();
    LiteralText("a");
    ExampleParts("**", "a");
    LiteralWild(Meant, "a", "a");
    NothingMeant(Meant);
    ConsMeans(Meant, "a", [], "a", []);
    assert ["a"] + [] == ["a"];
    SkipMeans(Meant, ["a"], ["a"]);
    assert ["**"] + ["a"] == ["**", "a"] && "**" + ("/" + "a") == "**/a";
  }

  lemma {:induction false} ExampleParts(p: string, q: string)
    requires Closed(p) && Parts(p) == [p] && Parts(q) == [q]
    ensures Parts(p + ("/" + q)) == [p, q]
  {
    hide Parts, Closed;
    ClosedParts(p, q);
    assert [p] + [q] == [p, q];
  }

  lemma {:induction false} AloneMeansNot()
    ensures !Means("a" + Either("**/a", "b"), ["aa"])
  {
    hide Meaning, Wild, Parts, IsExpansion, Either, Front, Rest, OpensBrace;
    var t := "a" + Either("**/a", "b");
    AloneFront();
    EitherIs("**/a", "b");
    forall e | IsExpansion(t, e)
      ensures !Meaning(Meant, Parts(e), ["aa"])
    {
      PieceStep(t, e);
      assert e == "a" + e[1..];
      if e[1..] == "b" {
        OtherFile();
      } else {
        TwoWordsNeeded();
      }
    }
  }

  lemma {:induction false} OtherFile()
    ensures !Meaning(Meant, Parts("a" + "b"), ["aa"])
  {
    hide Meaning, Wild, Parts;
    LiteralText("ab");
    LiteralWild(Meant, "ab", "aa");
    MeaningOfOne(Meant, "ab", ["aa"]);
    OneWord(Meant, "ab", "aa");
    assert "a" + "b" == "ab" && "ab"[1] == 'b' && "aa"[1] == 'a';
  }

  lemma {:induction false} TwoWordsNeeded()
    ensures !Meaning(Meant, Parts("a" + "**/a"), ["aa"])
  {
    hide Meaning, Parts;
    LiteralText("a");
    LetterAndStars();
    ExampleParts("a**", "a");
    assert "a**" + ("/" + "a") == "a" + "**/a" && ["a**", "a"][1..] == ["a"] && ["a"][1..] == [];
    assert WordsNeeded(["a**", "a"]) == 2;
    if Meaning(Meant, ["a**", "a"], ["aa"]) {
      MeaningIsLong(Meant, ["a**", "a"], ["aa"]);
    }
  }

  lemma LetterAndStars()
    ensures Parts("a**") == ["a**"] && Closed("a**")
  {
    hide Parts, Closed, Front, Rest;
    StarTexts();
    StarsAreClosed();
    CharFront('a', "**");
    assert "a" + "**" == "a**";
    PartsIs("a**");
    assert Prepend("a", ["**"]) == ["a**"];
    ClosedMore("a**");
  }

  lemma ClosedMore(e: string)
    requires e != "" && Front(e) != "[" && Closed(Rest(e))
    ensures Closed(e)
  {
  }

  /** A class in a brace beside a question mark. */
  function OrAny(body: string): string {
    Either("[" + body + "]", "?")
  }

  lemma AnyTakes(reading: Reading, s: string)
    ensures Wild(reading, "?", s) <==> |s| == 1 && s[0] != '/'
    ensures Parts("?") == ["?"] && Closed("?") && SegmentInOrder("?") && Segments("?", 0) == ["?"]
  {
    assert Front("?") == "?" && Rest("?") == "" && "?"[1..] == "" && "?" + "" == "?";
    assert Parts("") == [""] && Closed("") && SegmentInOrder("");
    WildPiece(reading, "?", s);
    assert Segments("", 0) == [""];
  }

  /** A class in order that takes no slash is taken for one character by either reading. */
  lemma {:induction false} ClassIsWithin(reading: Reading, body: string, s: string)
    requires Flat(body) && (reading.Emitted? ==> !ClassHas(reading, body, '/')) && Wild(reading, "[" + body + "]", s)
    ensures Wild(reading, "?", s)
  {
    hide Wild, ClassHas;
    AnyTakes(reading, s);
    ClassText(body);
    WildPiece(reading, "[" + body + "]", s);
    ClassTakesOne(reading, body, s);
    assert !ClassHas(Meant, body, '/') by { MeansNoSlash(body); }
  }

  lemma MeansNoSlash(body: string)
    ensures !ClassHas(Meant, body, '/')
  {
  }

  lemma {:induction false} OneCharacterTaken(words: seq<string>)
    requires WordsOk(words)
    ensures PartTakes(Emitted, "?", words) <==> PartTakes(Meant, "?", words)
  {
    hide Wild;
    if words != [] {
      var s := JoinSlash(words);
      AnyTakes(Emitted, s);
      AnyTakes(Meant, s);
      if |words| > 1 {
        SlashBetweenWords(words);
      }
    }
  }

  lemma {:induction false} OrAnyIsRight(body: string)
    requires Flat(body) && ',' !in body && Negated(body) && InOrder(body)
    ensures SegmentRight(OrAny(body))
  {
    hide Meaning, Wild, ClassHas, InOrder, Segments, SegmentParts, Matches, IsExpansion, Parts, OptionsOf, Behind, SegmentTakes;
    var x, t := "[" + body + "]", OrAny(body);
    OrAnyIsTame(body);
    ClassText(body);
    NegatedTakesNoSlash(body);
    forall words | WordsOk(words)
      ensures SegmentTakes(t, words) <==> Means(t, words)
    {
      AnyTakes(Meant, "");
      MeaningOfOne(Meant, "?", words);
      MeaningOfOne(Meant, x, words);
      OneCharacterTaken(words);
      TakesByExpansion(t, words);
      if words != [] {
        var s := JoinSlash(words);
        if Wild(Emitted, x, s) {
          ClassIsWithin(Emitted, body, s);
        }
        if Wild(Meant, x, s) {
          ClassIsWithin(Meant, body, s);
        }
      }
    }
  }

  lemma TakesByExpansion(t: string, words: seq<string>)
    requires Tame(t)
    ensures SegmentTakes(t, words) <==> exists e :: IsExpansion(t, e) && PartTakes(Emitted, e, words)
  {
    hide Wild, Matches, IsExpansion, SegmentParts, Tame;
    TameSegment(t, JoinSlash(words));
    forall e
      ensures words != [] ==> (PartTakes(Emitted, e, words) <==> Wild(Emitted, e, JoinSlash(words)))
    {
    }
  }

  lemma {:induction false} OrAnyIsTame(body: string)
    requires Flat(body) && ',' !in body
    ensures var t := OrAny(body);
            && Tame(t) && Contained(t) && !IsGlobstar(t) && Closed("[" + body + "]") && Closed("?")
            && forall e :: IsExpansion(t, e) <==> e == "[" + body + "]" || e == "?"
  {
    hide Segments, IsExpansion, OptionsOf, Behind, SegmentInOrder, Parts;
    var x := "[" + body + "]";
    ClassText(body);
    AnyTakes(Meant, "");
    EitherIs(x, "?");
    assert Closed("") && Closed(x);
    assert OptionTame(x) && OptionTame("?");
    hide OptionTame;
    assert Tame("");
  }

  /** With braces a class that disagrees may do no harm: `{[!-z],?}` keeps its meaning. */
  lemma {:induction false} BracesMayHide()
    ensures OrAny("!-z") == "{[!-z],?}" && !AgreesOffSlash("!-z") && Kept("{[!-z],?}")
  {
    var body: string := ['!', '-', 'z'];
    DashTo('z');
    hide ClassHas, InOrder, GlobMatches, Kept, OrAny;
    assert ClassHas(Meant, body, 'a') && !ClassHas(Emitted, body, 'a');
    assert OrAny(body) == "{[!-z],?}" by { OrAnyText(); }
    OrAnyIsKept(body);
  }

  lemma OrAnyText()
    ensures OrAny(['!', '-', 'z']) == "{[!-z],?}"
  {
  }

  lemma {:induction false} OrAnyIsKept(body: string)
    requires Flat(body) && ',' !in body && Negated(body) && InOrder(body)
    ensures Kept(OrAny(body))
  {
    hide Meaning, InOrder, Segments, SegmentParts, IsExpansion, Parts, OptionsOf, Behind, SegmentRight, Flat, Good, Reads, Means,
         GlobInOrder, SegmentInOrder, Kept, Trimmed, Negated;
    var t := OrAny(body);
    OrAnyIsRight(body);
    OrAnyIsThere(body);
    LoneInOrder(t);
    LoneIsGood(t);
    JoinIs([t]);
    KeptIff(t);
    forall words | IsPath(words)
      ensures Reads([t], words) <==> Means(t, words)
    {
      RightSegmentsMean([t], words);
    }
  }

  lemma {:induction false} OrAnyIsThere(body: string)
    requires Flat(body) && ',' !in body && InOrder(body)
    ensures var t := OrAny(body); Trimmed(t) == t && Segments(t, 0) == [t] && SegmentInOrder(t) && !IsGlobstar(t)
  {
    hide InOrder, Segments, IsExpansion, Parts, OptionsOf, Behind, SegmentInOrder;
    var x, t := "[" + body + "]", OrAny(body);
    assert t[0] == '{' && t[|t| - 1] == '}' && "./"[0] == '.';
    ClassText(body);
    AnyTakes(Meant, "");
    ClassPasses(body);
    BarePasses("?");
    EitherIsUnsplit(x, "?");
    LoneInOrder(x);
    LoneInOrder("?");
    EitherInOrder(x, "?");
    EitherIs(x, "?");
  }

  // ----- what braces are for

  /** `*.{js,jsx,ts}` matches the file `a.ts`, which one of its options takes, and not `a.tsx`, which none of them does. */
  lemma {:induction false} ThreeOptions()
    ensures GlobMatches("*.{js,jsx,ts}", ["a.ts"]) && !GlobMatches("*.{js,jsx,ts}", ["a.tsx"])
  {
    hide GlobMatches, Brace, Cuttable, NoGlobstar, AllOptions, Trimmed;
    var options := ["js", "jsx", "ts"];
    ThreeAreOptions();
    forall k | 0 <= k < 3
      ensures Trimmed("*." + options[k] + "") == "*." + options[k] + ""
      ensures GlobMatches("*." + options[k] + "", ["a.ts"]) <==> options[k] == "ts"
      ensures !GlobMatches("*." + options[k] + "", ["a.tsx"])
    {
      ExtensionMatches(options[k], "ts");
      ExtensionMatches(options[k], "tsx");
      assert "a." + "ts" == "a.ts" && "a." + "tsx" == "a.tsx";
    }
    BraceIsAnyOption("*.", options, "", ["a.ts"]);
    BraceIsAnyOption("*.", options, "", ["a.tsx"]);
    assert options[2] == "ts";
    assert "*." + Brace(options) + "" == "*.{js,jsx,ts}" by { ThreeSpelled(); }
  }

  lemma ThreeSpelled()
    ensures "*." + Brace(["js", "jsx", "ts"]) + "" == "*.{js,jsx,ts}"
  {
    var options := ["js", "jsx", "ts"];
    assert options[1..] == ["jsx", "ts"] && ["jsx", "ts"][1..] == ["ts"];
    assert JoinOn(["jsx", "ts"], ',') == "jsx,ts";
  }

  lemma {:induction false} ThreeAreOptions()
    ensures AllOptions(["js", "jsx", "ts"]) && Cuttable("*.") && NoGlobstar("*.", ["js", "jsx", "ts"], "")
  {
    hide Segments, Unsplit, DepthBehind, Contained;
    assert Segments("", 0) == [""] by { NothingOpens(""); StarTexts(); }
    FlatPasses("*.", "", 0);
    NothingCounted(0);
    assert "*." + "" == "*.";
    OneSegment("*.");
    BareIsContained("*.");
    forall x
      ensures !IsGlobstar("*." + x)
    {
      assert ("*." + x)[1] == '.';
    }
    hide IsGlobstar;
    OptionOf("js");
    OptionOf("jsx");
    OptionOf("ts");
  }

  lemma OptionOf(x: string)
    requires IsLiteral(x) && '.' !in x && ',' !in x && '}' !in x && ']' !in x
    ensures GlobOptions.Option(x)
  {
    assert '*' in "**" by { assert "**"[0] == '*'; }
  }

  /** A star and an extension match a file exactly by its extension. */
  lemma {:induction false} ExtensionMatches(ext: string, other: string)
    requires IsLiteral(ext) && IsLiteral(other) && '.' !in ext && '.' !in other && '}' !in ext && ext != "" && other != ""
    ensures Trimmed("*." + ext + "") == "*." + ext + ""
    ensures GlobMatches("*." + ext + "", ["a." + other]) <==> ext == other
  {
    hide GlobMatches, Wild, Parts, Segments, SegmentInOrder, NoPair, Trimmed, Means, PatternOf, PartTakes;
    var glob, word := "*." + ext, "a." + other;
    assert "*." + ext + "" == glob;
    ExtensionText(ext);
    assert WordOk(word) by { assert word[0] == 'a' && forall c :: c in word ==> c != '/'; }
    LoneGlob(glob, [word]);
    OneWord(Emitted, glob, word);
    ExtensionWild(ext, other);
  }

  lemma {:induction false} ExtensionText(ext: string)
    requires IsLiteral(ext) && '}' !in ext && ext != ""
    ensures var glob := "*." + ext;
            && Trimmed(glob) == glob && NoPair(glob) && Parts(glob) == [glob] && Segments(glob, 0) == [glob]
            && !IsGlobstar(glob) && SegmentInOrder(glob)
  {
    hide Parts, Segments, SegmentInOrder, Front, Rest, NoPair, Trimmed, NoBraces, Closed;
    var glob, tail := "*." + ext, "." + ext;
    ExtensionTrims(ext);
    assert glob == "*" + tail;
    DotIsLiteral(ext);
    LiteralText(tail);
    CharFront('*', tail);
    PartsIs(glob);
    CharInOrder(glob);
    NothingOpens(glob);
    assert Prepend("*", [tail]) == [glob];
  }

  lemma {:induction false} ExtensionWild(ext: string, other: string)
    requires IsLiteral(ext) && IsLiteral(other) && '.' !in ext && '.' !in other
    ensures Wild(Emitted, "*." + ext, "a." + other) <==> ext == other
  {
    hide Wild, Front, Rest, IsLiteral;
    var tail, word := "." + ext, "a." + other;
    assert IsLiteral(tail) by { DotIsLiteral(ext); }
    CharFront('*', tail);
    assert "*" + tail == "*." + ext && word[1..] == "." + other && word[..1] == "a";
    if Wild(Emitted, "*." + ext, word) {
      var j := WildStep(Emitted, "*." + ext, word);
      LiteralWild(Emitted, tail, word[j..]);
      assert j < |word| && word[j] == word[j..][0] == '.';
      OneDot(other);
      assert ext == tail[1..] && other == word[2..];
    }
    if ext == other {
      LiteralWild(Emitted, tail, tail);
      WildMore(Emitted, "*." + ext, "a", tail);
      assert "a" + tail == word;
    }
  }

  lemma OneDot(other: string)
    requires '.' !in other
    ensures var word := "a." + other; forall k :: 0 <= k < |word| && k != 1 ==> word[k] != '.'
  {
    var word := "a." + other;
    forall k | 2 <= k < |word|
      ensures word[k] != '.'
    {
      assert word[k] == other[k - 2] && other[k - 2] in other;
    }
  }

  lemma ExtensionTrims(ext: string)
    requires IsLiteral(ext) && '}' !in ext && ext != ""
    ensures var glob := "*." + ext;
            Trimmed(glob) == glob && NoPair(glob) && !IsGlobstar(glob) && '[' !in glob && '{' !in glob && glob[0] == '*'
  {
    var glob := "*." + ext;
    assert glob[0] == '*' && glob[1] == '.' && glob[|glob| - 1] in ext && "./"[0] == '.';
    assert '}' !in glob;
  }

  lemma DotIsLiteral(ext: string)
    requires IsLiteral(ext)
    ensures IsLiteral("." + ext)
  {
  }
}
