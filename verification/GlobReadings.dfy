/** Exactly when a list of parts takes the same paths as it is meant and as its emitted classes read. */
module GlobReadings {
  import opened GlobMeaning
  import opened GlobWords
  import opened GlobClasses

  ghost predicate PartsAgree(parts: seq<string>) {
    forall i :: 0 <= i < |parts| ==> ClassesAgree(parts[i])
  }

  // ----- a class with other members breaks the meaning

  lemma {:induction false} CoveredList(has: Reading, lacks: Reading, parts: seq<string>)
    requires AllMatchable(has, parts) && forall i :: 0 <= i < |parts| ==> Covered(has, lacks, parts[i])
    ensures AllMatchable(lacks, parts)
  {
    hide Inhabited, Covered;
    forall i | 0 <= i < |parts| && !IsGlobstar(parts[i])
      ensures Matchable(lacks, parts[i])
    {
      CoveredInhabited(has, lacks, parts[i]);
    }
  }

  lemma GlobstarHasNoClass(has: Reading, lacks: Reading)
    ensures Covered(has, lacks, "**") && ClassesAgree("**")
  {
    assert Front("**") == "*" && Rest("**") == "*" && Front("*") == "*" && Rest("*") == "";
    assert Covered(has, lacks, "*") && ClassesAgree("*");
  }

  /** A word with a character of one's choice where a class stands. */
  lemma WordAround(reading: Reading, a: string, x: string, t: string, c: char) returns (w: string)
    requires Closed(a) && IsClass(x) && Front(x + t) == x && Rest(x + t) == t
    requires SlashFree(a + (x + t)) && Inhabited(reading, a + (x + t)) && c != '/' && ClassHas(reading, Inside(x), c)
    ensures WordOk(w) && Wild(reading, a + (x + t), w)
    ensures |w| == Needed(a) + 1 + Needed(t) && w[Needed(a)] == c
  {
    hide Wild, ClassHas;
    NeededAppend(a, x + t);
    InhabitedAppend(reading, a, x + t);
    var front := ShortestWord(reading, a);
    var back := ShortestWord(reading, t);
    WildMore(reading, x + t, [c], back);
    WildJoin(reading, a, x + t, front, [c] + back);
    w := front + ([c] + back);
  }

  lemma CharacterAt(reading: Reading, a: string, x: string, t: string, w: string)
    requires Closed(a) && IsClass(x) && Front(x + t) == x && Rest(x + t) == t
    requires Wild(reading, a + (x + t), w) && |w| == Needed(a) + 1 + Needed(t)
    ensures ClassHas(reading, Inside(x), w[Needed(a)])
  {
    assert Sealed(a, x + t);
    hide Wild, ClassHas, Takes, Front, Rest, Closed, Needed, IsClass, Sealed;
    var i := WildSplit(reading, a, x + t, w);
    WildIsLong(reading, a, w[..i]);
    var v := w[i..];
    var j := WildStep(reading, x + t, v);
    WildIsLong(reading, t, v[j..]);
    ClassTakes(reading, x, v[..j]);
    assert i == Needed(a) && v[..j][0] == w[i];
  }

  lemma ClassTakes(reading: Reading, x: string, u: string)
    requires IsClass(x) && Takes(reading, x, u)
    ensures |u| == 1 && ClassHas(reading, Inside(x), u[0])
  {
  }

  lemma ListAround(parts: seq<string>, i: nat) returns (a: seq<string>, b: seq<string>)
    requires i < |parts|
    ensures parts == a + [parts[i]] + b && a == parts[..i] && b == parts[i + 1..]
  {
    a, b := parts[..i], parts[i + 1..];
  }

  lemma MatchableAround(reading: Reading, a: seq<string>, part: string, b: seq<string>)
    requires AllMatchable(reading, a + [part] + b)
    ensures AllMatchable(reading, a) && AllMatchable(reading, b) && (IsGlobstar(part) || Matchable(reading, part))
  {
    hide Matchable;
    var all := a + [part] + b;
    assert forall i :: 0 <= i < |a| ==> all[i] == a[i];
    assert forall i :: 0 <= i < |b| ==> all[|a| + 1 + i] == b[i];
    assert all[|a|] == part;
  }

  /** A class that has a character in one reading and not in the other tells the readings apart. */
  lemma {:induction false} ClassBreaks(has: Reading, lacks: Reading, a: seq<string>, part: string, b: seq<string>)
    returns (words: seq<string>)
    requires AllMatchable(has, a + [part] + b) && !Covered(has, lacks, part)
    ensures IsPath(words) && Meaning(has, a + [part] + b, words) && !Meaning(lacks, a + [part] + b, words)
  {
    hide Wild, ClassHas, Meaning, AllMatchable, Covered, PartTakes;
    GlobstarHasNoClass(has, lacks);
    MatchableAround(has, a, part, b);
    var w := WordApart(has, lacks, part);
    var u := ShortestPath(has, a);
    var v := ShortestPath(has, b);
    OneWord(has, part, w);
    AllAround(has, a, part, b, u, [w], v);
    words := u + [w] + v;
    if Meaning(lacks, a + [part] + b, words) {
      var i, j := Around(lacks, a, part, b, words);
      assert words[i..j] == [w];
      OneWord(lacks, part, w);
    }
  }

  lemma {:induction false} WordApart(has: Reading, lacks: Reading, part: string) returns (w: string)
    requires Matchable(has, part) && !Covered(has, lacks, part)
    ensures WordOk(w) && Wild(has, part, w) && !Wild(lacks, part, w)
  {
    hide Wild, ClassHas, Covered, Inhabited;
    var f, x, t, c := Uncovered(has, lacks, part);
    w := WordAround(has, f, x, t, c);
    if Wild(lacks, part, w) {
      CharacterAt(lacks, f, x, t, w);
    }
  }

  // ----- a class that takes a slash breaks it too, unless a globstar absorbs the word more

  /** A globstar in front takes words through parts that take anything. */
  ghost predicate AbsorbedLeft(parts: seq<string>)
    decreases |parts|
  {
    parts != []
    && (IsGlobstar(parts[|parts| - 1]) || (Anything(parts[|parts| - 1]) && AbsorbedLeft(parts[..|parts| - 1])))
  }

  ghost predicate AbsorbedRight(parts: seq<string>)
    decreases |parts|
  {
    parts != [] && (IsGlobstar(parts[0]) || (Anything(parts[0]) && AbsorbedRight(parts[1..])))
  }

  /** Otherwise the parts in front take some path of the length they ask for, and not with some word more behind it. */
  lemma {:induction false} BlockedLeft(parts: seq<string>) returns (words: seq<string>, v: string)
    requires AllMatchable(Meant, parts) && !AbsorbedLeft(parts)
    ensures WordsOk(words) && WordOk(v) && |words| == WordsNeeded(parts)
    ensures Meaning(Meant, parts, words) && !Meaning(Meant, parts, words + [v])
    decreases |parts|
  {
    hide Meaning, Wild, Anything, Matchable, PartTakes;
    NothingMeant(Meant);
    words, v := [], "a";
    if parts != [] {
      var n := |parts| - 1;
      var front, p := parts[..n], parts[n];
      assert parts == front + [p];
      MatchableAround(Meant, front, p, []);
      assert front + [p] + [] == parts;
      WordsNeededAppend(front, [p]);
      var w: string;
      if Anything(p) {
        words, w := BlockedLeft(front);
        v := w;
        AnythingWild(p, w);
      } else {
        words := ShortestPath(Meant, front);
        w := MatchingWordOf(Meant, p);
        v := WordLeftOut(p);
      }
      LastWord(front, p, words, w);
      if Meaning(Meant, parts, words + [w] + [v]) {
        LastTaken(front, p, words + [w], v);
      }
      words := words + [w];
    }
  }

  lemma AnythingWild(p: string, w: string)
    requires Anything(p) && WordOk(w)
    ensures Wild(Meant, p, w)
  {
    AnythingTakes(p, w);
  }

  lemma LastWord(front: seq<string>, p: string, words: seq<string>, w: string)
    requires !IsGlobstar(p) && Meaning(Meant, front, words) && Wild(Meant, p, w)
    ensures Meaning(Meant, front + [p], words + [w])
  {
    hide Meaning, Wild, PartTakes;
    OneWord(Meant, p, w);
    MeaningOfOne(Meant, p, [w]);
    MeaningJoin(Meant, front, [p], words, [w]);
  }

  lemma LastTaken(front: seq<string>, p: string, words: seq<string>, v: string)
    requires !IsGlobstar(p) && Meaning(Meant, front + [p], words + [v])
    ensures Meaning(Meant, front, words) && Wild(Meant, p, v)
  {
    hide Meaning, Wild;
    var i := MeaningSplit(Meant, front, [p], words + [v]);
    MeaningOfOne(Meant, p, (words + [v])[i..]);
    assert i == |words| && (words + [v])[i..] == [v] && (words + [v])[..i] == words;
    OneWord(Meant, p, v);
  }

  lemma {:induction false} BlockedRight(parts: seq<string>) returns (words: seq<string>, v: string)
    requires AllMatchable(Meant, parts) && !AbsorbedRight(parts)
    ensures WordsOk(words) && WordOk(v) && |words| == WordsNeeded(parts)
    ensures Meaning(Meant, parts, words) && !Meaning(Meant, parts, [v] + words)
    decreases |parts|
  {
    hide Meaning, Wild, Anything, Matchable, PartTakes;
    NothingMeant(Meant);
    words, v := [], "a";
    if parts != [] {
      var p, rest := parts[0], parts[1..];
      assert parts == [p] + rest;
      MatchableAround(Meant, [], p, rest);
      assert [] + [p] + rest == parts;
      var w: string;
      if Anything(p) {
        words, w := BlockedRight(rest);
        v := w;
        AnythingWild(p, w);
      } else {
        words := ShortestPath(Meant, rest);
        w := MatchingWordOf(Meant, p);
        v := WordLeftOut(p);
      }
      FirstWord(p, rest, w, words);
      if Meaning(Meant, parts, [v] + ([w] + words)) {
        FirstTaken(p, rest, v, [w] + words);
      }
      words := [w] + words;
    }
  }

  lemma FirstWord(p: string, rest: seq<string>, w: string, words: seq<string>)
    requires !IsGlobstar(p) && Wild(Meant, p, w) && Meaning(Meant, rest, words)
    ensures Meaning(Meant, [p] + rest, [w] + words)
  {
    hide Meaning, Wild, PartTakes;
    OneWord(Meant, p, w);
    MeaningMore(Meant, p, rest, [w], words);
  }

  lemma FirstTaken(p: string, rest: seq<string>, v: string, words: seq<string>)
    requires !IsGlobstar(p) && Meaning(Meant, [p] + rest, [v] + words)
    ensures Wild(Meant, p, v) && Meaning(Meant, rest, words)
  {
    hide Meaning, Wild;
    var k := MeaningStep(Meant, [p] + rest, [v] + words);
    assert ([v] + words)[..1] == [v] && ([v] + words)[1..] == words && ([p] + rest)[1..] == rest;
    OneWord(Meant, p, v);
  }

  /** What a list means its emitted reading takes as well, where the classes agree. */
  lemma {:induction false} MeantIsEmitted(parts: seq<string>, words: seq<string>)
    requires PartsAgree(parts) && AllSlashFree(parts) && WordsOk(words) && Meaning(Meant, parts, words)
    ensures Meaning(Emitted, parts, words)
    decreases |parts|
  {
    hide Meaning, Wild, ClassesAgree, SlashFree, WordOk;
    NothingMeant(Meant);
    NothingMeant(Emitted);
    if parts != [] {
      var p, rest := parts[0], parts[1..];
      assert parts == [p] + rest && forall i :: 0 <= i < |rest| ==> rest[i] == parts[i + 1];
      var k := MeaningStep(Meant, parts, words);
      MeantIsEmitted(rest, words[k..]);
      if !IsGlobstar(p) {
        var w := words[..k][0];
        assert words[..k] == [w];
        OneWord(Meant, p, w);
        OneWord(Emitted, p, w);
        MeantHasNoSlash(p, w);
        WildAgrees(p, w);
      }
      MeaningMore(Emitted, p, rest, words[..k], words[k..]);
      assert words == words[..k] + words[k..];
    }
  }

  /** A class that takes a slash inside a part tells the readings apart, unless the part takes anything and a globstar
      absorbs the word more. */
  lemma {:induction false} SlashBreaks(a: seq<string>, part: string, b: seq<string>) returns (words: seq<string>)
    requires AllMatchable(Meant, a + [part] + b) && PartsAgree(a + [part] + b)
    requires SlashWithin(part, true) && !IsGlobstar(part)
    requires Anything(part) ==> !AbsorbedLeft(a) && !AbsorbedRight(b)
    ensures IsPath(words) && Meaning(Emitted, a + [part] + b, words) && !Meaning(Meant, a + [part] + b, words)
  {
    hide Wild, Meaning, AllMatchable, Anything, PartTakes, SlashWithin, AbsorbedLeft, AbsorbedRight;
    MatchableAround(Meant, a, part, b);
    AgreesAround(a, part, b);
    AgreeIsCovered(part);
    CoveredInhabited(Meant, Emitted, part);
    var u, v := TwoWords(part);
    var front, back: seq<string>;
    if Anything(part) {
      front, u := BlockedLeft(a);
      back, v := BlockedRight(b);
      TwoOfAnything(part, u, v);
    } else {
      front := ShortestPath(Meant, a);
      back := ShortestPath(Meant, b);
    }
    MatchableIsSlashFree(a);
    MatchableIsSlashFree(b);
    MeantIsEmitted(a, front);
    MeantIsEmitted(b, back);
    AllAround(Emitted, a, part, b, front, [u, v], back);
    words := front + [u, v] + back;
    if Meaning(Meant, a + [part] + b, words) {
      OneWordTooMany(a, part, b, front, u, v, back);
    }
  }

  lemma {:induction false} OneWordTooMany(a: seq<string>, part: string, b: seq<string>, front: seq<string>, u: string,
                                          v: string, back: seq<string>)
    requires !IsGlobstar(part) && Meaning(Meant, a + [part] + b, front + [u, v] + back)
    requires |front| == WordsNeeded(a) && |back| == WordsNeeded(b)
    ensures (Meaning(Meant, a, front + [u]) && Wild(Meant, part, v)) || (Wild(Meant, part, u) && Meaning(Meant, b, [v] + back))
  {
    hide Wild, Meaning;
    var words := front + [u, v] + back;
    var i, j := Around(Meant, a, part, b, words);
    OneWord(Meant, part, u);
    OneWord(Meant, part, v);
    if i == |front| {
      assert words[i..j] == [u] && words[j..] == [v] + back;
    } else {
      assert i == |front| + 1 && words[i..j] == [v] && words[..i] == front + [u];
    }
  }

  lemma AgreesAround(a: seq<string>, part: string, b: seq<string>)
    requires PartsAgree(a + [part] + b)
    ensures PartsAgree(a) && ClassesAgree(part) && PartsAgree(b)
  {
    hide ClassesAgree;
    var all := a + [part] + b;
    assert forall i :: 0 <= i < |a| ==> all[i] == a[i];
    assert forall i :: 0 <= i < |b| ==> all[|a| + 1 + i] == b[i];
    assert all[|a|] == part;
  }

  lemma MatchableIsSlashFree(parts: seq<string>)
    requires AllMatchable(Meant, parts)
    ensures AllSlashFree(parts)
  {
    assert Front("**") == "*" && Rest("**") == "*" && Front("*") == "*" && Rest("*") == "";
    assert SlashFree("*");
  }

  /** A part that takes anything, with a class in it that takes a slash, takes any two words. */
  lemma {:induction false} TwoOfAnything(p: string, u: string, v: string)
    requires SlashFree(p) && SlashWithin(p, true) && Anything(p) && WordOk(u) && WordOk(v)
    ensures PartTakes(Emitted, p, [u, v])
  {
    hide Wild, ClassHas, PartTakes, SlashWithin;
    var a, x, t := SlashStands(p, true);
    NeededAppend(a, x + t);
    assert Needed(x + t) == 1 + Needed(t);
    StarsTakeAll(Emitted, a, u);
    StarsTakeAll(Emitted, t, v);
    AroundSlash(a, x, t, u, v);
  }

  // ----- and keeps it where one does

  /** Every class that takes a slash inside a part stands in one that takes anything, next to parts that take anything and
      a globstar behind them. */
  ghost predicate SlashesAbsorbed(parts: seq<string>) {
    forall i :: 0 <= i < |parts| && SlashWithin(parts[i], true) ==>
      Anything(parts[i]) && (AbsorbedLeft(parts[..i]) || AbsorbedRight(parts[i + 1..]))
  }

  /** A globstar behind every part that may take a word more. */
  function Loosened(parts: seq<string>): seq<string> {
    if parts == [] then []
    else (if SlashWithin(parts[0], true) then [parts[0], "**"] else [parts[0]]) + Loosened(parts[1..])
  }

  lemma {:induction false} EmittedIsLoose(parts: seq<string>, words: seq<string>)
    requires PartsAgree(parts) && AllSlashFree(parts) && WordsOk(words) && Meaning(Emitted, parts, words)
    requires forall i :: 0 <= i < |parts| && SlashWithin(parts[i], true) ==> Anything(parts[i])
    ensures Meaning(Meant, Loosened(parts), words)
    decreases |parts|
  {
    hide Meaning, Wild, ClassesAgree, SlashFree, WordOk, SlashWithin, Anything, PartTakes;
    NothingMeant(Meant);
    NothingMeant(Emitted);
    if parts != [] {
      var p, rest := parts[0], parts[1..];
      assert parts == [p] + rest && forall i :: 0 <= i < |rest| ==> rest[i] == parts[i + 1];
      var k := MeaningStep(Emitted, parts, words);
      EmittedIsLoose(rest, words[k..]);
      var first := if SlashWithin(p, true) then [p, "**"] else [p];
      LoosePart(p, words[..k]);
      MeaningJoin(Meant, first, Loosened(rest), words[..k], words[k..]);
      assert words == words[..k] + words[k..];
    }
  }

  lemma LoosePart(p: string, words: seq<string>)
    requires ClassesAgree(p) && SlashFree(p) && WordsOk(words) && (SlashWithin(p, true) ==> Anything(p))
    requires IsGlobstar(p) || PartTakes(Emitted, p, words)
    ensures Meaning(Meant, if SlashWithin(p, true) then [p, "**"] else [p], words)
  {
    hide Meaning, Wild, ClassesAgree, SlashFree, SlashWithin, Anything;
    if IsGlobstar(p) {
      StarsTakeNoSlash();
      GlobstarTakesAll(Meant, words);
    } else if SlashWithin(p, true) {
      var w := words[0];
      AnythingWild(p, w);
      OneWord(Meant, p, w);
      GlobstarTakesAll(Meant, words[1..]);
      MeaningMore(Meant, p, ["**"], [w], words[1..]);
      assert words == [w] + words[1..] && [p, "**"] == [p] + ["**"];
    } else {
      LoneWord(p, words);
      var w := words[0];
      assert words == [w] && WordOk(w);
      OneWord(Emitted, p, w);
      OneWord(Meant, p, w);
      WildAgrees(p, w);
      MeaningOfOne(Meant, p, words);
    }
  }

  lemma StarsTakeNoSlash()
    ensures !SlashWithin("**", true)
  {
    assert Front("**") == "*" && Rest("**") == "*" && Front("*") == "*" && Rest("*") == "";
    assert !SlashWithin("*", false);
  }

  /** What absorbs takes any words more. */
  lemma {:induction false} AbsorbsLeft(parts: seq<string>, words: seq<string>, more: seq<string>)
    requires AbsorbedLeft(parts) && Meaning(Meant, parts, words) && WordsOk(words) && WordsOk(more)
    ensures Meaning(Meant, parts, words + more)
    decreases |parts|
  {
    hide Meaning, Wild, Anything, WordOk, PartTakes;
    var n := |parts| - 1;
    var front, p := parts[..n], parts[n];
    assert parts == front + [p];
    var i := MeaningSplit(Meant, front, [p], words);
    if IsGlobstar(p) {
      GlobstarTakesAll(Meant, words[i..] + more);
      MeaningJoin(Meant, front, [p], words[..i], words[i..] + more);
      assert words + more == words[..i] + (words[i..] + more);
    } else if more == [] {
      assert words + more == words;
    } else {
      var all := words + more;
      var m := |all| - 1;
      MeaningOfOne(Meant, p, words[i..]);
      assert i <= m by { OneAtATime(p, words[i..]); }
      assert WordOk(all[m]) && all[..m] == words[..i] + all[i..m];
      AbsorbsLeft(front, words[..i], all[i..m]);
      AnythingWild(p, all[m]);
      LastWord(front, p, all[..m], all[m]);
      assert all == all[..m] + [all[m]];
    }
  }

  lemma OneAtATime(p: string, words: seq<string>)
    requires PartTakes(Meant, p, words)
    ensures |words| == 1
  {
  }

  lemma {:induction false} AbsorbsRight(parts: seq<string>, words: seq<string>, more: seq<string>)
    requires AbsorbedRight(parts) && Meaning(Meant, parts, words) && WordsOk(words) && WordsOk(more)
    ensures Meaning(Meant, parts, more + words)
    decreases |parts|
  {
    hide Meaning, Wild, Anything, WordOk, PartTakes;
    var p, rest := parts[0], parts[1..];
    assert parts == [p] + rest;
    var k := MeaningStep(Meant, parts, words);
    if IsGlobstar(p) {
      MeaningMore(Meant, p, rest, more + words[..k], words[k..]);
      assert more + words == (more + words[..k]) + words[k..];
    } else if more == [] {
      assert more + words == words;
    } else {
      var all := more + words;
      assert k == 1 by { OneAtATime(p, words[..k]); }
      assert WordOk(all[0]) && all[1..] == all[1..|more| + 1] + words[1..];
      AbsorbsRight(rest, words[1..], all[1..|more| + 1]);
      AnythingWild(p, all[0]);
      FirstWord(p, rest, all[0], all[1..]);
      assert all == [all[0]] + all[1..];
    }
  }

  lemma {:induction false} ApartWithGlobstar(a: seq<string>, p: string, b: seq<string>, words: seq<string>)
    returns (u: seq<string>, w: string, s: seq<string>, v: seq<string>)
    requires !IsGlobstar(p) && Meaning(Meant, a + [p] + (["**"] + b), words)
    ensures words == u + [w] + s + v && Meaning(Meant, a, u) && PartTakes(Meant, p, [w]) && Meaning(Meant, b, v)
  {
    hide Meaning, PartTakes;
    var i, j := Around(Meant, a, p, ["**"] + b, words);
    var k := MeaningStep(Meant, ["**"] + b, words[j..]);
    assert (["**"] + b)[1..] == b;
    u, w, s, v := words[..i], words[i], words[j..][..k], words[j..][k..];
    assert words[i..j] == [w];
  }

  /** So a globstar behind a part that takes anything changes nothing there. */
  lemma {:induction false} GlobstarIsSpare(a: seq<string>, p: string, b: seq<string>, words: seq<string>)
    requires Anything(p) && !IsGlobstar(p) && (AbsorbedLeft(a) || AbsorbedRight(b)) && WordsOk(words)
    requires Meaning(Meant, a + [p] + (["**"] + b), words)
    ensures Meaning(Meant, a + [p] + b, words)
  {
    hide Meaning, Wild, Anything, AbsorbedLeft, AbsorbedRight, PartTakes, WordsOk;
    var u, w, s, v := ApartWithGlobstar(a, p, b, words);
    WordsOkApart(u, [w] + s, v);
    WordsOkApart(u + [w], s, v);
    assert words == u + ([w] + s) + v;
    if AbsorbedRight(b) {
      AbsorbsRight(b, v, s);
      AllAround(Meant, a, p, b, u, [w], s + v);
      assert words == u + [w] + (s + v);
    } else {
      SpareLeft(a, p, b, u, [w] + s, v);
    }
  }

  lemma WordsOkApart(u: seq<string>, s: seq<string>, v: seq<string>)
    ensures WordsOk(u + s + v) ==> WordsOk(u) && WordsOk(s) && WordsOk(v)
  {
    hide WordOk;
    var all := u + s + v;
    assert forall i :: 0 <= i < |u| ==> all[i] == u[i];
    assert forall i :: 0 <= i < |s| ==> all[|u| + i] == s[i];
    assert forall i :: 0 <= i < |v| ==> all[|u| + |s| + i] == v[i];
  }

  lemma {:induction false} SpareLeft(a: seq<string>, p: string, b: seq<string>, u: seq<string>, s: seq<string>, v: seq<string>)
    requires Anything(p) && !IsGlobstar(p) && AbsorbedLeft(a) && WordsOk(u) && WordsOk(s) && s != []
    requires Meaning(Meant, a, u) && Meaning(Meant, b, v)
    ensures Meaning(Meant, a + [p] + b, u + s + v)
  {
    hide Meaning, Wild, Anything, AbsorbedLeft, WordOk, PartTakes;
    var m := |s| - 1;
    AbsorbsLeft(a, u, s[..m]);
    AnythingWild(p, s[m]);
    OneWord(Meant, p, s[m]);
    AllAround(Meant, a, p, b, u + s[..m], [s[m]], v);
    assert u + s + v == u + s[..m] + [s[m]] + v;
  }

  lemma {:induction false} LooseAbsorbs(parts: seq<string>)
    requires AbsorbedRight(parts)
    ensures AbsorbedRight(Loosened(parts))
  {
    hide Anything, SlashWithin;
    var p, rest := parts[0], parts[1..];
    var loose := Loosened(parts);
    if !IsGlobstar(p) {
      if SlashWithin(p, true) {
        assert loose[0] == p && loose[1..] == ["**"] + Loosened(rest);
      } else {
        LooseAbsorbs(rest);
        assert loose[0] == p && loose[1..] == Loosened(rest);
      }
    }
  }

  /** Tightening what was loosened, from the left. */
  lemma {:induction false} Tightens(parts: seq<string>, n: nat, words: seq<string>)
    requires n <= |parts| && SlashesAbsorbed(parts) && WordsOk(words)
    requires Meaning(Meant, parts[..n] + Loosened(parts[n..]), words)
    ensures Meaning(Meant, parts, words)
    decreases |parts| - n
  {
    hide Meaning, Anything, SlashWithin, AbsorbedLeft, AbsorbedRight;
    if n == |parts| {
      assert parts[..n] + Loosened(parts[n..]) == parts;
    } else {
      var a, p, b := parts[..n], parts[n], parts[n + 1..];
      assert parts[n..][0] == p && parts[n..][1..] == b && parts[..n + 1] == a + [p];
      if SlashWithin(p, true) {
        StarsTakeNoSlash();
        assert a + Loosened(parts[n..]) == a + [p] + (["**"] + Loosened(b));
        if AbsorbedRight(b) {
          LooseAbsorbs(b);
        }
        GlobstarIsSpare(a, p, Loosened(b), words);
      } else {
        assert a + Loosened(parts[n..]) == a + [p] + Loosened(b);
      }
      Tightens(parts, n + 1, words);
    }
  }

  // ----- exactly when

  ghost predicate ReadingsAgree(parts: seq<string>) {
    forall words :: IsPath(words) ==> (Meaning(Emitted, parts, words) <==> Meaning(Meant, parts, words))
  }

  lemma {:induction false} AgreeWhenAbsorbed(parts: seq<string>)
    requires AllSlashFree(parts) && PartsAgree(parts) && SlashesAbsorbed(parts)
    ensures ReadingsAgree(parts)
  {
    hide Meaning, PartsAgree, SlashesAbsorbed, AllSlashFree;
    forall words | IsPath(words)
      ensures Meaning(Emitted, parts, words) <==> Meaning(Meant, parts, words)
    {
      if Meaning(Meant, parts, words) {
        MeantIsEmitted(parts, words);
      }
      if Meaning(Emitted, parts, words) {
        AbsorbedIsAnything(parts);
        EmittedIsLoose(parts, words);
        assert parts[..0] + Loosened(parts[0..]) == Loosened(parts) by { assert parts[0..] == parts; }
        Tightens(parts, 0, words);
      }
    }
  }

  lemma AbsorbedIsAnything(parts: seq<string>)
    requires SlashesAbsorbed(parts)
    ensures forall i :: 0 <= i < |parts| && SlashWithin(parts[i], true) ==> Anything(parts[i])
  {
  }

  /** A list that means some path takes the same paths as meant and as emitted exactly when its classes agree, slashes
      aside, and every slash that one of them takes inside a part is absorbed. */
  lemma {:induction false} ReadingsAgreeIff(parts: seq<string>)
    requires AllMatchable(Meant, parts)
    ensures ReadingsAgree(parts) <==> PartsAgree(parts) && SlashesAbsorbed(parts)
  {
    hide Meaning, AllMatchable, ClassesAgree, Covered, SlashWithin, Anything, AbsorbedLeft, AbsorbedRight, AllSlashFree, IsPath;
    MatchableIsSlashFree(parts);
    if PartsAgree(parts) && SlashesAbsorbed(parts) {
      AgreeWhenAbsorbed(parts);
    } else if !PartsAgree(parts) {
      Disagree(parts);
    } else {
      var i :| 0 <= i < |parts| && SlashWithin(parts[i], true)
               && !(Anything(parts[i]) && (AbsorbedLeft(parts[..i]) || AbsorbedRight(parts[i + 1..])));
      StarsTakeNoSlash();
      var a, b := ListAround(parts, i);
      var words := SlashBreaks(a, parts[i], b);
    }
  }

  lemma {:induction false} Disagree(parts: seq<string>)
    requires AllMatchable(Meant, parts) && !PartsAgree(parts)
    ensures !ReadingsAgree(parts)
  {
    hide Meaning, AllMatchable, ClassesAgree, Covered, IsPath;
    forall i | 0 <= i < |parts|
      ensures ClassesAgree(parts[i]) <==> Covered(Meant, Emitted, parts[i]) && Covered(Emitted, Meant, parts[i])
    {
      AgreeIsCovered(parts[i]);
    }
    if i :| 0 <= i < |parts| && !Covered(Meant, Emitted, parts[i]) {
      var a, b := ListAround(parts, i);
      var words := ClassBreaks(Meant, Emitted, a, parts[i], b);
    } else {
      var i :| 0 <= i < |parts| && !Covered(Emitted, Meant, parts[i]);
      CoveredList(Meant, Emitted, parts);
      var a, b := ListAround(parts, i);
      var words := ClassBreaks(Emitted, Meant, a, parts[i], b);
    }
  }
}
