/** Lists of parts against words: how long a path has to be, which part takes which word, and which lists take any path
    at all. */
module GlobWords {
  import opened Glob
  import opened GlobMeaning

  // ----- patterns

  /** No slash outside of classes. */
  predicate SlashFree(e: string)
    decreases |e|
  {
    e == "" || (Front(e) != "/" && SlashFree(Rest(e)))
  }

  /** The characters a pattern asks for: one for every piece but the stars. */
  function Needed(e: string): nat
    decreases |e|
  {
    if e == "" then 0 else (if Front(e) == "*" then 0 else 1) + Needed(Rest(e))
  }

  lemma {:induction false} NeededAppend(a: string, t: string)
    requires Sealed(a, t)
    ensures Needed(a + t) == Needed(a) + Needed(t)
    ensures SlashFree(a + t) <==> SlashFree(a) && SlashFree(t)
    decreases |a|
  {
    hide Sealed;
    if a == "" {
      assert a + t == t;
    } else {
      FrontAppend(a, t);
      NeededAppend(Rest(a), t);
    }
  }

  /** A character other than a slash is among every class. */
  ghost predicate Inhabited(reading: Reading, e: string)
    decreases |e|
  {
    e == ""
    || ((IsClass(Front(e)) ==> exists c :: c != '/' && ClassHas(reading, Inside(Front(e)), c)) && Inhabited(reading, Rest(e)))
  }

  lemma {:induction false} InhabitedAppend(reading: Reading, a: string, t: string)
    requires Sealed(a, t)
    ensures Inhabited(reading, a + t) <==> Inhabited(reading, a) && Inhabited(reading, t)
    decreases |a|
  {
    hide Sealed;
    if a == "" {
      assert a + t == t;
    } else {
      FrontAppend(a, t);
      InhabitedAppend(reading, Rest(a), t);
    }
  }

  lemma {:induction false} WildIsLong(reading: Reading, e: string, s: string)
    requires Wild(reading, e, s)
    ensures |s| >= Needed(e)
    decreases |e|
  {
    if e != "" {
      hide Wild;
      var j := WildStep(reading, e, s);
      assert Front(e) != "*" ==> j > 0;
      WildIsLong(reading, Rest(e), s[j..]);
    }
  }

  /** As it is meant, a pattern without a slash takes only strings without one. */
  lemma {:induction false} MeantHasNoSlash(e: string, s: string)
    requires SlashFree(e) && Wild(Meant, e, s)
    ensures '/' !in s && Inhabited(Meant, e)
    decreases |e|
  {
    hide Wild, Takes, ClassHas;
    if e == "" {
      NothingWild(Meant);
    } else {
      var j := WildStep(Meant, e, s);
      MeantHasNoSlash(Rest(e), s[j..]);
      PieceHasNoSlash(e, s[..j]);
      InNeither(s, j, '/');
    }
  }

  lemma InNeither(s: string, j: nat, c: char)
    requires j <= |s| && c !in s[..j] && c !in s[j..]
    ensures c !in s
  {
    assert s == s[..j] + s[j..];
  }

  lemma PieceHasNoSlash(e: string, u: string)
    requires e != "" && Front(e) != "/" && Takes(Meant, Front(e), u)
    ensures '/' !in u
    ensures IsClass(Front(e)) ==> exists c :: c != '/' && ClassHas(Meant, Inside(Front(e)), c)
  {
    var x := Front(e);
    if IsClass(x) {
      assert u[0] != '/' && ClassHas(Meant, Inside(x), u[0]);
    } else {
      assert |x| == 1;
      assert x != "*" && x != "?" ==> u == x;
    }
  }

  lemma CharacterFor(reading: Reading, e: string) returns (c: char)
    requires e != "" && Front(e) != "/" && Front(e) != "*" && Inhabited(reading, e)
    ensures c != '/' && Takes(reading, Front(e), [c])
  {
    var x := Front(e);
    if x == "?" {
      c := 'a';
    } else if IsClass(x) {
      c :| c != '/' && ClassHas(reading, Inside(x), c);
    } else {
      c := x[0];
      assert x == [c];
    }
  }

  /** No string is shorter than what is needed, and one is as short. */
  lemma {:induction false} ShortestWord(reading: Reading, e: string) returns (w: string)
    requires SlashFree(e) && Inhabited(reading, e)
    ensures Wild(reading, e, w) && '/' !in w && |w| == Needed(e)
    decreases |e|
  {
    hide Wild;
    if e == "" {
      w := "";
      NothingWild(reading);
    } else {
      var rest := ShortestWord(reading, Rest(e));
      if Front(e) == "*" {
        w := rest;
        WildMore(reading, e, "", rest);
        assert "" + rest == rest;
      } else {
        var c := CharacterFor(reading, e);
        w := [c] + rest;
        WildMore(reading, e, [c], rest);
      }
    }
  }

  /** A pattern that asks for nothing but stars takes every string without a slash. */
  lemma {:induction false} StarsTakeAll(reading: Reading, e: string, s: string)
    requires Needed(e) == 0 && '/' !in s && (e == "" ==> s == "")
    ensures Wild(reading, e, s)
    decreases |e|
  {
    hide Wild;
    if e == "" {
      NothingWild(reading);
    } else {
      StarsTakeAll(reading, Rest(e), "");
      WildMore(reading, e, s, "");
      assert s + "" == s;
    }
  }

  /** A word a pattern takes, as short as can be. */
  lemma {:induction false} MatchingWord(reading: Reading, e: string) returns (w: string)
    requires e != "" && SlashFree(e) && Inhabited(reading, e)
    ensures WordOk(w) && Wild(reading, e, w) && |w| == if Needed(e) > 0 then Needed(e) else 1
  {
    hide Wild;
    w := ShortestWord(reading, e);
    if w == "" {
      w := "a";
      StarsTakeAll(reading, e, w);
    }
  }

  // ----- the parts of a text

  lemma {:induction false} PartsHaveNo(e: string, c: char)
    requires c !in e
    ensures forall p :: p in Parts(e) ==> c !in p
    decreases |e|
  {
    if e != "" {
      if e[0] == '/' {
        PartsHaveNo(e[1..], c);
      } else {
        assert e == Front(e) + Rest(e);
        PartsHaveNo(Rest(e), c);
      }
    }
  }

  /** An open bracket in a part is not closed in the parts behind it. */
  ghost predicate SealedParts(parts: seq<string>)
    decreases |parts|
  {
    parts == []
    || (SlashFree(parts[0]) && Sealed(parts[0], "/" + JoinSlash(parts[1..])) && SealedParts(parts[1..]))
  }

  ghost predicate AllSlashFree(parts: seq<string>) {
    forall i :: 0 <= i < |parts| ==> SlashFree(parts[i])
  }

  lemma {:induction false} SealedAreSlashFree(parts: seq<string>)
    requires SealedParts(parts)
    ensures AllSlashFree(parts)
  {
    if parts != [] {
      SealedAreSlashFree(parts[1..]);
      assert forall i :: 0 < i < |parts| ==> parts[i] == parts[1..][i - 1];
    }
  }

  lemma {:induction false} JoinPrepend(x: string, parts: seq<string>)
    requires parts != []
    ensures JoinSlash(Prepend(x, parts)) == x + JoinSlash(parts)
  {
    var all := Prepend(x, parts);
    assert all[1..] == parts[1..];
    JoinIs(all);
    JoinIs(parts);
    if |parts| > 1 {
      assert (x + parts[0]) + ("/" + JoinSlash(parts[1..])) == x + (parts[0] + ("/" + JoinSlash(parts[1..])));
    }
  }

  /** Splitting at slashes loses nothing and leaves no slash. */
  lemma {:induction false} PartsAre(e: string)
    ensures JoinSlash(Parts(e)) == e && SealedParts(Parts(e))
    decreases |e|
  {
    hide JoinSlash, SlashFree, Sealed;
    JoinIs(Parts(e));
    if e == "" {
      NoPartIsSealed([]);
      assert Parts(e)[1..] == [];
    } else if e[0] == '/' {
      var rest := Parts(e[1..]);
      PartsAre(e[1..]);
      NoPartIsSealed(rest);
      assert Parts(e)[1..] == rest && e == "/" + e[1..];
    } else {
      PartsAre(Rest(e));
      OnePieceMore(e, Parts(Rest(e)));
    }
  }

  lemma OnePieceMore(e: string, rest: seq<string>)
    requires e != "" && e[0] != '/' && rest != [] && SealedParts(rest) && JoinSlash(rest) == Rest(e)
    ensures JoinSlash(Prepend(Front(e), rest)) == e && SealedParts(Prepend(Front(e), rest))
  {
    JoinPrepend(Front(e), rest);
    FirstPartIs(e, rest);
    hide SlashFree, Sealed, JoinSlash, Front;
    assert Prepend(Front(e), rest)[1..] == rest[1..];
  }

  lemma NoPartIsSealed(rest: seq<string>)
    ensures SlashFree("") && Sealed("", "/" + JoinSlash(rest))
  {
  }

  lemma FirstPartIs(e: string, rest: seq<string>)
    requires e != "" && e[0] != '/' && rest != [] && SealedParts(rest) && JoinSlash(rest) == Rest(e)
    ensures SlashFree(Front(e) + rest[0]) && Sealed(Front(e) + rest[0], "/" + JoinSlash(rest[1..]))
  {
    var x, p, more := Front(e), rest[0], "/" + JoinSlash(rest[1..]);
    if x == "[" {
      OpenStays(e, rest);
    } else {
      ClosedPiece(e);
    }
    assert Sealed(x, p);
    PieceFront(e, p);
    assert Sealed(p, more) && SlashFree(p);
    assert x != "/";
    hide Front, Rest;
    PieceSeals(x, p, more);
  }

  lemma PieceSeals(x: string, p: string, more: string)
    requires x != "" && x != "/" && Front(x + p) == x && Rest(x + p) == p && SlashFree(p) && Sealed(p, more)
    requires x == "[" ==> ']' !in more
    ensures SlashFree(x + p) && Sealed(x + p, more)
  {
  }

  lemma OpenStays(e: string, rest: seq<string>)
    requires e != "" && Front(e) == "[" && rest != [] && JoinSlash(rest) == Rest(e)
    ensures ']' !in rest[0] && ']' !in "/" + JoinSlash(rest[1..])
  {
    assert ']' !in Rest(e);
    JoinIs(rest);
    if |rest| > 1 {
      assert Rest(e) == rest[0] + ("/" + JoinSlash(rest[1..]));
    }
  }

  lemma ClosedPiece(e: string)
    requires e != "" && Front(e) != "["
    ensures Closed(Front(e))
  {
    PieceIsItsFront(e);
  }

  // ----- lists of parts

  /** The words a list asks for: one for every part but the globstars. */
  function WordsNeeded(parts: seq<string>): nat {
    if parts == [] then 0 else (if IsGlobstar(parts[0]) then 0 else 1) + WordsNeeded(parts[1..])
  }

  lemma {:induction false} WordsNeededAppend(a: seq<string>, b: seq<string>)
    ensures WordsNeeded(a + b) == WordsNeeded(a) + WordsNeeded(b)
  {
    if a == [] {
      assert a + b == b;
    } else {
      assert (a + b)[1..] == a[1..] + b;
      WordsNeededAppend(a[1..], b);
    }
  }

  lemma {:induction false} MeaningIsLong(reading: Reading, parts: seq<string>, words: seq<string>)
    requires Meaning(reading, parts, words)
    ensures |words| >= WordsNeeded(parts)
    decreases |parts|
  {
    hide Wild;
    if parts != [] {
      var k :| 0 <= k <= |words| && (IsGlobstar(parts[0]) || PartTakes(reading, parts[0], words[..k]))
               && Meaning(reading, parts[1..], words[k..]);
      MeaningIsLong(reading, parts[1..], words[k..]);
    }
  }

  lemma NothingMeant(reading: Reading)
    ensures forall words :: Meaning(reading, [], words) <==> words == []
  {
  }

  lemma MeaningStep(reading: Reading, parts: seq<string>, words: seq<string>) returns (k: nat)
    requires parts != [] && Meaning(reading, parts, words)
    ensures k <= |words| && (IsGlobstar(parts[0]) || PartTakes(reading, parts[0], words[..k]))
    ensures Meaning(reading, parts[1..], words[k..])
  {
    k :| 0 <= k <= |words| && (IsGlobstar(parts[0]) || PartTakes(reading, parts[0], words[..k]))
         && Meaning(reading, parts[1..], words[k..]);
  }

  lemma MeaningMore(reading: Reading, part: string, parts: seq<string>, u: seq<string>, v: seq<string>)
    requires IsGlobstar(part) || PartTakes(reading, part, u)
    requires Meaning(reading, parts, v)
    ensures Meaning(reading, [part] + parts, u + v)
  {
    hide PartTakes;
    assert ([part] + parts)[1..] == parts && (u + v)[..|u|] == u && (u + v)[|u|..] == v;
  }

  lemma {:induction false} MeaningJoin(reading: Reading, a: seq<string>, b: seq<string>, u: seq<string>, v: seq<string>)
    requires Meaning(reading, a, u) && Meaning(reading, b, v)
    ensures Meaning(reading, a + b, u + v)
    decreases |a|
  {
    hide Meaning, PartTakes;
    NothingMeant(reading);
    if a == [] {
      assert a + b == b && u + v == v;
    } else {
      var k := MeaningStep(reading, a, u);
      MeaningJoin(reading, a[1..], b, u[k..], v);
      MeaningMore(reading, a[0], a[1..] + b, u[..k], u[k..] + v);
      assert a + b == [a[0]] + (a[1..] + b) && u + v == u[..k] + (u[k..] + v);
    }
  }

  lemma {:induction false} MeaningSplit(reading: Reading, a: seq<string>, b: seq<string>, words: seq<string>) returns (i: nat)
    requires Meaning(reading, a + b, words)
    ensures i <= |words| && Meaning(reading, a, words[..i]) && Meaning(reading, b, words[i..])
    decreases |a|
  {
    hide Meaning, PartTakes;
    NothingMeant(reading);
    if a == [] {
      i := 0;
      assert a + b == b && words[0..] == words;
    } else {
      assert (a + b)[1..] == a[1..] + b;
      var k := MeaningStep(reading, a + b, words);
      var n := MeaningSplit(reading, a[1..], b, words[k..]);
      i := k + n;
      MeaningMore(reading, a[0], a[1..], words[..k], words[k..][..n]);
      assert a == [a[0]] + a[1..] && words[..i] == words[..k] + words[k..][..n] && words[i..] == words[k..][n..];
    }
  }

  /** A part alone. */
  lemma MeaningOfOne(reading: Reading, part: string, words: seq<string>)
    requires !IsGlobstar(part)
    ensures Meaning(reading, [part], words) <==> PartTakes(reading, part, words)
  {
    hide PartTakes;
    assert words[..|words|] == words && words[|words|..] == [] && [part][1..] == [];
    assert forall k :: 0 <= k <= |words| && words[k..] == [] ==> words[..k] == words;
  }

  lemma GlobstarTakesAll(reading: Reading, words: seq<string>)
    ensures Meaning(reading, ["**"], words)
  {
    assert words[|words|..] == [] && ["**"][1..] == [];
  }

  /** Where a part stands among others: what is in front of it, what it takes and what is behind it. */
  lemma {:induction false} Around(reading: Reading, a: seq<string>, part: string, b: seq<string>, words: seq<string>)
    returns (i: nat, j: nat)
    requires !IsGlobstar(part) && Meaning(reading, a + [part] + b, words)
    ensures i < j <= |words| && Meaning(reading, a, words[..i]) && PartTakes(reading, part, words[i..j])
    ensures Meaning(reading, b, words[j..]) && WordsNeeded(a) <= i && WordsNeeded(b) <= |words| - j
    ensures reading.Meant? ==> j == i + 1
  {
    hide Meaning, Wild;
    assert a + [part] + b == a + ([part] + b);
    i := MeaningSplit(reading, a, [part] + b, words);
    var k := MeaningSplit(reading, [part], b, words[i..]);
    MeaningOfOne(reading, part, words[i..][..k]);
    j := i + k;
    assert words[i..][..k] == words[i..j] && words[i..][k..] == words[j..];
    MeaningIsLong(reading, a, words[..i]);
    MeaningIsLong(reading, b, words[j..]);
  }

  lemma AllAround(reading: Reading, a: seq<string>, part: string, b: seq<string>, u: seq<string>, v: seq<string>, w: seq<string>)
    requires !IsGlobstar(part) && Meaning(reading, a, u) && PartTakes(reading, part, v) && Meaning(reading, b, w)
    ensures Meaning(reading, a + [part] + b, u + v + w)
  {
    hide Meaning, PartTakes;
    MeaningOfOne(reading, part, v);
    MeaningJoin(reading, a, [part], u, v);
    MeaningJoin(reading, a + [part], b, u + v, w);
  }

  // ----- lists that take some path

  /** Every part, globstars aside, has a word: it asks for something and none of its classes is empty. */
  ghost predicate AllMatchable(reading: Reading, parts: seq<string>) {
    forall i :: 0 <= i < |parts| ==> IsGlobstar(parts[i]) || Matchable(reading, parts[i])
  }

  ghost predicate Matchable(reading: Reading, part: string) {
    part != "" && SlashFree(part) && Inhabited(reading, part)
  }

  lemma OneWord(reading: Reading, part: string, w: string)
    ensures PartTakes(reading, part, [w]) <==> Wild(reading, part, w)
  {
    hide Wild;
    JoinIs([w]);
  }

  /** A path no longer than needed. */
  lemma {:induction false} ShortestPath(reading: Reading, parts: seq<string>) returns (words: seq<string>)
    requires AllMatchable(reading, parts)
    ensures WordsOk(words) && Meaning(reading, parts, words) && |words| == WordsNeeded(parts)
  {
    hide Meaning, Matchable, PartTakes, Wild, WordOk;
    NothingMeant(reading);
    words := [];
    if parts != [] {
      var rest := parts[1..];
      assert forall i :: 0 <= i < |rest| ==> rest[i] == parts[i + 1];
      assert parts == [parts[0]] + rest;
      var there := ShortestPath(reading, rest);
      if IsGlobstar(parts[0]) {
        words := there;
        MeaningMore(reading, parts[0], rest, [], there);
        assert [] + there == there;
      } else {
        var w := MatchingWordOf(reading, parts[0]);
        OneWord(reading, parts[0], w);
        words := [w] + there;
        MeaningMore(reading, parts[0], rest, [w], there);
      }
    }
  }

  lemma MatchingWordOf(reading: Reading, part: string) returns (w: string)
    requires Matchable(reading, part)
    ensures WordOk(w) && Wild(reading, part, w)
  {
    w := MatchingWord(reading, part);
  }

  lemma {:induction false} MeantIsMatchable(parts: seq<string>, words: seq<string>)
    requires AllSlashFree(parts) && WordsOk(words) && Meaning(Meant, parts, words)
    ensures AllMatchable(Meant, parts)
    decreases |parts|
  {
    hide Meaning, Wild;
    if parts != [] {
      var k := MeaningStep(Meant, parts, words);
      assert forall i :: 0 <= i < |parts[1..]| ==> parts[1..][i] == parts[i + 1];
      MeantIsMatchable(parts[1..], words[k..]);
      if !IsGlobstar(parts[0]) {
        var w := words[..k][0];
        assert words[..k] == [w] && WordOk(w);
        OneWord(Meant, parts[0], w);
        MeantHasNoSlash(parts[0], w);
        NothingWild(Meant);
      }
      assert forall i :: 0 < i < |parts| ==> parts[i] == parts[1..][i - 1];
    }
  }

  lemma {:induction false} OnlyGlobstars(reading: Reading, parts: seq<string>, words: seq<string>)
    requires parts != [] && WordsNeeded(parts) == 0
    ensures Meaning(reading, parts, words)
  {
    hide Meaning;
    assert parts == [parts[0]] + parts[1..] && IsGlobstar(parts[0]);
    if |parts| == 1 {
      GlobstarTakesAll(reading, words);
      assert parts == ["**"];
    } else {
      OnlyGlobstars(reading, parts[1..], words);
      MeaningMore(reading, parts[0], parts[1..], [], words);
      assert [] + words == words;
    }
  }

  lemma SomePath(reading: Reading, parts: seq<string>) returns (words: seq<string>)
    requires parts != [] && AllMatchable(reading, parts)
    ensures IsPath(words) && Meaning(reading, parts, words)
  {
    hide Meaning, AllMatchable;
    words := ShortestPath(reading, parts);
    if words == [] {
      words := ["a"];
      OnlyGlobstars(reading, parts, words);
    }
  }

  /** A list of parts means some path exactly when none of its parts is empty or holds an empty class. */
  lemma CanMeanIff(parts: seq<string>)
    requires parts != [] && AllSlashFree(parts)
    ensures AllMatchable(Meant, parts) <==> exists words :: IsPath(words) && Meaning(Meant, parts, words)
  {
    hide Meaning, AllMatchable, AllSlashFree;
    if AllMatchable(Meant, parts) {
      var words := SomePath(Meant, parts);
    }
    if words :| IsPath(words) && Meaning(Meant, parts, words) {
      MeantIsMatchable(parts, words);
    }
  }

  // ----- lists whose emitted reading takes some path

  /** A string that can run on behind a slash, or behind anything else, so that no two slashes meet and none ends it. */
  predicate RunsNormally(s: string, atSlash: bool) {
    if s == "" then !atSlash
    else if s[0] == '/' then !atSlash && RunsNormally(s[1..], true)
    else RunsNormally(s[1..], false)
  }

  /** A pattern that takes such a string: an emitted class with nothing but a slash needs other characters around it. */
  ghost predicate CanRun(e: string, atSlash: bool)
    decreases |e|
  {
    if e == "" then
      !atSlash
    else if IsClass(Front(e)) && !exists c :: c != '/' && ClassHas(Emitted, Inside(Front(e)), c) then
      ClassHas(Emitted, Inside(Front(e)), '/') && !atSlash && CanRun(Rest(e), true)
    else
      CanRun(Rest(e), false)
  }

  lemma {:induction false} CanRunBehindMore(e: string)
    requires CanRun(e, true)
    ensures CanRun(e, false)
  {
  }

  lemma {:induction false} RunsAppend(u: string, v: string, atSlash: bool)
    requires '/' !in u && u != ""
    ensures RunsNormally(u + v, atSlash) <==> RunsNormally(v, false)
  {
    assert u[0] in u && (u + v)[1..] == u[1..] + v;
    if |u| > 1 {
      assert u == [u[0]] + u[1..];
      RunsAppend(u[1..], v, false);
    } else {
      assert u[1..] + v == v;
    }
  }

  lemma {:induction false} RunnerExists(e: string, atSlash: bool) returns (s: string)
    requires SlashFree(e) && CanRun(e, atSlash)
    ensures Wild(Emitted, e, s) && RunsNormally(s, atSlash)
    decreases |e|
  {
    hide Wild, RunsNormally;
    if e == "" {
      s := "";
      NothingWild(Emitted);
      assert RunsNormally("", false) by { NothingRuns(); }
    } else if IsClass(Front(e)) && !exists c :: c != '/' && ClassHas(Emitted, Inside(Front(e)), c) {
      var v := RunnerExists(Rest(e), true);
      s := "/" + v;
      WildMore(Emitted, e, "/", v);
      SlashRuns(v);
    } else {
      var v := RunnerExists(Rest(e), false);
      var u := FrontRunner(e);
      s := u + v;
      WildMore(Emitted, e, u, v);
      RunsAppend(u, v, atSlash);
    }
  }

  lemma NothingRuns()
    ensures RunsNormally("", false) && !RunsNormally("", true)
  {
  }

  lemma SlashRuns(v: string)
    ensures RunsNormally("/" + v, false) <==> RunsNormally(v, true)
    ensures !RunsNormally("/" + v, true)
  {
    assert ("/" + v)[1..] == v;
  }

  lemma FrontRunner(e: string) returns (u: string)
    requires e != "" && Front(e) != "/"
    requires IsClass(Front(e)) ==> exists c :: c != '/' && ClassHas(Emitted, Inside(Front(e)), c)
    ensures u != "" && '/' !in u && Takes(Emitted, Front(e), u)
  {
    var x := Front(e);
    if IsClass(x) {
      var c :| c != '/' && ClassHas(Emitted, Inside(x), c);
      u := [c];
    } else if x == "*" || x == "?" {
      u := "a";
    } else {
      u := x;
      assert |x| == 1;
    }
  }

  lemma {:induction false} RunnerCanRun(e: string, s: string, atSlash: bool)
    requires SlashFree(e) && Wild(Emitted, e, s) && RunsNormally(s, atSlash)
    ensures CanRun(e, atSlash)
    decreases |e|
  {
    hide Wild, RunsNormally;
    if e == "" {
      NothingWild(Emitted);
      NothingRuns();
    } else {
      var j := WildStep(Emitted, e, s);
      var u, v := s[..j], s[j..];
      assert s == u + v;
      if u == "" {
        assert Front(e) == "*" && v == s;
        RunnerCanRun(Rest(e), v, atSlash);
        if atSlash {
          CanRunBehindMore(Rest(e));
        }
      } else if '/' in u {
        SlashTaker(e, u);
        SlashRuns(v);
        RunnerCanRun(Rest(e), v, true);
        CanRunBehindMore(Rest(e));
      } else {
        RunsAppend(u, v, atSlash);
        RunnerCanRun(Rest(e), v, false);
        assert IsClass(Front(e)) ==> u[0] != '/' && ClassHas(Emitted, Inside(Front(e)), u[0]);
      }
    }
  }

  /** Of a pattern without a slash only a class takes one. */
  lemma SlashTaker(e: string, u: string)
    requires e != "" && Front(e) != "/" && Takes(Emitted, Front(e), u) && '/' in u
    ensures u == "/" && IsClass(Front(e)) && ClassHas(Emitted, Inside(Front(e)), '/')
  {
    var x := Front(e);
    assert !IsClass(x) ==> |x| == 1;
    assert |x| == 1 && '/' in x ==> x == "/";
  }

  /** Paths are the strings that run normally from a slash. */
  lemma {:induction false} PathRuns(words: seq<string>)
    requires IsPath(words)
    ensures RunsNormally(JoinSlash(words), true)
  {
    hide RunsNormally, JoinSlash;
    var w := words[0];
    JoinIs(words);
    assert WordOk(w);
    if |words| > 1 {
      PathRuns(words[1..]);
      RunsAppend(w, "/" + JoinSlash(words[1..]), true);
      SlashRuns(JoinSlash(words[1..]));
    } else {
      RunsAppend(w, "", true);
      NothingRuns();
      assert w + "" == w;
    }
  }

  lemma {:induction false} RunIsPath(s: string) returns (words: seq<string>)
    requires RunsNormally(s, true)
    ensures IsPath(words) && JoinSlash(words) == s
    decreases |s|
  {
    hide JoinSlash;
    var i := Find(s, '/');
    assert s != "" && i != 0;
    if i < 0 {
      words := [s];
      JoinIs(words);
    } else {
      var w, v := s[..i], s[i + 1..];
      assert s == w + ("/" + v);
      RunsAppend(w, "/" + v, true);
      SlashRuns(v);
      var rest := RunIsPath(v);
      words := [w] + rest;
      assert words[1..] == rest;
      JoinIs(words);
    }
  }

  /** The emitted reading of every part, globstars aside, takes some stretch of words. */
  ghost predicate CanMatch(parts: seq<string>) {
    forall i :: 0 <= i < |parts| ==> IsGlobstar(parts[i]) || CanRun(parts[i], true)
  }

  lemma {:induction false} MatchedCanRun(parts: seq<string>, words: seq<string>)
    requires AllSlashFree(parts) && WordsOk(words) && Meaning(Emitted, parts, words)
    ensures CanMatch(parts)
    decreases |parts|
  {
    hide Meaning, Wild, RunsNormally, CanRun;
    if parts != [] {
      var k := MeaningStep(Emitted, parts, words);
      assert forall i :: 0 <= i < |parts[1..]| ==> parts[1..][i] == parts[i + 1];
      MatchedCanRun(parts[1..], words[k..]);
      if !IsGlobstar(parts[0]) {
        PathRuns(words[..k]);
        RunnerCanRun(parts[0], JoinSlash(words[..k]), true);
      }
      assert forall i :: 0 < i < |parts| ==> parts[i] == parts[1..][i - 1];
    }
  }

  lemma {:induction false} MatchedPath(parts: seq<string>) returns (words: seq<string>)
    requires AllSlashFree(parts) && CanMatch(parts)
    ensures WordsOk(words) && Meaning(Emitted, parts, words) && (words == [] ==> WordsNeeded(parts) == 0)
    decreases |parts|
  {
    hide Meaning, Wild, RunsNormally, CanRun, WordOk;
    NothingMeant(Emitted);
    words := [];
    if parts != [] {
      var rest := parts[1..];
      assert forall i :: 0 <= i < |rest| ==> rest[i] == parts[i + 1];
      assert parts == [parts[0]] + rest;
      var there := MatchedPath(rest);
      var here: seq<string> := [];
      if !IsGlobstar(parts[0]) {
        var s := RunnerExists(parts[0], true);
        here := RunIsPath(s);
      }
      words := here + there;
      MeaningMore(Emitted, parts[0], rest, here, there);
    }
  }

  /** The emitted reading of a list of parts takes some path exactly when that of each part takes some stretch. */
  lemma CanMatchIff(parts: seq<string>)
    requires parts != [] && AllSlashFree(parts)
    ensures CanMatch(parts) <==> exists words :: IsPath(words) && Meaning(Emitted, parts, words)
  {
    hide Meaning, CanMatch, AllSlashFree;
    if CanMatch(parts) {
      var words := MatchedPath(parts);
      if words == [] {
        words := ["a"];
        OnlyGlobstars(Emitted, parts, words);
      }
      assert IsPath(words);
    }
    if words :| IsPath(words) && Meaning(Emitted, parts, words) {
      MatchedCanRun(parts, words);
    }
  }
}
