/** Character classes: when the emitted members are the ones meant, and what a class that takes a slash does to a glob. */
module GlobClasses {
  import opened Regex
  import opened Glob
  import opened GlobMeaning
  import opened GlobPaths
  import opened GlobWords

  // ----- members

  /** Slashes aside, the emitted class has the members that are meant. */
  ghost predicate AgreesOffSlash(body: string) {
    forall c :: c != '/' ==> (ClassHas(Emitted, body, c) <==> ClassHas(Meant, body, c))
  }

  /** A negated class that lists a dash first and goes on: behind the emitted slash the dash makes a range. */
  predicate OpensWithDash(body: string) {
    Negated(body) && |body| >= 3 && body[1] == '-'
  }

  /** Every other class the engine takes keeps its members, slashes aside. */
  lemma AgreesWithoutDash(body: string)
    requires InOrder(body) && !OpensWithDash(body)
    ensures AgreesOffSlash(body)
  {
    forall c | c != '/'
      ensures ClassHas(Emitted, body, c) <==> ClassHas(Meant, body, c)
    {
      EmittedAre(body, c);
      if Negated(body) {
        assert ("/" + body[1..])[1..] == body[1..];
        ListedIsInRanges(body[1..], c);
        ListedIsInRanges("/" + body[1..], c);
      }
    }
  }

  /** A slash is taken exactly by the classes in order that list it and are not negated. */
  lemma TakesSlashIff(body: string)
    ensures ClassHas(Emitted, body, '/') <==> InOrder(body) && !Negated(body) && Listed(body, '/')
  {
    EmittedAre(body, '/');
    if Negated(body) {
      NegatedTakesNoSlash(body);
    }
  }

  /** A dash in front is lost, so such a class does not keep its members unless it lists the dash again. */
  lemma DashIsLost(body: string)
    requires InOrder(body) && OpensWithDash(body)
    ensures !ClassHas(Meant, body, '-')
    ensures ClassHas(Emitted, body, '-') <==> !Listed(body[3..], '-')
    ensures AgreesOffSlash(body) ==> Listed(body[3..], '-')
  {
    var text := "/" + body[1..];
    assert text[0] == '/' && text[1] == '-' && text[2] == body[2] && text[3..] == body[3..];
    EmittedAre(body, '-');
    ListedIsInRanges(text, '-');
    ListedIsInRanges(body[3..], '-');
    ListedIsInRanges(body[1..], '-');
    assert InRanges(body[1..], '-');
  }

  // ----- members, by comparing spans

  const SURROGATES: int := 0xD800
  const SURROGATES_END: int := 0xE000

  /** How far the spans that hold a character reach beyond it; the character itself where none does. */
  function ReachOf(spans: seq<Span>, from: int): (r: int)
    ensures r >= from
  {
    if spans == [] then from
    else
      var rest := ReachOf(spans[1..], from);
      if spans[0].low as int <= from <= spans[0].high as int && spans[0].high as int >= rest then spans[0].high as int + 1
      else rest
  }

  /** Sweeping from `low` to `high` over the spans without a gap; surrogates are no characters. */
  predicate Covers(spans: seq<Span>, low: int, high: int)
    decreases high - low
  {
    if low > high then true
    else if SURROGATES <= low < SURROGATES_END then Covers(spans, SURROGATES_END, high)
    else ReachOf(spans, low) > low && Covers(spans, ReachOf(spans, low), high)
  }

  lemma {:induction false} ReachHolds(spans: seq<Span>, from: int, c: char)
    requires from <= c as int < ReachOf(spans, from)
    ensures Among(spans, c)
  {
    var rest := ReachOf(spans[1..], from);
    if spans[0].low as int <= from <= spans[0].high as int && spans[0].high as int >= rest {
      assert spans[0].low <= c <= spans[0].high;
    } else {
      ReachHolds(spans[1..], from, c);
      var i :| 0 <= i < |spans[1..]| && spans[1..][i].low <= c <= spans[1..][i].high;
      assert spans[i + 1].low <= c <= spans[i + 1].high;
    }
  }

  lemma {:induction false} ReachIsBeyond(spans: seq<Span>, c: char)
    requires Among(spans, c)
    ensures ReachOf(spans, c as int) > c as int
  {
    var i :| 0 <= i < |spans| && spans[i].low <= c <= spans[i].high;
    if i > 0 {
      assert spans[1..][i - 1].low <= c <= spans[1..][i - 1].high;
      ReachIsBeyond(spans[1..], c);
    }
  }

  lemma {:induction false} CoversIff(spans: seq<Span>, low: int, high: int)
    requires 0 <= low && high < 0x11_0000
    ensures Covers(spans, low, high) <==> forall c: char :: low <= c as int <= high ==> Among(spans, c)
    decreases high - low
  {
    hide ReachOf, Among;
    if low <= high {
      if SURROGATES <= low < SURROGATES_END {
        CoversIff(spans, SURROGATES_END, high);
      } else {
        var reach := ReachOf(spans, low);
        if reach > low {
          CoversIff(spans, reach, high);
          forall c: char | low <= c as int < reach
            ensures Among(spans, c)
          {
            ReachHolds(spans, low, c);
          }
        } else if Among(spans, low as char) {
          ReachIsBeyond(spans, low as char);
        }
      }
    }
  }

  /** Every span lies within others. */
  predicate SpansWithin(spans: seq<Span>, others: seq<Span>) {
    forall i :: 0 <= i < |spans| ==> Covers(others, spans[i].low as int, spans[i].high as int)
  }

  lemma {:induction false} SpansWithinIff(spans: seq<Span>, others: seq<Span>)
    ensures SpansWithin(spans, others) <==> forall c :: Among(spans, c) ==> Among(others, c)
  {
    hide Covers;
    forall i | 0 <= i < |spans|
      ensures Covers(others, spans[i].low as int, spans[i].high as int)
         <==> forall c :: spans[i].low <= c <= spans[i].high ==> Among(others, c)
    {
      CoversIff(others, spans[i].low as int, spans[i].high as int);
    }
  }

  const SLASH: Span := Span('/', '/')

  lemma AmongOrSlash(spans: seq<Span>, c: char)
    ensures Among(spans + [SLASH], c) <==> Among(spans, c) || c == '/'
  {
    var all := spans + [SLASH];
    assert all[|spans|] == SLASH;
    assert forall i :: 0 <= i < |spans| ==> all[i] == spans[i];
  }

  /** A class the engine takes keeps its members exactly when what is listed and what is emitted span the same characters,
      slashes aside. */
  lemma {:induction false} AgreesIff(body: string)
    requires InOrder(body)
    ensures var meant, emitted := Listing(if Negated(body) then body[1..] else body), Listing(EmittedText(body));
            AgreesOffSlash(body) <==> SpansWithin(meant, emitted + [SLASH]) && SpansWithin(emitted, meant + [SLASH])
  {
    var meant, emitted := Listing(if Negated(body) then body[1..] else body), Listing(EmittedText(body));
    SpansWithinIff(meant, emitted + [SLASH]);
    SpansWithinIff(emitted, meant + [SLASH]);
    hide Among, SpansWithin, Listing, InOrder, Negated;
    forall c
      ensures Among(emitted + [SLASH], c) <==> Among(emitted, c) || c == '/'
      ensures Among(meant + [SLASH], c) <==> Among(meant, c) || c == '/'
      ensures c != '/' ==> ((ClassHas(Emitted, body, c) <==> ClassHas(Meant, body, c)) <==> (Among(emitted, c) <==> Among(meant, c)))
    {
      AmongOrSlash(emitted, c);
      AmongOrSlash(meant, c);
      EmittedAre(body, c);
    }
  }

  // ----- patterns

  /** Slashes aside, every class has in one reading what it has in another. */
  ghost predicate Covered(has: Reading, lacks: Reading, e: string)
    decreases |e|
  {
    e == ""
    || ((IsClass(Front(e)) ==> forall c :: c != '/' && ClassHas(has, Inside(Front(e)), c) ==> ClassHas(lacks, Inside(Front(e)), c))
        && Covered(has, lacks, Rest(e)))
  }

  ghost predicate ClassesAgree(e: string)
    decreases |e|
  {
    e == "" || ((IsClass(Front(e)) ==> AgreesOffSlash(Inside(Front(e)))) && ClassesAgree(Rest(e)))
  }

  lemma {:induction false} AgreeIsCovered(e: string)
    ensures ClassesAgree(e) <==> Covered(Meant, Emitted, e) && Covered(Emitted, Meant, e)
    decreases |e|
  {
    hide ClassHas;
    if e != "" {
      AgreeIsCovered(Rest(e));
    }
  }

  lemma {:induction false} CoveredInhabited(has: Reading, lacks: Reading, e: string)
    requires Covered(has, lacks, e) && Inhabited(has, e)
    ensures Inhabited(lacks, e)
    decreases |e|
  {
    hide ClassHas;
    if e != "" {
      CoveredInhabited(has, lacks, Rest(e));
    }
  }

  lemma PieceAgrees(e: string, u: string)
    requires e != "" && ClassesAgree(e) && '/' !in u
    ensures Takes(Emitted, Front(e), u) <==> Takes(Meant, Front(e), u)
  {
    hide ClassHas;
    assert |u| == 1 ==> u[0] in u;
  }

  /** Where the classes agree, so do the readings, on strings without a slash. */
  lemma {:induction false} WildAgrees(e: string, s: string)
    requires ClassesAgree(e) && '/' !in s
    ensures Wild(Emitted, e, s) <==> Wild(Meant, e, s)
    decreases |e|
  {
    hide Takes, AgreesOffSlash;
    if e != "" {
      forall j | 0 <= j <= |s|
        ensures Takes(Emitted, Front(e), s[..j]) <==> Takes(Meant, Front(e), s[..j])
        ensures Wild(Emitted, Rest(e), s[j..]) <==> Wild(Meant, Rest(e), s[j..])
      {
        PieceAgrees(e, s[..j]);
        WildAgrees(Rest(e), s[j..]);
      }
    }
  }

  /** Where a class has a character in one reading and not in the other. */
  lemma {:induction false} Uncovered(has: Reading, lacks: Reading, e: string) returns (a: string, x: string, t: string, c: char)
    requires !Covered(has, lacks, e)
    ensures e == a + (x + t) && Closed(a) && IsClass(x) && Front(x + t) == x && Rest(x + t) == t
    ensures c != '/' && ClassHas(has, Inside(x), c) && !ClassHas(lacks, Inside(x), c)
    decreases |e|
  {
    hide ClassHas;
    var x0 := Front(e);
    if IsClass(x0) && !forall c :: c != '/' && ClassHas(has, Inside(x0), c) ==> ClassHas(lacks, Inside(x0), c) {
      a, x, t := "", x0, Rest(e);
      c :| c != '/' && ClassHas(has, Inside(x), c) && !ClassHas(lacks, Inside(x), c);
      assert e == x + t && "" + e == e;
    } else {
      a, x, t, c := Uncovered(has, lacks, Rest(e));
      ClassBehind(e, a, x, t);
      a := x0 + a;
    }
  }

  /** A piece in front of where a class stands. */
  lemma ClassBehind(e: string, a: string, x: string, t: string)
    requires e != "" && Rest(e) == a + (x + t) && Closed(a) && IsClass(x) && Front(x + t) == x
    ensures e == Front(e) + a + (x + t) && Closed(Front(e) + a)
  {
    hide Front, Rest, IsClass, Closed;
    ClassHasCloser(x, t);
    CloserIsBehind(a, x, t);
    NotOpen(e);
    ClosedPiece(e);
    PieceFront(e, a);
    ClosedInFront(Front(e), a);
    assert Front(e) + (a + (x + t)) == Front(e) + a + (x + t);
  }

  lemma ClosedInFront(x: string, a: string)
    requires x != "" && x != "[" && Closed(a) && Front(x + a) == x && Rest(x + a) == a
    ensures Closed(x + a)
  {
  }

  lemma CloserIsBehind(a: string, x: string, t: string)
    requires x != "" && x[|x| - 1] == ']'
    ensures ']' in a + (x + t)
  {
    assert (a + (x + t))[|a| + |x| - 1] == ']';
  }

  lemma NotOpen(e: string)
    requires e != "" && ']' in Rest(e)
    ensures Front(e) != "["
  {
    assert Rest(e) == e[|Front(e)|..];
  }

  lemma ClassHasCloser(x: string, t: string)
    requires IsClass(x) && Front(x + t) == x
    ensures x != "" && x[|x| - 1] == ']'
  {
    assert (x + t)[..|x|] == x;
    assert Find((x + t)[1..], ']') == |x| - 2;
    assert (x + t)[1..][|x| - 2] == x[|x| - 1];
  }

  // ----- classes that take a slash

  predicate TakesSlash(x: string) {
    IsClass(x) && ClassHas(Emitted, Inside(x), '/')
  }

  /** A class that takes a slash stands neither first nor last in a part. */
  predicate SlashWithin(e: string, first: bool)
    decreases |e|
  {
    e != "" && ((!first && Rest(e) != "" && TakesSlash(Front(e))) || SlashWithin(Rest(e), false))
  }

  /** Otherwise its emitted reading takes no string with a slash inside. */
  lemma {:induction false} NoSlashTaken(e: string, s: string, first: bool)
    requires SlashFree(e) && !SlashWithin(e, first) && Wild(Emitted, e, s)
    requires s != "" ==> s[|s| - 1] != '/' && (first ==> s[0] != '/')
    ensures '/' !in s
    decreases |e|
  {
    hide Wild, Takes, TakesSlash;
    if e == "" {
      NothingWild(Emitted);
    } else {
      var j := WildStep(Emitted, e, s);
      assert s[j..] != "" ==> s[j..][|s[j..]| - 1] == s[|s| - 1];
      NoSlashTaken(Rest(e), s[j..], false);
      if '/' in s[..j] {
        SlashFirst(e, s, j);
      } else {
        InNeither(s, j, '/');
      }
    }
  }

  lemma SlashFirst(e: string, s: string, j: nat)
    requires e != "" && Front(e) != "/" && j <= |s|
    requires Takes(Emitted, Front(e), s[..j]) && Wild(Emitted, Rest(e), s[j..]) && '/' in s[..j]
    ensures TakesSlash(Front(e)) && s[0] == '/' && (Rest(e) == "" ==> s[|s| - 1] == '/')
  {
    SlashTaker(e, s[..j]);
    NothingWild(Emitted);
    hide Wild, Takes;
    assert s[..j] == "/";
    assert s[0] == s[..j][0] && j == 1;
  }

  lemma SlashBetweenWords(words: seq<string>)
    requires |words| > 1
    ensures '/' in JoinSlash(words)
  {
    JoinIs(words);
    assert JoinSlash(words)[|words[0]|] == '/';
  }

  /** So it takes one word at a time. */
  lemma {:induction false} LoneWord(part: string, words: seq<string>)
    requires SlashFree(part) && !SlashWithin(part, true) && WordsOk(words) && PartTakes(Emitted, part, words)
    ensures |words| == 1
  {
    hide Wild, SlashWithin;
    PathEnds(words);
    NoSlashTaken(part, JoinSlash(words), true);
    if |words| > 1 {
      SlashBetweenWords(words);
    }
  }

  /** Where a class that takes a slash stands. */
  lemma {:induction false} SlashStands(e: string, first: bool) returns (a: string, x: string, t: string)
    requires SlashWithin(e, first)
    ensures e == a + (x + t) && Closed(a) && TakesSlash(x) && Front(x + t) == x && Rest(x + t) == t && t != ""
    ensures first ==> a != ""
    decreases |e|
  {
    hide TakesSlash;
    var x0 := Front(e);
    if !first && Rest(e) != "" && TakesSlash(x0) {
      a, x, t := "", x0, Rest(e);
      assert e == x + t && "" + e == e;
    } else {
      a, x, t := SlashStands(Rest(e), false);
      assert IsClass(x) by { assert TakesSlash(x); ItIsAClass(x); }
      ClassBehind(e, a, x, t);
      a := x0 + a;
    }
  }

  lemma ItIsAClass(x: string)
    requires TakesSlash(x)
    ensures IsClass(x)
  {
  }

  // ----- parts that take every word

  /** A piece that takes every character but a slash. */
  ghost predicate TakesAny(x: string) {
    x == "?" || (IsClass(x) && forall c :: c != '/' ==> ClassHas(Meant, Inside(x), c))
  }

  ghost predicate PiecesTakeAny(e: string)
    decreases |e|
  {
    e == "" || ((Front(e) == "*" || TakesAny(Front(e))) && PiecesTakeAny(Rest(e)))
  }

  predicate HasStar(e: string)
    decreases |e|
  {
    e != "" && (Front(e) == "*" || HasStar(Rest(e)))
  }

  /** Stars, and at most one other piece, which takes every character. */
  ghost predicate Anything(e: string) {
    HasStar(e) && Needed(e) <= 1 && PiecesTakeAny(e)
  }

  lemma {:induction false} AnythingTakes(e: string, w: string)
    requires PiecesTakeAny(e) && Needed(e) <= 1 && WordOk(w)
    requires HasStar(e) || (Needed(e) == 1 && |w| == 1)
    ensures Wild(Meant, e, w)
    decreases |e|
  {
    hide Wild, Takes, WordOk;
    var rest := Rest(e);
    if Needed(e) == 0 {
      assert WordOk(w) ==> '/' !in w by { WordHasNoSlash(w); }
      StarsTakeAll(Meant, e, w);
    } else {
      var j := if Front(e) != "*" then 1 else if HasStar(rest) then 0 else |w| - 1;
      CutWord(w, j);
      AnyFront(e, w[..j]);
      if Front(e) == "*" {
        AnythingTakes(rest, w[j..]);
      } else {
        StarsTakeAll(Meant, rest, w[j..]);
      }
      WildMore(Meant, e, w[..j], w[j..]);
    }
  }

  lemma WordHasNoSlash(w: string)
    requires WordOk(w)
    ensures '/' !in w
  {
  }

  lemma CutWord(w: string, j: int)
    requires WordOk(w)
    ensures |w| > 0
    ensures 0 <= j <= |w| ==> w == w[..j] + w[j..] && '/' !in w[..j] && '/' !in w[j..] && (j < |w| ==> WordOk(w[j..]))
  {
    assert 0 <= j <= |w| ==> w == w[..j] + w[j..];
  }

  lemma AnyFront(e: string, u: string)
    requires e != "" && (Front(e) == "*" || (TakesAny(Front(e)) && |u| == 1)) && '/' !in u
    ensures Takes(Meant, Front(e), u)
  {
    assert |u| == 1 ==> u[0] in u;
  }

  lemma {:induction false} NoStarNoChoice(reading: Reading, e: string, s: string)
    requires !HasStar(e) && Wild(reading, e, s)
    ensures |s| == Needed(e)
    decreases |e|
  {
    hide Wild;
    if e == "" {
      NothingWild(reading);
    } else {
      var j := WildStep(reading, e, s);
      NoStarNoChoice(reading, Rest(e), s[j..]);
      assert !IsClass(Front(e)) ==> |Front(e)| == 1;
    }
  }

  /** Every piece but the stars takes a character. */
  ghost predicate PiecesTake(e: string, s: string)
    decreases |e|
  {
    e == "" || ((Front(e) == "*" || Takes(Meant, Front(e), s)) && PiecesTake(Rest(e), s))
  }

  lemma {:induction false} OnlyStars(e: string, s: string)
    requires Needed(e) == 0
    ensures PiecesTake(e, s)
    decreases |e|
  {
    if e != "" {
      OnlyStars(Rest(e), s);
    }
  }

  lemma {:induction false} OneCharacter(e: string, s: string)
    requires |s| == 1 && Wild(Meant, e, s)
    ensures PiecesTake(e, s)
    decreases |e|
  {
    hide Wild;
    if e != "" {
      var j := WildStep(Meant, e, s);
      if j == 0 {
        assert s[0..] == s;
        assert !IsClass(Front(e)) ==> |Front(e)| == 1;
        OneCharacter(Rest(e), s);
      } else {
        assert s[..1] == s && s[1..] == "";
        WildIsLong(Meant, Rest(e), "");
        OnlyStars(Rest(e), s);
      }
    }
  }

  lemma {:induction false} MissingCharacter(e: string) returns (c: char)
    requires !PiecesTakeAny(e)
    ensures c != '/' && !PiecesTake(e, [c])
    decreases |e|
  {
    var x := Front(e);
    if x == "*" || TakesAny(x) {
      c := MissingCharacter(Rest(e));
    } else if IsClass(x) {
      c :| c != '/' && !ClassHas(Meant, Inside(x), c);
    } else {
      c := if x == "a" then 'b' else 'a';
      assert |x| == 1;
    }
  }

  function As(n: nat): (r: string)
    ensures |r| == n && '/' !in r
  {
    seq(n, _ => 'a')
  }

  /** Every other part leaves some word out. */
  lemma {:induction false} WordLeftOut(e: string) returns (v: string)
    requires !Anything(e)
    ensures WordOk(v) && !Wild(Meant, e, v)
  {
    hide Wild;
    if !HasStar(e) {
      v := As(Needed(e) + 1);
      if Wild(Meant, e, v) {
        NoStarNoChoice(Meant, e, v);
      }
    } else if Needed(e) > 1 {
      v := "a";
      if Wild(Meant, e, v) {
        WildIsLong(Meant, e, v);
      }
    } else {
      var c := MissingCharacter(e);
      v := [c];
      if Wild(Meant, e, v) {
        OneCharacter(e, v);
      }
    }
  }

  lemma {:induction false} PiecesAppend(a: string, t: string)
    requires Sealed(a, t)
    ensures PiecesTakeAny(a + t) <==> PiecesTakeAny(a) && PiecesTakeAny(t)
    ensures HasStar(a + t) <==> HasStar(a) || HasStar(t)
    decreases |a|
  {
    hide Sealed, TakesAny;
    if a == "" {
      assert a + t == t;
    } else {
      FrontAppend(a, t);
      PiecesAppend(Rest(a), t);
    }
  }

  lemma {:induction false} StarsAreAny(e: string)
    requires Needed(e) == 0
    ensures PiecesTakeAny(e) && (e != "" ==> HasStar(e))
    decreases |e|
  {
    if e != "" {
      StarsAreAny(Rest(e));
    }
  }

  /** Two words, with a slash between them that a class takes; neither of them is taken alone, or the part takes anything. */
  lemma {:induction false} TwoWords(p: string) returns (u: string, v: string)
    requires SlashFree(p) && Inhabited(Emitted, p) && SlashWithin(p, true)
    ensures WordOk(u) && WordOk(v) && PartTakes(Emitted, p, [u, v])
    ensures Anything(p) || (!Wild(Meant, p, u) && !Wild(Meant, p, v))
  {
    hide Wild, ClassHas, Anything, SlashWithin, PartTakes;
    var a, x, t := SlashStands(p, true);
    NeededAppend(a, x + t);
    InhabitedAppend(Emitted, a, x + t);
    var c := '/';
    if Needed(a) == 0 && Needed(t) == 0 && !Anything(p) {
      c := CharacterOut(a, x, t);
    }
    u := WordOf(a, c);
    v := WordOf(t, c);
    AroundSlash(a, x, t, u, v);
    if !Anything(p) {
      NeitherAlone(p, a, x, t, c, u);
      NeitherAlone(p, a, x, t, c, v);
    }
  }

  lemma {:induction false} AroundSlash(a: string, x: string, t: string, u: string, v: string)
    requires Closed(a) && TakesSlash(x) && Front(x + t) == x && Rest(x + t) == t
    requires Wild(Emitted, a, u) && Wild(Emitted, t, v)
    ensures PartTakes(Emitted, a + (x + t), [u, v])
  {
    hide Wild, ClassHas;
    WildMore(Emitted, x + t, "/", v);
    WildJoin(Emitted, a, x + t, u, "/" + v);
    JoinIs([u, v]);
    JoinIs([v]);
    assert [u, v][1..] == [v];
  }

  lemma {:induction false} WordOf(e: string, c: char) returns (w: string)
    requires e != "" && SlashFree(e) && Inhabited(Emitted, e)
    ensures WordOk(w) && Wild(Emitted, e, w)
    ensures |w| == if Needed(e) > 0 then Needed(e) else 1
    ensures Needed(e) == 0 && c != '/' ==> w == [c]
  {
    hide Wild;
    w := MatchingWord(Emitted, e);
    if Needed(e) == 0 && c != '/' {
      w := [c];
      StarsTakeAll(Emitted, e, w);
    }
  }

  lemma {:induction false} CharacterOut(a: string, x: string, t: string) returns (c: char)
    requires Closed(a) && IsClass(x) && Front(x + t) == x && Rest(x + t) == t && a != ""
    requires Needed(a) == 0 && Needed(t) == 0 && !Anything(a + (x + t))
    ensures c != '/' && !ClassHas(Meant, Inside(x), c)
  {
    hide ClassHas;
    NeededAppend(a, x + t);
    PiecesAppend(a, x + t);
    StarsAreAny(a);
    StarsAreAny(t);
    assert !TakesAny(x);
    c :| c != '/' && !ClassHas(Meant, Inside(x), c);
  }

  lemma {:induction false} NeitherAlone(p: string, a: string, x: string, t: string, c: char, w: string)
    requires p == a + (x + t) && Closed(a) && IsClass(x) && Front(x + t) == x && Rest(x + t) == t
    requires w != "" && (|w| <= Needed(a) || |w| <= Needed(t) || |w| == 1)
    requires Needed(a) == 0 && Needed(t) == 0 ==> |w| == 1 && w == [c] && !ClassHas(Meant, Inside(x), c)
    ensures !Wild(Meant, p, w)
  {
    hide Wild, ClassHas;
    NeededAppend(a, x + t);
    if Wild(Meant, p, w) {
      WildIsLong(Meant, p, w);
      if Needed(a) == 0 && Needed(t) == 0 {
        OneCharacter(p, w);
        PiecesTakeBehind(a, x + t, w);
      }
    }
  }

  lemma {:induction false} PiecesTakeBehind(a: string, b: string, s: string)
    requires Closed(a) && PiecesTake(a + b, s)
    ensures PiecesTake(b, s)
    decreases |a|
  {
    hide Takes;
    if a == "" {
      assert a + b == b;
    } else {
      FrontAppend(a, b);
      PiecesTakeBehind(Rest(a), b, s);
    }
  }
}
