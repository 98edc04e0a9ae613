/** The compiler's splitter against the parts of a glob: what the splitter swallows or cuts, the compiled glob needs more
    words for than the glob means. */
module GlobSplits {
  import opened Glob
  import opened GlobMeaning
  import opened GlobPaths
  import opened GlobSegments
  import opened GlobWords

  /** A globstar that is swallowed by a longer segment compiles to what a star compiles to. */
  function Starred(part: string): string {
    if part == "**" then "*" else part
  }

  function AllStarred(parts: seq<string>): (r: seq<string>)
    ensures |r| == |parts| && forall i :: 0 <= i < |parts| ==> r[i] == Starred(parts[i])
  {
    seq(|parts|, i requires 0 <= i < |parts| => Starred(parts[i]))
  }

  /** The parts a list of segments compiles like. */
  function Effective(segments: seq<string>): seq<string> {
    if segments == [] then
      []
    else
      (if IsGlobstar(segments[0]) then ["**"] else AllStarred(Parts(segments[0]))) + Effective(segments[1..])
  }

  /** The parts the compiler goes by. */
  function ReadParts(t: string): seq<string> {
    Effective(Segments(t, 0))
  }

  lemma {:induction false} NoneStarred(parts: seq<string>)
    ensures WordsNeeded(AllStarred(parts)) == |parts|
    ensures WordsNeeded(parts) <= |parts|
    ensures WordsNeeded(parts) == |parts| ==> AllStarred(parts) == parts
  {
    if parts != [] {
      NoneStarred(parts[1..]);
      assert AllStarred(parts)[1..] == AllStarred(parts[1..]);
      if WordsNeeded(parts) == |parts| {
        assert AllStarred(parts) == [parts[0]] + parts[1..];
      }
    }
  }

  // ----- joining texts joins parts, unless a class reaches across

  /** The parts of two texts with a slash between them: end to end, or with a class across the slash fewer. */
  datatype Joint = Apart | Across(front: seq<string>, across: string, cut: seq<string>, back: seq<string>)

  ghost predicate JointOf(j: Joint, joined: seq<string>, both: seq<string>) {
    match j
    case Apart => joined == both
    case Across(front, across, cut, back) =>
      && joined == front + [across] + back && both == front + cut + back
      && '[' in across && WordsNeeded(cut) >= 2 && '[' in cut[0]
  }

  lemma {:induction false} FewerAcross(front: seq<string>, across: string, cut: seq<string>, back: seq<string>)
    requires '[' in across && WordsNeeded(cut) >= 2
    ensures WordsNeeded(front + [across] + back) < WordsNeeded(front + cut + back)
  {
    WordsNeededAppend(front + [across], back);
    WordsNeededAppend(front, [across]);
    WordsNeededAppend(front + cut, back);
    WordsNeededAppend(front, cut);
    assert WordsNeeded([across]) == 1;
  }

  /** A joint stays one with a piece in front of both lists. */
  lemma {:induction false} JointPrepend(x: string, j: Joint, joined: seq<string>, both: seq<string>) returns (k: Joint)
    requires joined != [] && both != [] && JointOf(j, joined, both)
    ensures JointOf(k, Prepend(x, joined), Prepend(x, both))
  {
    match j {
      case Apart => k := Apart;
      case Across(front, across, cut, back) =>
        if front == [] {
          k := Across([], x + across, Prepend(x, cut), back);
          HeadsNeeded(x, cut);
          assert '[' in x + across;
          assert Prepend(x, joined) == [] + [x + across] + back;
          assert Prepend(x, both) == [] + Prepend(x, cut) + back;
        } else {
          k := Across(Prepend(x, front), across, cut, back);
          assert Prepend(x, joined) == Prepend(x, front) + [across] + back;
          assert Prepend(x, both) == Prepend(x, front) + cut + back;
        }
    }
  }

  lemma HeadsNeeded(x: string, cut: seq<string>)
    requires WordsNeeded(cut) >= 2 && '[' in cut[0]
    ensures WordsNeeded(Prepend(x, cut)) == WordsNeeded(cut) && '[' in Prepend(x, cut)[0]
  {
    assert Prepend(x, cut)[1..] == cut[1..];
    assert '[' in x + cut[0];
  }

  lemma {:induction false} JointNewPart(j: Joint, joined: seq<string>, both: seq<string>) returns (k: Joint)
    requires JointOf(j, joined, both)
    ensures JointOf(k, [""] + joined, [""] + both)
  {
    match j {
      case Apart => k := Apart;
      case Across(front, across, cut, back) =>
        k := Across([""] + front, across, cut, back);
        assert [""] + joined == ([""] + front) + [across] + back && [""] + both == ([""] + front) + cut + back;
    }
  }

  lemma PartsIs(e: string)
    ensures e == "" ==> Parts(e) == [""]
    ensures e != "" && e[0] == '/' ==> Parts(e) == [""] + Parts(e[1..])
    ensures e != "" && e[0] != '/' ==> Parts(e) == Prepend(Front(e), Parts(Rest(e)))
  {
  }

  /** Parts with the closing bracket in the last of them, and the parts of what stands behind it. */
  ghost predicate ClosesInto(l: seq<string>, joined: seq<string>, back: seq<string>)
    requires back != []
  {
    l != [] && ']' in l[|l| - 1] && joined == l[..|l| - 1] + Prepend(l[|l| - 1], back)
  }

  lemma {:induction false} CloserParts(w: string, z: string) returns (l: seq<string>)
    requires ']' !in w
    ensures ClosesInto(l, Parts(w + ("]" + z)), Parts(z))
    decreases |w|
  {
    hide Parts;
    if w == "" || w[0] == '[' {
      l := [w + "]"];
      CloserPiece(w, z);
      assert (w + "]")[|w|] == ']';
      assert Prepend(w + "]", Parts(z)) == [] + Prepend(w + "]", Parts(z));
    } else {
      var t := w[1..] + ("]" + z);
      assert w + ("]" + z) == [w[0]] + t;
      CharFront(w[0], t);
      PartsIs([w[0]] + t);
      var rest := CloserParts(w[1..], z);
      if w[0] == '/' {
        l := [""] + rest;
        assert [""] + (rest[..|rest| - 1] + Prepend(rest[|rest| - 1], Parts(z)))
            == l[..|l| - 1] + Prepend(l[|l| - 1], Parts(z));
      } else {
        l := Prepend([w[0]], rest);
        LastOfPrepend([w[0]], rest, Parts(z));
        assert Rest([w[0]] + t) == t;
      }
    }
  }

  lemma {:induction false} CloserPiece(w: string, z: string)
    requires ']' !in w && (w == "" || w[0] == '[')
    ensures Parts(w + ("]" + z)) == Prepend(w + "]", Parts(z))
  {
    var y := w + ("]" + z);
    if w == "" {
      CharFront(']', z);
      assert y == [']'] + z && [']'] == "]" && w + "]" == "]";
      PartsIs(y);
    } else {
      assert y == "[" + w[1..] + "]" + z;
      ClassFront(w[1..], z);
      assert "[" + w[1..] + "]" == w + "]";
    }
  }

  lemma LastOfPrepend(x: string, l: seq<string>, back: seq<string>)
    requires l != [] && back != [] && ']' in l[|l| - 1]
    ensures ']' in Prepend(x, l)[|l| - 1]
    ensures Prepend(x, l[..|l| - 1] + Prepend(l[|l| - 1], back)) == Prepend(x, l)[..|l| - 1] + Prepend(Prepend(x, l)[|l| - 1], back)
  {
    assert ']' in x + l[0] || |l| > 1;
    assert |l| == 1 ==> x + (l[0] + back[0]) == x + l[0] + back[0];
  }

  lemma OpenPart(x: string)
    requires x != "" && x[0] == '[' && ']' !in x
    ensures '[' in Parts(x)[0] && WordsNeeded(Parts(x)) >= 1
  {
    assert Front(x) == "[";
    assert Parts(x)[0][0] == '[';
  }

  /** An open bracket at the start of one text that is closed in the other. */
  lemma {:induction false} ClassAcross(x: string, y: string) returns (k: Joint)
    requires x != "" && x[0] == '[' && ']' !in x && ']' in y
    ensures JointOf(k, Parts(x + ("/" + y)), Parts(x) + Parts(y))
  {
    var w, z := CutAtCloser(y);
    var body := x[1..] + "/" + w;
    assert x + ("/" + y) == "[" + body + "]" + z;
    hide Parts, Front, Rest;
    ClassFront(body, z);
    PartsIs(x + ("/" + y));
    var l := CloserParts(w, z);
    OpenPart(x);
    k := Crossing(Parts(x), "[" + body + "]", l, Parts(z));
  }

  lemma CutAtCloser(y: string) returns (w: string, z: string)
    requires ']' in y
    ensures y == w + ("]" + z) && ']' !in w
  {
    var close := Find(y, ']');
    w, z := y[..close], y[close + 1..];
  }

  lemma {:induction false} Crossing(left: seq<string>, x: string, l: seq<string>, back: seq<string>) returns (k: Joint)
    requires left != [] && '[' in left[0] && WordsNeeded(left) >= 1 && x != "" && x[0] == '['
    requires l != [] && back != [] && ']' in l[|l| - 1]
    ensures JointOf(k, Prepend(x, back), left + (l[..|l| - 1] + Prepend(l[|l| - 1], back)))
  {
    var closer := l[|l| - 1] + back[0];
    var cut := left + l[..|l| - 1] + [closer];
    k := Across([], x + back[0], cut, back[1..]);
    assert (x + back[0])[0] == '[' && ']' in closer;
    assert !IsGlobstar(closer) && WordsNeeded([closer]) == 1;
    WordsNeededAppend(left + l[..|l| - 1], [closer]);
    WordsNeededAppend(left, l[..|l| - 1]);
    assert Prepend(x, back) == [] + [x + back[0]] + back[1..];
    assert left + (l[..|l| - 1] + Prepend(l[|l| - 1], back)) == [] + cut + back[1..];
  }

  /** Two texts with a slash between them. */
  lemma {:induction false} PartsOfJoint(x: string, y: string) returns (k: Joint)
    ensures JointOf(k, Parts(x + ("/" + y)), Parts(x) + Parts(y))
    decreases |x|
  {
    hide JointOf, Parts;
    if x == "" {
      k := Apart;
      PartsIs(x);
      PartsIs(x + ("/" + y));
      assert x + ("/" + y) == "/" + y && ("/" + y)[1..] == y;
      NothingAcross(Parts(x) + Parts(y));
    } else if x[0] == '/' {
      var j := PartsOfJoint(x[1..], y);
      k := JointBehindSlash(x, y, j);
    } else if Front(x) == "[" && ']' in y {
      k := ClassAcross(x, y);
    } else {
      k := JointBehind(x, y);
    }
  }

  lemma {:induction false} JointBehindSlash(x: string, y: string, j: Joint) returns (k: Joint)
    requires x != "" && x[0] == '/' && JointOf(j, Parts(x[1..] + ("/" + y)), Parts(x[1..]) + Parts(y))
    ensures JointOf(k, Parts(x + ("/" + y)), Parts(x) + Parts(y))
  {
    hide JointOf, Parts;
    PartsIs(x);
    PartsIs(x + ("/" + y));
    assert (x + ("/" + y))[1..] == x[1..] + ("/" + y);
    k := JointNewPart(j, Parts(x[1..] + ("/" + y)), Parts(x[1..]) + Parts(y));
    assert [""] + (Parts(x[1..]) + Parts(y)) == Parts(x) + Parts(y);
  }

  lemma {:induction false} JointBehind(x: string, y: string) returns (k: Joint)
    requires x != "" && x[0] != '/' && (Front(x) != "[" || ']' !in y)
    ensures JointOf(k, Parts(x + ("/" + y)), Parts(x) + Parts(y))
    decreases |x|, 0
  {
    PartsBehind(x, "/" + y);
    PartsIs(x);
    hide JointOf, Parts, Front;
    var j := PartsOfJoint(Rest(x), y);
    k := JointPrepend(Front(x), j, Parts(Rest(x) + ("/" + y)), Parts(Rest(x)) + Parts(y));
    PrependBoth(Front(x), Parts(Rest(x)), Parts(y));
  }

  lemma PrependBoth(x: string, a: seq<string>, b: seq<string>)
    requires a != []
    ensures Prepend(x, a + b) == Prepend(x, a) + b
  {
  }

  lemma {:induction false} PartsBehind(x: string, t: string)
    requires x != "" && x[0] != '/' && (Front(x) != "[" || ']' !in t)
    ensures Parts(x + t) == Prepend(Front(x), Parts(Rest(x) + t))
  {
    hide Parts;
    FrontStays(x, t);
    PartsIs(x + t);
  }

  lemma NothingAcross(parts: seq<string>)
    ensures JointOf(Apart, parts, parts)
  {
  }

  lemma EffectiveFirst(segments: seq<string>)
    requires segments != []
    ensures Effective(segments) == Effective([segments[0]]) + Effective(segments[1..])
    ensures Effective([]) == []
  {
    assert [segments[0]][1..] == [];
  }

  /** The parts the compiler goes by need no fewer words than those of the glob, and as many only if they are the same. */
  lemma {:induction false} SplitsNeedMore(segments: seq<string>)
    requires segments != []
    ensures WordsNeeded(Parts(JoinSlash(segments))) <= WordsNeeded(Effective(segments))
    ensures WordsNeeded(Parts(JoinSlash(segments))) == WordsNeeded(Effective(segments)) ==>
              Effective(segments) == Parts(JoinSlash(segments))
  {
    hide JoinSlash, Effective, Parts, WordsNeeded;
    var x, rest := segments[0], segments[1..];
    FirstSplit(x);
    JoinIs(segments);
    EffectiveFirst(segments);
    if |segments| > 1 {
      var y := JoinSlash(rest);
      SplitsNeedMore(rest);
      WordsNeededAppend(Effective([x]), Effective(rest));
      WordsNeededAppend(Parts(x), Parts(y));
      var k := PartsOfJoint(x, y);
      if k.Across? {
        FewerAcross(k.front, k.across, k.cut, k.back);
      }
    } else {
      assert rest == [] && Effective([x]) + [] == Effective([x]);
    }
  }

  lemma FirstSplit(x: string)
    ensures WordsNeeded(Parts(x)) <= WordsNeeded(Effective([x]))
    ensures WordsNeeded(Parts(x)) == WordsNeeded(Effective([x])) ==> Effective([x]) == Parts(x)
  {
    var first := if IsGlobstar(x) then ["**"] else AllStarred(Parts(x));
    assert Effective([]) == [] && first + [] == first;
    assert Effective([x]) == first;
    hide Effective, Parts;
    NoneStarred(Parts(x));
    if IsGlobstar(x) {
      TwoStarsAlone();
    }
  }

  lemma TwoStarsAlone()
    ensures Parts("**") == ["**"]
  {
    assert Front("**") == "*" && Rest("**") == "*" && Front("*") == "*" && Rest("*") == "";
    assert Parts("") == [""];
    assert Parts("*") == ["*"];
  }

  // ----- the emitted reading of the segments is that of the parts

  lemma StarredTakes(part: string, words: seq<string>)
    ensures PartTakes(Emitted, Starred(part), words) <==> PartTakes(Emitted, part, words)
  {
    if IsGlobstar(part) {
      var s := JoinSlash(words);
      assert Front("**") == "*" && Rest("**") == "*" && Front("*") == "*" && Rest("*") == "";
      WildPiece(Emitted, "*", s);
      if Wild(Emitted, "**", s) {
        var j := WildStep(Emitted, "**", s);
        WildPiece(Emitted, "*", s[j..]);
        InNeither(s, j, '/');
      }
      if '/' !in s {
        WildPiece(Emitted, "*", "");
        WildMore(Emitted, "**", s, "");
        assert s + "" == s;
      }
    }
  }

  /** A stretch is taken by a text exactly when its parts take it between them. */
  lemma {:induction false} TextIsItsParts(parts: seq<string>, words: seq<string>)
    requires parts != [] && SealedParts(parts) && WordsOk(words)
    ensures PartTakes(Emitted, JoinSlash(parts), words) <==> Meaning(Emitted, AllStarred(parts), words)
    decreases |parts|
  {
    hide Meaning, Wild, PartTakes, Sealed, SlashFree, JoinSlash;
    var p, rest := parts[0], parts[1..];
    JoinIs(parts);
    StarsNeverTwo(p);
    if rest == [] {
      assert AllStarred(parts) == [Starred(p)];
      MeaningOfOne(Emitted, Starred(p), words);
      StarredTakes(p, words);
    } else {
      assert AllStarred(parts) == [Starred(p)] + AllStarred(rest);
      if PartTakes(Emitted, JoinSlash(parts), words) {
        var k := TextCut(p, JoinSlash(rest), words);
        TextIsItsParts(rest, words[k..]);
        StarredTakes(p, words[..k]);
        MeaningMore(Emitted, Starred(p), AllStarred(rest), words[..k], words[k..]);
        assert words == words[..k] + words[k..];
      }
      if Meaning(Emitted, AllStarred(parts), words) {
        var k := MeaningStep(Emitted, AllStarred(parts), words);
        assert AllStarred(parts)[1..] == AllStarred(rest);
        TextIsItsParts(rest, words[k..]);
        StarredTakes(p, words[..k]);
        TextJoins(p, JoinSlash(rest), words, k);
      }
    }
  }

  lemma StarsNeverTwo(part: string)
    ensures !IsGlobstar(Starred(part))
  {
  }

  lemma TextCut(p: string, t: string, words: seq<string>) returns (k: nat)
    requires Sealed(p, "/" + t) && WordsOk(words) && PartTakes(Emitted, p + ("/" + t), words)
    ensures k <= |words| && PartTakes(Emitted, p, words[..k]) && PartTakes(Emitted, t, words[k..])
  {
    hide Wild, JoinSlash;
    var s := JoinSlash(words);
    assert p + ("/" + t) == p + "/" + t;
    SlashBetweenWild(Emitted, p, t, s);
    var i :| 0 <= i < |s| && s[i] == '/' && Wild(Emitted, p, s[..i]) && Wild(Emitted, t, s[i + 1..]);
    k := SlashIsACut(words, i);
  }

  lemma TextJoins(p: string, t: string, words: seq<string>, k: nat)
    requires Sealed(p, "/" + t) && k <= |words| && PartTakes(Emitted, p, words[..k]) && PartTakes(Emitted, t, words[k..])
    ensures PartTakes(Emitted, p + ("/" + t), words)
  {
    hide Wild, JoinSlash;
    assert p + ("/" + t) == p + "/" + t;
    var i := CutIsASlash(words, k);
    SlashBetweenWild(Emitted, p, t, JoinSlash(words));
  }

  /** Where no segment has braces, the segments read what their parts read. */
  lemma {:induction false} SegmentsReadParts(segments: seq<string>, words: seq<string>)
    requires (forall i :: 0 <= i < |segments| ==> NoBraces(segments[i])) && WordsOk(words)
    ensures Reads(segments, words) <==> Meaning(Emitted, Effective(segments), words)
    decreases |segments|
  {
    hide Meaning, SegmentTakes, NoBraces, WordOk;
    if segments == [] {
      NothingMeant(Emitted);
    } else {
      var x, rest := segments[0], segments[1..];
      var first := if IsGlobstar(x) then ["**"] else AllStarred(Parts(x));
      assert Effective(segments) == first + Effective(rest);
      forall k | 0 <= k <= |words|
        ensures (IsGlobstar(x) || SegmentTakes(x, words[..k])) <==> Meaning(Emitted, first, words[..k])
        ensures Reads(rest, words[k..]) <==> Meaning(Emitted, Effective(rest), words[k..])
      {
        SegmentReadsParts(x, words[..k]);
        SegmentsReadParts(rest, words[k..]);
      }
      if Reads(segments, words) {
        var k :| 0 <= k <= |words| && (IsGlobstar(x) || SegmentTakes(x, words[..k])) && Reads(rest, words[k..]);
        MeaningJoin(Emitted, first, Effective(rest), words[..k], words[k..]);
        assert words == words[..k] + words[k..];
      }
      if Meaning(Emitted, Effective(segments), words) {
        var k := MeaningSplit(Emitted, first, Effective(rest), words);
      }
    }
  }

  lemma SegmentReadsParts(x: string, words: seq<string>)
    requires NoBraces(x) && WordsOk(words)
    ensures (IsGlobstar(x) || SegmentTakes(x, words))
       <==> Meaning(Emitted, if IsGlobstar(x) then ["**"] else AllStarred(Parts(x)), words)
  {
    hide Meaning, Wild;
    if IsGlobstar(x) {
      GlobstarTakesAll(Emitted, words);
    } else {
      PlainSegment(x, JoinSlash(words));
      PartsAre(x);
      TextIsItsParts(Parts(x), words);
    }
  }

  // ----- when the splitter finds the segments a glob was joined from

  function DepthBehind(x: string, depth: nat): nat {
    if x == "" then depth else DepthBehind(x[1..], DepthAfter(depth, x[0]))
  }

  /** No slash stands outside of the brackets counted. */
  predicate Unsplit(x: string, depth: nat) {
    x == "" || (!(x[0] == '/' && DepthAfter(depth, x[0]) == 0) && Unsplit(x[1..], DepthAfter(depth, x[0])))
  }

  lemma {:induction false} UnsplitPasses(x: string, t: string, depth: nat)
    requires Unsplit(x, depth)
    ensures Segments(x + t, depth) == Prepend(x, Segments(t, DepthBehind(x, depth)))
  {
    if x == "" {
      assert x + t == t && Prepend("", Segments(t, depth)) == Segments(t, depth) by {
        assert "" + Segments(t, depth)[0] == Segments(t, depth)[0];
      }
    } else {
      assert x == [x[0]] + x[1..] && (x + t)[1..] == x[1..] + t;
      UnsplitPasses(x[1..], t, DepthAfter(depth, x[0]));
      var first := Segments(t, DepthBehind(x, depth))[0];
      assert [x[0]] + (x[1..] + first) == x + first;
    }
  }

  lemma {:induction false} SplitIsSooner(x: string, t: string, depth: nat)
    requires !Unsplit(x, depth)
    ensures |Segments(x + t, depth)[0]| < |x|
  {
    assert (x + t)[0] == x[0] && (x + t)[1..] == x[1..] + t;
    if !(x[0] == '/' && DepthAfter(depth, x[0]) == 0) {
      SplitIsSooner(x[1..], t, DepthAfter(depth, x[0]));
    }
  }

  /** None of the segments is split, and the brackets counted in each, but for the last, are closed. */
  predicate SplitsBack(segments: seq<string>) {
    segments == []
    || (Unsplit(segments[0], 0) && (|segments| > 1 ==> DepthBehind(segments[0], 0) == 0) && SplitsBack(segments[1..]))
  }

  /** Splitting what joins segments gives them back exactly then. */
  lemma {:induction false} SegmentsOfJoinIff(segments: seq<string>)
    requires segments != []
    ensures Segments(JoinSlash(segments), 0) == segments <==> SplitsBack(segments)
  {
    hide JoinSlash, Unsplit, DepthBehind, Segments;
    var x, rest := segments[0], segments[1..];
    JoinIs(segments);
    if |segments| == 1 {
      assert x + "" == x && [x] + [] == segments && [""] + [] == [""];
      FirstOfJoin(x, "", []);
      SlashAtDepth("", 0);
      assert SplitsBack(rest);
    } else {
      SegmentsOfJoinIff(rest);
      FirstOfJoin(x, "/" + JoinSlash(rest), rest);
      SlashAtDepth(JoinSlash(rest), DepthBehind(x, 0));
      assert segments == [x] + rest && ([""] + rest)[1..] == rest;
      assert ([""] + Segments(JoinSlash(rest), 0))[1..] == Segments(JoinSlash(rest), 0);
    }
  }

  /** A text in front of nothing or of a slash. */
  lemma {:induction false} FirstOfJoin(x: string, more: string, rest: seq<string>)
    ensures Segments(x + more, 0) == [x] + rest
       <==> Unsplit(x, 0) && Segments(more, DepthBehind(x, 0)) == [""] + rest
  {
    hide Unsplit, DepthBehind;
    if Unsplit(x, 0) {
      UnsplitPasses(x, more, 0);
      var found := Segments(more, DepthBehind(x, 0));
      var both, all := Prepend(x, found), [x] + rest;
      assert both[0] == x + found[0] && both[1..] == found[1..] && all[0] == x && all[1..] == rest;
      assert |x + found[0]| == |x| ==> found[0] == "";
      assert x + "" == x && found == [found[0]] + found[1..];
      assert both == [both[0]] + both[1..];
    } else {
      SplitIsSooner(x, more, 0);
    }
  }

  lemma SlashAtDepth(t: string, depth: nat)
    ensures depth == 0 ==> Segments("/" + t, depth) == [""] + Segments(t, 0)
    ensures depth > 0 ==> Segments("/" + t, depth)[0] != ""
    ensures forall d :: Segments("", d) == [""]
  {
    assert ("/" + t)[1..] == t;
  }
}
