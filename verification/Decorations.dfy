/** The folder colours of `apps/vscode/src/file-decorations.ts`: what a file shows bubbles up to the root. */
module Decorations {
  import opened Options

  /** A normalised absolute path, as its segments. */
  type Path = seq<string>

  const ERROR_COLOR: string := "list-errorForeground"
  const WARNING_COLOR: string := "list-warningForeground"

  /** The git side of a file: a colour, and whether it shows faded (an ignored file). */
  datatype Git = Git(color: string, faded: bool)

  /** What is known of a file within the root. */
  datatype Found = Found(path: Path, errors: nat, warnings: nat, git: Option<Git>)

  datatype Folder = Folder(color: string, rank: nat)

  datatype Decoration = Decoration(color: Option<string>, faded: bool)

  // ----- paths

  function Joined(segments: Path): string {
    if segments == [] then "" else Joined(segments[..|segments| - 1]) + "/" + segments[|segments| - 1]
  }

  predicate EndsWithSlash(path: string) {
    path != "" && path[|path| - 1] == '/'
  }

  /** `within` on the texts of two paths of one scheme and authority. */
  predicate Within(root: string, path: string) {
    path == root || (if EndsWithSlash(root) then root else root + "/") <= path
  }

  predicate Plain(segments: Path) {
    forall i :: 0 <= i < |segments| ==> segments[i] != "" && '/' !in segments[i]
  }

  // ----- one file

  function ColorOf(found: Found): Option<string> {
    if found.errors > 0 then Some(ERROR_COLOR)
    else if found.warnings > 0 then Some(WARNING_COLOR)
    else if found.git.Some? then Some(found.git.value.color)
    else None
  }

  predicate Faded(found: Found) {
    found.git.Some? && found.git.value.faded
  }

  /** Whether a file colours the folders above it. */
  predicate Bubbles(found: Found) {
    ColorOf(found).Some? && ColorOf(found).value != "" && !Faded(found)
  }

  function RankOf(found: Found): (r: nat)
    ensures 1 <= r <= 3
  {
    if found.errors > 0 then 3 else if found.warnings > 0 then 2 else 1
  }

  /** What one file comes to: errors come before warnings and both before git, and a faded file colours nothing above it, nor
      does one without a colour. */
  lemma FileColours(found: Found)
    ensures found.errors > 0 ==> ColorOf(found) == Some("list-errorForeground") && RankOf(found) == 3
    ensures found.errors == 0 && found.warnings > 0 ==> ColorOf(found) == Some("list-warningForeground") && RankOf(found) == 2
    ensures found.errors == 0 && found.warnings == 0 ==>
              RankOf(found) == 1 && (match found.git case None => ColorOf(found) == None case Some(git) => ColorOf(found) == Some(git.color))
    ensures Bubbles(found) <==>
            && (found.errors > 0 || found.warnings > 0 || (found.git != None && found.git.value.color != ""))
            && (found.git != None ==> !found.git.value.faded)
  {
  }

  // ----- bubbling

  /** A colour left on one folder by one file. */
  datatype Mark = Mark(dir: Path, color: string, rank: nat)

  /** Only a higher rank replaces what a folder has. */
  function Marked(folders: map<Path, Folder>, m: Mark): map<Path, Folder> {
    if m.dir !in folders || folders[m.dir].rank < m.rank then folders[m.dir := Folder(m.color, m.rank)] else folders
  }

  function MarkAll(folders: map<Path, Folder>, marks: seq<Mark>): map<Path, Folder> {
    if marks == [] then folders else Marked(MarkAll(folders, marks[..|marks| - 1]), marks[|marks| - 1])
  }

  /** The marks from a place upwards: the parent, its parent, and so on to the root. */
  function MarksAbove(root: Path, dir: Path, color: string, rank: nat): seq<Mark>
    decreases |dir|
  {
    if root < dir then
      [Mark(dir[..|dir| - 1], color, rank)] + MarksAbove(root, dir[..|dir| - 1], color, rank)
    else
      []
  }

  function MarksOf(root: Path, found: Found): seq<Mark> {
    if Bubbles(found) then MarksAbove(root, found.path, ColorOf(found).value, RankOf(found)) else []
  }

  function AllMarks(root: Path, files: seq<Found>): seq<Mark> {
    if files == [] then [] else AllMarks(root, files[..|files| - 1]) + MarksOf(root, files[|files| - 1])
  }

  /** The walk upwards ends: every turn takes a segment off, and the root is above every file. */
  method Bubble(root: Path, files: seq<Found>) returns (folders: map<Path, Folder>)
    ensures folders == MarkAll(map[], AllMarks(root, files))
  {
    hide MarkAll, MarksAbove;
    folders := map[];
    NoMarks(map[]);
    for i := 0 to |files|
      invariant folders == MarkAll(map[], AllMarks(root, files[..i]))
    {
      var found := files[i];
      var before := AllMarks(root, files[..i]);
      assert files[..i + 1][..i] == files[..i];
      if Bubbles(found) {
        var color, rank := ColorOf(found).value, RankOf(found);
        folders := WalkUp(root, found.path, color, rank, folders);
        MarkBoth(map[], before, MarksAbove(root, found.path, color, rank));
      } else {
        assert before + [] == before;
      }
    }
    assert files[..|files|] == files;
  }

  method WalkUp(root: Path, path: Path, color: string, rank: nat, before: map<Path, Folder>)
    returns (folders: map<Path, Folder>)
    ensures folders == MarkAll(before, MarksAbove(root, path, color, rank))
  {
    hide MarkAll;
    folders := before;
    NoMarks(before);
    var dir := path;
    ghost var done: seq<Mark> := [];
    while root <= dir && dir != root
      invariant MarksAbove(root, path, color, rank) == done + MarksAbove(root, dir, color, rank)
      invariant folders == MarkAll(before, done)
      decreases |dir|
    {
      ghost var mark := Mark(dir[..|dir| - 1], color, rank);
      ghost var rest := MarksAbove(root, dir[..|dir| - 1], color, rank);
      assert done + ([mark] + rest) == (done + [mark]) + rest;
      OneMoreMark(before, done, mark);
      done := done + [mark];
      dir := dir[..|dir| - 1];
      if dir !in folders || folders[dir].rank < rank {
        folders := folders[dir := Folder(color, rank)];
      }
    }
    assert done + [] == done;
  }

  lemma NoMarks(folders: map<Path, Folder>)
    ensures MarkAll(folders, []) == folders
  {
  }

  lemma OneMoreMark(folders: map<Path, Folder>, marks: seq<Mark>, m: Mark)
    ensures MarkAll(folders, marks + [m]) == Marked(MarkAll(folders, marks), m)
  {
    assert (marks + [m])[..|marks|] == marks;
  }

  lemma {:induction false} MarkBoth(folders: map<Path, Folder>, a: seq<Mark>, b: seq<Mark>)
    ensures MarkAll(folders, a + b) == MarkAll(MarkAll(folders, a), b)
  {
    if b == [] {
      assert a + b == a;
    } else {
      assert (a + b)[..|a + b| - 1] == a + b[..|b| - 1];
      MarkBoth(folders, a, b[..|b| - 1]);
    }
  }

  // ----- what a folder ends up with

  ghost predicate HasMark(marks: seq<Mark>, dir: Path) {
    exists i :: 0 <= i < |marks| && marks[i].dir == dir
  }

  /** A folder has a colour exactly when something marked it, the colour is one of its marks, and none ranks higher. */
  lemma {:induction false} MarksLeaveTheMaximum(marks: seq<Mark>, dir: Path)
    ensures var folders := MarkAll(map[], marks);
            && (dir in folders <==> HasMark(marks, dir))
            && (dir in folders ==> Mark(dir, folders[dir].color, folders[dir].rank) in marks)
            && (dir in folders ==> forall i :: 0 <= i < |marks| && marks[i].dir == dir ==> marks[i].rank <= folders[dir].rank)
  {
    if marks != [] {
      var front, last := marks[..|marks| - 1], marks[|marks| - 1];
      MarksLeaveTheMaximum(front, dir);
      assert marks == front + [last];
      if HasMark(front, dir) {
        var i :| 0 <= i < |front| && front[i].dir == dir;
        assert marks[i].dir == dir;
      }
      assert last.dir == dir ==> marks[|marks| - 1].dir == dir;
    }
  }

  lemma {:induction false} MarksAboveAre(root: Path, path: Path, color: string, rank: nat, m: Mark)
    ensures m in MarksAbove(root, path, color, rank)
            <==> root <= m.dir < path && m.color == color && m.rank == rank
    decreases |path|
  {
    if root < path {
      var parent := path[..|path| - 1];
      MarksAboveAre(root, parent, color, rank, m);
      assert m.dir < path <==> m.dir == parent || m.dir < parent;
    }
  }

  /** Whether a file colours a folder: it lies below it, the folder not above the root, and it bubbles. */
  predicate Colours(root: Path, found: Found, dir: Path) {
    Bubbles(found) && root <= dir < found.path
  }

  lemma {:induction false} AllMarksAre(root: Path, files: seq<Found>, m: Mark)
    ensures m in AllMarks(root, files)
            <==> exists i :: 0 <= i < |files| && Colours(root, files[i], m.dir)
                   && ColorOf(files[i]) == Some(m.color) && RankOf(files[i]) == m.rank
  {
    if files != [] {
      var front, last := files[..|files| - 1], files[|files| - 1];
      AllMarksAre(root, front, m);
      if Bubbles(last) {
        MarksAboveAre(root, last.path, ColorOf(last).value, RankOf(last), m);
      }
      assert files == front + [last];
    }
  }

  /** What the pass leaves on a folder: the highest rank among the coloured, not faded files below it, and the colour of
      one of that rank; nothing where there is no such file. */
  ghost predicate IsSubtreeMaximum(root: Path, files: seq<Found>, dir: Path, folder: Option<Folder>) {
    match folder
    case None => forall i :: 0 <= i < |files| ==> !Colours(root, files[i], dir)
    case Some(Folder(color, rank)) =>
      && (exists i :: 0 <= i < |files| && Colours(root, files[i], dir) && ColorOf(files[i]) == Some(color) && RankOf(files[i]) == rank)
      && forall i :: 0 <= i < |files| && Colours(root, files[i], dir) ==> RankOf(files[i]) <= rank
  }

  function Lookup(folders: map<Path, Folder>, dir: Path): Option<Folder> {
    if dir in folders then Some(folders[dir]) else None
  }

  /** Bubbling computes the maximum of every folder's subtree, in whatever order the files come. */
  lemma BubblingIsSubtreeMaximum(root: Path, files: seq<Found>, dir: Path)
    ensures IsSubtreeMaximum(root, files, dir, Lookup(MarkAll(map[], AllMarks(root, files)), dir))
  {
    hide MarkAll, AllMarks, MarksOf;
    var marks := AllMarks(root, files);
    var folders := MarkAll(map[], marks);
    MarksLeaveTheMaximum(marks, dir);
    forall i | 0 <= i < |files| && Colours(root, files[i], dir)
      ensures dir in folders && RankOf(files[i]) <= folders[dir].rank
    {
      FileMarks(root, files, dir, i);
    }
    if dir in folders {
      AllMarksAre(root, files, Mark(dir, folders[dir].color, folders[dir].rank));
    }
  }

  lemma {:induction false} FileMarks(root: Path, files: seq<Found>, dir: Path, i: nat)
    requires i < |files| && Colours(root, files[i], dir)
    ensures var folders := MarkAll(map[], AllMarks(root, files));
            dir in folders && RankOf(files[i]) <= folders[dir].rank
  {
    hide MarkAll, AllMarks, MarksOf;
    var mark, marks := Mark(dir, ColorOf(files[i]).value, RankOf(files[i])), AllMarks(root, files);
    AllMarksAre(root, files, mark);
    var j :| 0 <= j < |marks| && marks[j] == mark;
    MarksLeaveTheMaximum(marks, dir);
    assert HasMark(marks, dir);
  }

  /** Two passes over the same files in different orders agree on every folder's rank, and on its colour wherever a
      problem colours it; only between git colours the first file wins. */
  lemma {:induction false} OrderHardlyMatters(root: Path, files: seq<Found>, others: seq<Found>, dir: Path)
    requires forall found :: found in files <==> found in others
    ensures var one, two := Lookup(MarkAll(map[], AllMarks(root, files)), dir), Lookup(MarkAll(map[], AllMarks(root, others)), dir);
            && one.Some? == two.Some?
            && (one.Some? ==> one.value.rank == two.value.rank && (one.value.rank > 1 ==> one == two))
  {
    hide MarkAll, AllMarks;
    BubblingIsSubtreeMaximum(root, files, dir);
    BubblingIsSubtreeMaximum(root, others, dir);
    var one, two := Lookup(MarkAll(map[], AllMarks(root, files)), dir), Lookup(MarkAll(map[], AllMarks(root, others)), dir);
    AtLeast(root, files, others, dir, one, two);
    AtLeast(root, others, files, dir, two, one);
  }

  lemma AtLeast(root: Path, files: seq<Found>, others: seq<Found>, dir: Path, one: Option<Folder>, two: Option<Folder>)
    requires IsSubtreeMaximum(root, files, dir, one) && IsSubtreeMaximum(root, others, dir, two)
    requires forall found :: found in files <==> found in others
    ensures one.Some? ==> two.Some? && one.value.rank <= two.value.rank
    ensures one.Some? && one.value.rank == 3 ==> one.value.color == ERROR_COLOR
    ensures one.Some? && one.value.rank == 2 ==> one.value.color == WARNING_COLOR
    ensures one.Some? ==> one.value.rank <= 3
  {
    if one.Some? {
      var i :| 0 <= i < |files| && Colours(root, files[i], dir)
               && ColorOf(files[i]) == Some(one.value.color) && RankOf(files[i]) == one.value.rank;
      assert files[i] in others;
      var j :| 0 <= j < |others| && others[j] == files[i];
      assert Colours(root, others[j], dir);
    }
  }

  // ----- the order files are visited in

  /** What the pass leaves on a folder. */
  function FolderAt(root: Path, files: seq<Found>, dir: Path): Option<Folder> {
    Lookup(MarkAll(map[], AllMarks(root, files)), dir)
  }

  /** A file colours a folder, and no file that does ranks higher. */
  ghost predicate IsTop(root: Path, files: seq<Found>, dir: Path, i: int) {
    && 0 <= i < |files| && Colours(root, files[i], dir)
    && forall j :: 0 <= j < |files| && Colours(root, files[j], dir) ==> RankOf(files[j]) <= RankOf(files[i])
  }

  /** It is also the first of its rank that does. */
  ghost predicate IsFirstTop(root: Path, files: seq<Found>, dir: Path, i: int) {
    && IsTop(root, files, dir, i)
    && forall j :: 0 <= j < i && Colours(root, files[j], dir) ==> RankOf(files[j]) < RankOf(files[i])
  }

  /** A folder's colour and rank are those of a file. */
  predicate GivenBy(folder: Option<Folder>, found: Found) {
    folder.Some? && ColorOf(found) == Some(folder.value.color) && RankOf(found) == folder.value.rank
  }

  /** One walk upwards changes the folders above its file that have nothing of its rank yet. */
  lemma {:induction false} WalkAt(folders: map<Path, Folder>, root: Path, path: Path, color: string, rank: nat, dir: Path)
    ensures Lookup(MarkAll(folders, MarksAbove(root, path, color, rank)), dir)
         == if root <= dir < path && (dir !in folders || folders[dir].rank < rank) then Some(Folder(color, rank))
            else Lookup(folders, dir)
    decreases |path|
  {
    hide MarkAll;
    if root < path {
      var parent := path[..|path| - 1];
      var mark, rest := Mark(parent, color, rank), MarksAbove(root, parent, color, rank);
      MarkBoth(folders, [mark], rest);
      OneMoreMark(folders, [], mark);
      assert [] + [mark] == [mark];
      NoMarks(folders);
      WalkAt(Marked(folders, mark), root, parent, color, rank, dir);
      assert dir < path <==> dir == parent || dir < parent;
    } else {
      NoMarks(folders);
    }
  }

  lemma {:induction false} FileAt(folders: map<Path, Folder>, root: Path, found: Found, dir: Path)
    ensures var after := Lookup(MarkAll(folders, MarksOf(root, found)), dir);
            if Colours(root, found, dir) && (dir !in folders || folders[dir].rank < RankOf(found)) then GivenBy(after, found)
            else after == Lookup(folders, dir)
  {
    hide MarkAll;
    if Bubbles(found) {
      WalkAt(folders, root, found.path, ColorOf(found).value, RankOf(found), dir);
    } else {
      NoMarks(folders);
    }
  }

  lemma {:induction false} OneMoreFile(root: Path, front: seq<Found>, last: Found, dir: Path)
    ensures var before, after := FolderAt(root, front, dir), FolderAt(root, front + [last], dir);
            if Colours(root, last, dir) && (before.None? || before.value.rank < RankOf(last)) then GivenBy(after, last)
            else after == before
  {
    var files := front + [last];
    assert files[..|files| - 1] == front;
    assert AllMarks(root, files) == AllMarks(root, front) + MarksOf(root, last);
    hide MarkAll, AllMarks, MarksOf;
    MarkBoth(map[], AllMarks(root, front), MarksOf(root, last));
    FileAt(MarkAll(map[], AllMarks(root, front)), root, last, dir);
  }

  lemma NoFiles(root: Path, dir: Path)
    ensures FolderAt(root, [], dir) == None
  {
  }

  /** A folder shows the first file, of the highest rank among those that colour it. */
  lemma {:induction false} FirstFileWins(root: Path, files: seq<Found>, dir: Path)
    ensures var folder := FolderAt(root, files, dir);
            && (folder.None? <==> forall i :: 0 <= i < |files| ==> !Colours(root, files[i], dir))
            && (folder.Some? ==> exists i :: IsFirstTop(root, files, dir, i) && GivenBy(folder, files[i]))
  {
    hide FolderAt, Colours, RankOf, ColorOf;
    if files == [] {
      NoFiles(root, dir);
    } else {
      var front, last := files[..|files| - 1], files[|files| - 1];
      assert files == front + [last];
      FirstFileWins(root, front, dir);
      OneMoreFile(root, front, last, dir);
      var before := FolderAt(root, front, dir);
      if before.Some? {
        var i :| IsFirstTop(root, front, dir, i) && GivenBy(before, front[i]);
        FirstTopStays(root, front, last, dir, i);
        assert files[i] == front[i] && Colours(root, files[i], dir);
      } else {
        assert forall i :: 0 <= i < |front| ==> files[i] == front[i];
        assert Colours(root, last, dir) ==> IsFirstTop(root, files, dir, |files| - 1);
      }
    }
  }

  lemma FirstTopStays(root: Path, front: seq<Found>, last: Found, dir: Path, i: int)
    requires IsFirstTop(root, front, dir, i)
    ensures if Colours(root, last, dir) && RankOf(front[i]) < RankOf(last) then IsFirstTop(root, front + [last], dir, |front|)
            else IsFirstTop(root, front + [last], dir, i)
  {
  }

  /** Visiting the same files in any other order leaves the same on a folder. */
  ghost predicate OrdersAgree(root: Path, files: seq<Found>, dir: Path) {
    forall others :: multiset(others) == multiset(files) ==>
      FolderAt(root, others, dir) == FolderAt(root, files, dir)
  }

  /** The files of the highest rank that colour a folder give it one colour. */
  ghost predicate OneTopColour(root: Path, files: seq<Found>, dir: Path) {
    forall i, j :: IsTop(root, files, dir, i) && IsTop(root, files, dir, j) ==> ColorOf(files[i]) == ColorOf(files[j])
  }

  lemma TopAmong(root: Path, files: seq<Found>, others: seq<Found>, dir: Path, i: int) returns (j: int)
    requires multiset(others) == multiset(files) && IsTop(root, others, dir, i)
    ensures IsTop(root, files, dir, j) && files[j] == others[i]
  {
    assert others[i] in multiset(others);
    j :| 0 <= j < |files| && files[j] == others[i];
    forall k | 0 <= k < |files| && Colours(root, files[k], dir)
      ensures RankOf(files[k]) <= RankOf(files[j])
    {
      assert files[k] in multiset(files);
      var l :| 0 <= l < |others| && others[l] == files[k];
    }
  }

  lemma TopColourHolds(root: Path, files: seq<Found>, others: seq<Found>, dir: Path)
    requires OneTopColour(root, files, dir) && multiset(others) == multiset(files) && FolderAt(root, others, dir).Some?
    ensures FolderAt(root, files, dir) == FolderAt(root, others, dir)
  {
    hide FolderAt, Colours, RankOf, ColorOf;
    FirstFileWins(root, files, dir);
    FirstFileWins(root, others, dir);
    var j :| IsFirstTop(root, others, dir, j) && GivenBy(FolderAt(root, others, dir), others[j]);
    var k := TopAmong(root, files, others, dir, j);
    var i :| IsFirstTop(root, files, dir, i) && GivenBy(FolderAt(root, files, dir), files[i]);
    assert RankOf(files[i]) == RankOf(files[k]);
  }

  lemma NothingHolds(root: Path, files: seq<Found>, others: seq<Found>, dir: Path)
    requires multiset(others) == multiset(files) && FolderAt(root, others, dir).None?
    ensures FolderAt(root, files, dir).None?
  {
    hide FolderAt, Colours;
    FirstFileWins(root, files, dir);
    FirstFileWins(root, others, dir);
    forall i | 0 <= i < |files|
      ensures !Colours(root, files[i], dir)
    {
      assert files[i] in multiset(files);
      var j :| 0 <= j < |others| && others[j] == files[i];
    }
  }

  /** A file moved to the front wins if it is among those of the highest rank. */
  lemma TopMovedToFront(root: Path, files: seq<Found>, dir: Path, i: int)
    requires IsTop(root, files, dir, i) && OrdersAgree(root, files, dir)
    ensures GivenBy(FolderAt(root, files, dir), files[i])
  {
    hide FolderAt, Colours, RankOf, ColorOf;
    var rest := files[..i] + files[i + 1..];
    var others := [files[i]] + rest;
    assert files == files[..i] + [files[i]] + files[i + 1..];
    assert multiset(others) == multiset(files);
    forall k | 0 <= k < |others|
      ensures others[k] in files
    {
      assert k > 0 ==> others[k] == files[if k <= i then k - 1 else k];
    }
    assert IsFirstTop(root, others, dir, 0);
    FirstFileWins(root, others, dir);
    var k :| IsFirstTop(root, others, dir, k) && GivenBy(FolderAt(root, others, dir), others[k]);
    assert k == 0;
  }

  /** Exactly when the order does not matter to a folder. */
  lemma OrdersAgreeIff(root: Path, files: seq<Found>, dir: Path)
    ensures OrdersAgree(root, files, dir) <==> OneTopColour(root, files, dir)
  {
    hide FolderAt, ColorOf, RankOf, Colours;
    if OrdersAgree(root, files, dir) {
      forall i, j | IsTop(root, files, dir, i) && IsTop(root, files, dir, j)
        ensures ColorOf(files[i]) == ColorOf(files[j])
      {
        TopMovedToFront(root, files, dir, i);
        TopMovedToFront(root, files, dir, j);
      }
    }
    if OneTopColour(root, files, dir) {
      forall others: seq<Found> | multiset(others) == multiset(files)
        ensures FolderAt(root, others, dir) == FolderAt(root, files, dir)
      {
        if FolderAt(root, others, dir).Some? {
          TopColourHolds(root, files, others, dir);
        } else {
          NothingHolds(root, files, others, dir);
        }
      }
    }
  }

  /** Two git colours below one folder: the file visited first colours it. */
  lemma {:induction false} GitOrderMatters()
    ensures var one, two := Found(["r", "a"], 0, 0, Some(Git("g1", false))), Found(["r", "b"], 0, 0, Some(Git("g2", false)));
            && FolderAt(["r"], [one, two], ["r"]) == Some(Folder("g1", 1))
            && FolderAt(["r"], [two, one], ["r"]) == Some(Folder("g2", 1))
  {
    hide MarkAll, AllMarks;
    var one, two := Found(["r", "a"], 0, 0, Some(Git("g1", false))), Found(["r", "b"], 0, 0, Some(Git("g2", false)));
    assert Colours(["r"], one, ["r"]) && Colours(["r"], two, ["r"]);
    FirstFileWins(["r"], [one, two], ["r"]);
    FirstFileWins(["r"], [two, one], ["r"]);
    assert [one, two][0] == one && [two, one][0] == two;
  }

  // ----- what is shown

  function OwnDecoration(found: Found): Decoration {
    Decoration(ColorOf(found), Faded(found))
  }

  function OwnDecorations(files: seq<Found>): map<Path, Decoration> {
    if files == [] then map[]
    else OwnDecorations(files[..|files| - 1])[files[|files| - 1].path := OwnDecoration(files[|files| - 1])]
  }

  /** A folder that is an entry of its own keeps its own colour where it has one. */
  function Merged(own: Decoration, folder: Folder): Decoration {
    own.(color := if own.color.Some? then own.color else Some(folder.color))
  }

  /** What is shown at a path. */
  function ShownAt(own: map<Path, Decoration>, folders: map<Path, Folder>, path: Path): Option<Decoration> {
    if path !in folders then
      if path in own then Some(own[path]) else None
    else if path in own then
      Some(Merged(own[path], folders[path]))
    else
      Some(Decoration(Some(folders[path].color), false))
  }

  lemma {:induction false} OwnAt(files: seq<Found>, path: Path)
    ensures path !in OwnDecorations(files) <==> forall i :: 0 <= i < |files| ==> files[i].path != path
    ensures forall i :: 0 <= i < |files| && files[i].path == path && (forall j :: i < j < |files| ==> files[j].path != path) ==>
              path in OwnDecorations(files) && OwnDecorations(files)[path] == OwnDecoration(files[i])
  {
    if files != [] {
      var front := files[..|files| - 1];
      OwnAt(front, path);
      assert forall i :: 0 <= i < |front| ==> files[i] == front[i];
    }
  }

  /** What is shown, from the files and the folders' colours: a file shows its colour and whether it is faded, the colour of
      the folder it also is where it has none; a folder that is no file shows its colour and is not faded. */
  ghost predicate IsShown(files: seq<Found>, folder: Option<Folder>, path: Path, shown: Option<Decoration>) {
    && ((forall i :: 0 <= i < |files| ==> files[i].path != path) ==>
          if folder == None then shown == None else shown == Some(Decoration(Some(folder.value.color), false)))
    && (forall i :: 0 <= i < |files| && files[i].path == path && (forall j :: i < j < |files| ==> files[j].path != path) ==>
          && shown.Some?
          && shown.value.faded == (files[i].git != None && files[i].git.value.faded)
          && shown.value.color == (if ColorOf(files[i]) != None then ColorOf(files[i])
                                   else if folder != None then Some(folder.value.color) else None))
  }

  lemma ShownIsShown(root: Path, files: seq<Found>, path: Path)
    ensures IsShown(files, FolderAt(root, files, path), path,
                    ShownAt(OwnDecorations(files), MarkAll(map[], AllMarks(root, files)), path))
  {
    hide MarkAll, AllMarks, OwnDecorations, ColorOf;
    OwnAt(files, path);
  }

  method AddFolders(own: map<Path, Decoration>, folders: map<Path, Folder>) returns (out: map<Path, Decoration>)
    ensures forall path :: ShownAt(own, folders, path) == if path in out then Some(out[path]) else None
  {
    out := own;
    var left := folders.Keys;
    while left != {}
      invariant left <= folders.Keys
      invariant forall path :: path in left || path !in folders ==> (path in out) == (path in own)
      invariant forall path :: (path in left || path !in folders) && path in own ==> out[path] == own[path]
      invariant forall path :: path in folders && path !in left ==>
                  path in out && Some(out[path]) == ShownAt(own, folders, path)
      decreases |left|
    {
      var dir :| dir in left;
      var folder := folders[dir];
      out := out[dir := if dir in out then Merged(out[dir], folder) else Decoration(Some(folder.color), false)];
      left := left - {dir};
    }
  }

  /** The decorations under a root: every file its own, every folder the maximum of what lies below it. */
  method Under(root: Path, files: seq<Found>) returns (out: map<Path, Decoration>)
    ensures forall path :: (if path in out then Some(out[path]) else None)
              == ShownAt(OwnDecorations(files), MarkAll(map[], AllMarks(root, files)), path)
    ensures forall path :: IsShown(files, FolderAt(root, files, path), path, if path in out then Some(out[path]) else None)
  {
    hide MarkAll, AllMarks, ShownAt, IsShown, FolderAt;
    var own := map[];
    for i := 0 to |files|
      invariant own == OwnDecorations(files[..i])
    {
      own := own[files[i].path := OwnDecoration(files[i])];
      assert files[..i + 1][..i] == files[..i];
    }
    assert files[..|files|] == files;
    hide OwnDecorations;
    var folders := Bubble(root, files);
    out := AddFolders(own, folders);
    forall path
      ensures IsShown(files, FolderAt(root, files, path), path, if path in out then Some(out[path]) else None)
    {
      ShownIsShown(root, files, path);
    }
  }

  // ----- within, as text and as segments

  function TextOf(segments: Path): string {
    if segments == [] then "/" else Joined(segments)
  }

  /** The text of a path starts with a slash and ends in one only where it is the root. */
  lemma {:induction false} TextIsNormal(segments: Path)
    requires Plain(segments)
    ensures TextOf(segments) != "" && TextOf(segments)[0] == '/' && (EndsWithSlash(TextOf(segments)) <==> segments == [])
  {
    hide Joined;
    SlashFirst(segments);
    if segments != [] {
      NoSlashAtEnd(segments);
    }
  }

  lemma {:induction false} JoinedAppend(a: Path, b: Path)
    ensures Joined(a + b) == Joined(a) + Joined(b)
  {
    if b == [] {
      assert a + b == a;
    } else {
      assert (a + b)[..|a + b| - 1] == a + b[..|b| - 1];
      JoinedAppend(a, b[..|b| - 1]);
    }
  }

  lemma JoinedFirst(s: Path)
    requires s != []
    ensures Joined(s) == "/" + s[0] + Joined(s[1..])
  {
    assert [s[0]][..0] == [];
    assert [s[0]] + s[1..] == s;
    JoinedAppend([s[0]], s[1..]);
  }

  /** A text starts with another, which ends there or in front of a slash. */
  predicate CutAtSlash(root: string, path: string) {
    root <= path && (|root| < |path| ==> path[|root|] == '/')
  }

  /** Where two texts agree up to a slash, their first segments are as long. */
  lemma SlashIsSooner(one: string, two: string, m: nat, n: nat)
    requires CutAtSlash(one, two) && 0 < m <= |one| && 0 < n <= |two|
    requires (m < |one| ==> one[m] == '/') && (n < |two| ==> two[n] == '/')
    requires forall i :: 0 < i < m ==> one[i] != '/'
    requires forall i :: 0 < i < n ==> two[i] != '/'
    ensures m == n
  {
  }

  /** Segments without a slash in them are told apart by the slashes between them. */
  lemma SameSegment(a: string, b: string, x: string, y: string)
    requires '/' !in a && '/' !in b && (x != "" ==> x[0] == '/') && (y != "" ==> y[0] == '/')
    requires CutAtSlash("/" + a + x, "/" + b + y)
    ensures a == b && CutAtSlash(x, y)
  {
    var one, two := "/" + a + x, "/" + b + y;
    assert forall i :: 0 <= i < |one| ==> one[i] == two[i];
    assert forall i :: 0 <= i < |a| ==> one[i + 1] == a[i] && a[i] != '/';
    assert forall i :: 0 <= i < |b| ==> two[i + 1] == b[i] && b[i] != '/';
    SlashIsSooner(one, two, |a| + 1, |b| + 1);
    assert a == one[1..|a| + 1] == two[1..|a| + 1] == b;
    assert x == one[|a| + 1..] && y == two[|a| + 1..];
  }

  lemma {:induction false} CutIsPrefix(root: Path, path: Path)
    requires Plain(root) && Plain(path) && CutAtSlash(Joined(root), Joined(path))
    ensures root <= path
  {
    if root != [] {
      JoinedFirst(root);
      JoinedFirst(path);
      SlashFirst(root[1..]);
      SlashFirst(path[1..]);
      SameSegment(root[0], path[0], Joined(root[1..]), Joined(path[1..]));
      CutIsPrefix(root[1..], path[1..]);
    }
  }

  lemma SlashFirst(s: Path)
    ensures s != [] ==> Joined(s) != "" && Joined(s)[0] == '/'
    ensures s == [] ==> Joined(s) == ""
  {
    if s != [] {
      JoinedFirst(s);
    }
  }

  lemma {:induction false} NoSlashAtEnd(s: Path)
    requires Plain(s) && s != []
    ensures !EndsWithSlash(Joined(s))
  {
    var last := s[|s| - 1];
    assert Joined(s)[|Joined(s)| - 1] == last[|last| - 1];
  }

  /** `within` on texts is being below on paths: a folder that merely starts with the same letters is not within. */
  lemma WithinIsBelow(root: Path, path: Path)
    requires Plain(root) && Plain(path)
    ensures Within(TextOf(root), TextOf(path)) <==> root <= path
  {
    hide Joined;
    SlashFirst(root);
    SlashFirst(path);
    if root != [] {
      NoSlashAtEnd(root);
      if root <= path {
        BelowIsWithin(root, path);
      } else if path != [] && Within(TextOf(root), TextOf(path)) {
        WithinIsCut(Joined(root), Joined(path));
        CutIsPrefix(root, path);
      }
    }
  }

  lemma WithinIsCut(root: string, path: string)
    requires Within(root, path) && !EndsWithSlash(root)
    ensures CutAtSlash(root, path)
  {
  }

  lemma BelowIsWithin(root: Path, path: Path)
    requires root != [] && root <= path && !EndsWithSlash(Joined(root))
    ensures Within(Joined(root), Joined(path))
  {
    hide Joined;
    var tail := path[|root|..];
    JoinedAppend(root, tail);
    assert root + tail == path;
    SlashFirst(tail);
    if tail != [] {
      assert (Joined(root) + Joined(tail))[..|Joined(root)| + 1] == Joined(root) + "/";
    }
  }
}
