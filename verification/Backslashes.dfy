/** Which questions a rewritten backslash makes unsafe to revalidate, over filesystems as they can be. */
module Backslashes {
  import opened Wrappers
  import opened Words
  import opened Reports
  import opened Paths
  import opened Files
  import opened Projects
  import opened Replay
  import Sorting
  import Text
  import Utf8

  /** Whenever what the question recorded holds of a filesystem, asking it there afresh gives the recorded answer. */
  ghost predicate ReplaySafe(question: Question) {
    forall digest: Digest, fs: Fs, now: Fs ::
      WellFormed(fs) && WellFormed(now) ==> SafeBetween(question, digest, fs, now)
  }

  ghost predicate SafeBetween(question: Question, digest: Digest, fs: Fs, now: Fs) {
    var (memo, answer) := Ask(EMPTY, fs, digest, question);
    NoCollision(digest, fs, now) && Validate(DependenciesOf(memo, digest), now, digest)
    ==> Ask(EMPTY, now, digest, question).1 == answer
  }

  predicate IsHidden(n: seq<Component>) {
    n != [] && n[0] == Normal(LANEKEEP_DIRECTORY)
  }

  /** A backslash in the name of a segment that a file can have, and an answer that the filesystem decides. */
  predicate LosesItsWay(question: Question) {
    match Confine(question.path)
    case Err(_) => false
    case Ok(n) => !IsClean(n) && !HoldsNul(n) && (question.List? ==> !IsHidden(n))
  }

  // ----- The safe questions -----

  lemma SafeWithoutBackslashes(question: Question, digest: Digest, fs: Fs, now: Fs)
    requires LedBack(EMPTY, question)
    ensures SafeBetween(question, digest, fs, now)
  {
    hide Ask, NoCollision, Validate, AllHold, LedBack, Extends, DependenciesOf;
    var memo := Ask(EMPTY, fs, digest, question).0;
    ValidatesAllRecords(memo, digest, now);
    ExtendsItself(memo);
    if NoCollision(digest, fs, now) && Validate(DependenciesOf(memo, digest), now, digest) {
      SameAnswer(EMPTY, fs, now, digest, question, memo);
    }
  }

  /** A path ruled out by its text, a name no file has, and lanekeep's own directory are answered alike everywhere. */
  lemma SafeRegardless(question: Question, digest: Digest, fs: Fs, now: Fs)
    requires WellFormed(fs) && WellFormed(now)
    requires match Confine(question.path)
      case Err(_) => true
      case Ok(n) => HoldsNul(n) || (question.List? && IsHidden(n))
    ensures SafeBetween(question, digest, fs, now)
  {
    hide NoCollision, Validate, DependenciesOf, Confine, NormalizeKey, HoldsNul;
    assert Ask(EMPTY, now, digest, question).1 == Ask(EMPTY, fs, digest, question).1;
  }

  lemma SafeOtherwise(question: Question, digest: Digest, fs: Fs, now: Fs)
    requires WellFormed(fs) && WellFormed(now) && !LosesItsWay(question)
    ensures SafeBetween(question, digest, fs, now)
  {
    hide SafeBetween, IsClean, Normalize, Components, WellFormed, HoldsNul, IsKnown;
    if LedBack(EMPTY, question) {
      SafeWithoutBackslashes(question, digest, fs, now);
    } else {
      SafeRegardless(question, digest, fs, now);
    }
  }

  // ----- A digest that tells small lanes apart -----

  /** Nothing, an odd number of bytes, or an even one. */
  function Parity(bytes: Bytes): ContentHash {
    seq(32, _ => if bytes == [] then 0 else 1 + |bytes| % 2)
  }

  lemma ParityTells(a: Bytes, b: Bytes)
    requires Parity(a) == Parity(b)
    ensures a == [] <==> b == []
    ensures |a| % 2 == |b| % 2
  {
    assert Parity(a)[0] == Parity(b)[0];
  }

  lemma MarkIsOneByte(name: string)
    ensures |Frame([name + "/"])| == |Frame([name])| + 1 && Frame([name]) != [] && Frame([name + "/"]) != []
  {
    Utf8.EncodeConcat(name, "/");
    assert Utf8.Encode("/") == Utf8.EncodeChar('/') + [];
    assert [name][1..] == [] && [name + "/"][1..] == [];
  }

  /** The names of the shorter lane begin the longer one. */
  predicate SameWay(a: seq<FileName>, b: seq<FileName>) {
    a <= b || b <= a
  }

  lemma FramesApart(a: seq<FileName>, tipA: Tip, b: seq<FileName>, tipB: Tip, i: nat)
    requires SameWay(a, b) && i <= |a| && i <= |b|
    ensures Apart(Parity, Some(Frame(LaneEntries(a, tipA, i))), Some(Frame(LaneEntries(b, tipB, i))))
  {
    hide Frame;
    assert Frame([]) == [] by { FrameOfNothing(); }
    var x, y := Frame(LaneEntries(a, tipA, i)), Frame(LaneEntries(b, tipB, i));
    if i < |a| && i < |b| {
      assert a[i] == b[i];
      MarkIsOneByte(a[i]);
    } else if i < |a| {
      MarkIsOneByte(a[i]);
    } else if i < |b| {
      MarkIsOneByte(b[i]);
    }
    if Parity(x) == Parity(y) {
      ParityTells(x, y);
    }
  }

  lemma FrameOfNothing()
    ensures Frame([]) == []
  {
  }

  lemma LanesApart(a: seq<FileName>, tipA: Tip, b: seq<FileName>, tipB: Tip)
    requires IsLane(a, tipA) && IsLane(b, tipB) && SameWay(a, b)
    ensures NoCollision(Parity, Lane(a, tipA), Lane(b, tipB))
  {
    hide Parity, Frame, LaneEntries, ListDirectory, Follow, Walk;
    forall cs
      ensures Apart(Parity, BytesAt(Lane(a, tipA), cs), BytesAt(Lane(b, tipB), cs))
      ensures Apart(Parity, FrameAt(Lane(a, tipA), cs), FrameAt(Lane(b, tipB), cs))
    {
      if ListDirectory(Lane(a, tipA), cs).Listed? && ListDirectory(Lane(b, tipB), cs).Listed? {
        LaneListing(a, tipA, cs);
        LaneListing(b, tipB, cs);
        LaneReaches(a, tipA, cs);
        LaneReaches(b, tipB, cs);
        FramesApart(a, tipA, b, tipB, |Lane(a, tipA).resolve(cs).place|);
      }
    }
  }

  // ----- The unsafe ones -----

  lemma RecordLooksElsewhere(path: string)
    requires Confine(path).Ok? && !IsClean(Confine(path).value)
    ensures IsClean(Trail(FilePath(NormalizeKey(path))))
    ensures IsClean(Normalize(Components(FilePath(ListingKey(path)))))
  {
    hide Normalize, NormalizeKey, Trail, Avoids, Components, FilePath;
    FilePathIsClean(NormalizeKey(path));
    ComponentsAvoid(FilePath(NormalizeKey(path)), '\\');
    FilePathIsClean(ListingKey(path));
    ComponentsAvoid(FilePath(ListingKey(path)), '\\');
    FoldAvoids(Components(FilePath(ListingKey(path))), '\\');
  }

  lemma FilePathIsClean(key: string)
    ensures '\\' !in FilePath(key)
  {
    NoBackslash(key);
  }

  /** The way of a question that loses it, as the names of a lane. */
  lemma WayOf(question: Question) returns (names: seq<FileName>)
    requires LosesItsWay(question)
    ensures names != [] && Confine(question.path) == Ok(Form(0, names))
    ensures exists i | 0 <= i < |names| :: '\\' in names[i]
    ensures question.List? ==> names[0] != LANEKEEP_DIRECTORY
  {
    hide Normalize, Components;
    var n := Confine(question.path).value;
    RelativePath(question.path);
    NormalizedIsPlain(question.path);
    assert forall i | 0 <= i < |n| :: n[i] != ParentDir;
    assert forall i | 0 <= i < |n| :: n[i].Normal? && IsSegment(n[i].name) && '\0' !in n[i].name;
    names := seq(|n|, i requires 0 <= i < |n| => n[i].name);
    assert n == Form(0, names);
    var i :| 0 <= i < |n| && n[i].Normal? && '\\' in n[i].name;
    assert names[i] == n[i].name;
    assert n[0] == Normal(names[0]);
  }

  /** A path without backslashes stops short of the end of a lane that has one. */
  lemma StopsShort(names: seq<FileName>, tip: Tip, cs: seq<Component>)
    requires IsLane(names, tip) && IsClean(cs)
    requires exists i | 0 <= i < |names| :: '\\' in names[i]
    ensures var r := Lane(names, tip).resolve(cs);
      r.Inside? ==> |r.place| < |names| && r.place == names[..|r.place|] && Lane(names, tip).at(r.place).DirectoryNode?
  {
    hide Follow, Walk, IsClean;
    LaneReaches(names, tip, cs);
    var r := Lane(names, tip).resolve(cs);
    if r.Inside? {
      var i :| 0 <= i < |names| && '\\' in names[i];
      assert names[..|names|][i] == names[i];
    }
  }

  /** The filesystem recorded over: what the record is checked against now is what it gave at the path. */
  function FileBefore(names: seq<FileName>, found: ReadOutcome): Fs {
    if found.Refused? then Lane(names, LinkTip(false)) else Lane([], DirectoryTip)
  }

  lemma FoundNow(names: seq<FileName>, path: string)
    requires names != [] && IsClean(Trail(path))
    requires exists i | 0 <= i < |names| :: '\\' in names[i]
    ensures var found := Current(Lane(names, FileTip), Parity, path); found.Absent? || found.Refused?
  {
    hide Trail, IsClean, Parity, Follow, LaneAt;
    StopsShort(names, FileTip, Trail(path));
  }

  lemma FileOutcomes(names: seq<FileName>, found: ReadOutcome)
    requires names != [] && (found.Absent? || found.Refused?)
    ensures Look(FileBefore(names, found), Parity, Form(0, names))
        == if found.Refused? then Outcome.Refused else Outcome.Absent
    ensures Look(Lane(names, FileTip), Parity, Form(0, names)) == Outcome.Text("", Parity([]))
    ensures WellFormed(FileBefore(names, found)) && WellFormed(Lane(names, FileTip))
    ensures NoCollision(Parity, FileBefore(names, found), Lane(names, FileTip))
  {
    hide Follow, Form, Parity, WellFormed, NoCollision;
    NothingInBare(names);
    assert names[..|names|] == names;
    LaneDown(names, LinkTip(false), |names|);
    LaneDown(names, FileTip, |names|);
    LaneIsWellFormed(names, FileTip);
    LaneIsWellFormed(names, LinkTip(false));
    LaneIsWellFormed([], DirectoryTip);
    LanesApart(names, LinkTip(false), names, FileTip);
    LanesApart([], DirectoryTip, names, FileTip);
    assert Utf8.Decode([]) == Some("");
  }

  /** A file where there was nothing, or a link out of the root, and nothing in the record to show for it. */
  lemma FileLosesItsWay(question: Question, names: seq<FileName>)
    requires !question.List? && names != [] && Confine(question.path) == Ok(Form(0, names))
    requires exists i | 0 <= i < |names| :: '\\' in names[i]
    ensures var now := Lane(names, FileTip);
      var fs := FileBefore(names, Current(now, Parity, FilePath(NormalizeKey(question.path))));
      WellFormed(fs) && WellFormed(now) && !SafeBetween(question, Parity, fs, now)
  {
    hide Normalize, NormalizeKey, Trail, Avoids, FilePath, Confine, Parity, Follow, WellFormed, Form, LaneAt,
      NoCollision,
      Look, FileBefore, Current, Lane, SafeBetween, Ask, Validate, DependenciesOf;
    var key, now := NormalizeKey(question.path), Lane(names, FileTip);
    assert !IsClean(Form(0, names)) by { NamesUnclean(names); }
    RecordLooksElsewhere(question.path);
    FoundNow(names, FilePath(key));
    var found := Current(now, Parity, FilePath(key));
    FileOutcomes(names, found);
    var outcome := if found.Refused? then Outcome.Refused else Outcome.Absent;
    OneFileRecord(question, FileBefore(names, found), now, outcome);
    AnswersDiffer(question, FileBefore(names, found), now);
  }

  lemma AnswersDiffer(question: Question, fs: Fs, now: Fs)
    requires !question.List? && Confine(question.path).Ok? && NoCollision(Parity, fs, now)
    requires var found := Look(fs, Parity, Confine(question.path).value); found.Refused? || found.Absent?
    requires Look(now, Parity, Confine(question.path).value).Text?
    requires Validate(DependenciesOf(Ask(EMPTY, fs, Parity, question).0, Parity), now, Parity)
    ensures !SafeBetween(question, Parity, fs, now)
  {
    hide NormalizeKey, Confine, Look, Parity, NoCollision, Validate, DependenciesOf;
  }

  lemma NamesUnclean(names: seq<FileName>)
    requires exists i | 0 <= i < |names| :: '\\' in names[i]
    ensures !IsClean(Form(0, names))
  {
    var i :| 0 <= i < |names| && '\\' in names[i];
    assert Form(0, names)[i] == Normal(names[i]);
  }

  lemma OneFileRecord(question: Question, fs: Fs, now: Fs, outcome: Outcome)
    requires Confine(question.path).Ok? && !question.List?
    requires outcome == Look(fs, Parity, Confine(question.path).value)
    requires Holds(now, Parity, FileRecord(NormalizeKey(question.path), outcome))
    ensures var memo := Ask(EMPTY, fs, Parity, question).0;
      Validate(DependenciesOf(memo, Parity), now, Parity)
  {
    hide NormalizeKey, Confine, Look, Holds, FileRecord, Parity;
    var memo, key := Ask(EMPTY, fs, Parity, question).0, NormalizeKey(question.path);
    assert memo == Memo(map[key := outcome], map[]);
    assert Records(memo, Parity) == {FileRecord(key, outcome)};
    ValidatesAllRecords(memo, Parity, now);
  }

  // ----- Listings -----

  /** What the record of a listing is checked against now, read off the lane. */
  lemma ListedNow(names: seq<FileName>, path: string) returns (x: FileName)
    requires names != [] && names[0] != LANEKEEP_DIRECTORY && IsClean(Normalize(Components(path)))
    requires exists i | 0 <= i < |names| :: '\\' in names[i]
    ensures var found := ListDirectory(Lane(names, DirectoryTip), Normalize(Components(path)));
      found.Listed? ==> found.entries == [x + "/"]
  {
    hide Normalize, Components, IsClean, Follow, LaneAt, Walk;
    var cs, now := Normalize(Components(path)), Lane(names, DirectoryTip);
    StopsShort(names, DirectoryTip, cs);
    x := names[0];
    if ListDirectory(now, cs).Listed? {
      LaneListing(names, DirectoryTip, cs);
      x := names[|now.resolve(cs).place|];
    }
  }

  function ListingBefore(names: seq<FileName>, x: FileName, found: Listing): Fs {
    match found
    case Refused => Lane(names, LinkTip(false))
    case Unlisted => Lane([], DirectoryTip)
    case Listed(_) => Lane(names + [x], DirectoryTip)
  }

  lemma ListingOutcomes(names: seq<FileName>, x: FileName, found: Listing)
    requires names != [] && names[0] != LANEKEEP_DIRECTORY
    ensures ListDirectory(ListingBefore(names, x, found), Form(0, names))
         == if found.Listed? then Listing.Listed([x + "/"]) else found
    ensures ListDirectory(Lane(names, DirectoryTip), Form(0, names)) == Listing.Listed([])
    ensures WellFormed(ListingBefore(names, x, found)) && WellFormed(Lane(names, DirectoryTip))
    ensures NoCollision(Parity, ListingBefore(names, x, found), Lane(names, DirectoryTip))
  {
    hide Parity, WellFormed, NoCollision, ListDirectory, Form, Lane;
    LaneListings(names, x);
    LaneIsWellFormed(names, DirectoryTip);
    LaneIsWellFormed(names, LinkTip(false));
    LaneIsWellFormed(names + [x], DirectoryTip);
    LaneIsWellFormed([], DirectoryTip);
    LanesApart(names, LinkTip(false), names, DirectoryTip);
    LanesApart(names + [x], DirectoryTip, names, DirectoryTip);
    LanesApart([], DirectoryTip, names, DirectoryTip);
  }

  lemma LaneListings(names: seq<FileName>, x: FileName)
    requires names != [] && names[0] != LANEKEEP_DIRECTORY
    ensures ListDirectory(Lane(names, LinkTip(false)), Form(0, names)) == Listing.Refused
    ensures ListDirectory(Lane([], DirectoryTip), Form(0, names)) == Listing.Unlisted
    ensures ListDirectory(Lane(names + [x], DirectoryTip), Form(0, names)) == Listing.Listed([x + "/"])
    ensures ListDirectory(Lane(names, DirectoryTip), Form(0, names)) == Listing.Listed([])
  {
    hide Follow, LaneEntries, Walk, EntryNames, Form, Sorting.SortBy;
    FirstSegment(names);
    assert names[..|names|] == names && (names + [x])[..|names|] == names;
    NothingInBare(names);
    LaneDown(names, LinkTip(false), |names|);
    LaneDown(names, DirectoryTip, |names|);
    LaneDown(names + [x], DirectoryTip, |names|);
    LaneListing(names, DirectoryTip, Form(0, names));
    LaneListing(names + [x], DirectoryTip, Form(0, names));
    TipEntries(names, x);
  }

  lemma TipEntries(names: seq<FileName>, x: FileName)
    requires names != []
    ensures LaneEntries(names, DirectoryTip, |names|) == []
    ensures LaneEntries(names + [x], DirectoryTip, |names|) == [x + "/"]
  {
  }

  lemma OneListingRecord(question: Question, fs: Fs, now: Fs, listing: Listing)
    requires Confine(question.path).Ok? && question.List?
    requires listing == ListDirectory(fs, Confine(question.path).value)
    requires Holds(now, Parity, ListingRecord(Parity, ListingKey(question.path), listing))
    ensures var memo := Ask(EMPTY, fs, Parity, question).0;
      Validate(DependenciesOf(memo, Parity), now, Parity)
  {
    hide ListingKey, Confine, ListDirectory, Holds, ListingRecord, Parity;
    var memo, key := Ask(EMPTY, fs, Parity, question).0, ListingKey(question.path);
    assert memo == Memo(map[], map[key := listing]);
    assert Records(memo, Parity) == {ListingRecord(Parity, key, listing)};
    ValidatesAllRecords(memo, Parity, now);
  }

  /** The key of a path without NULs has none. */
  lemma KeyHasNoNul(path: string)
    requires Confine(path).Ok? && !HoldsNul(Confine(path).value)
    ensures '\0' !in FilePath(ListingKey(path))
  {
    hide Normalize, Components, Render, IsPlain, Avoids;
    NormalizedIsPlain(path);
    RenderedAvoids(Confine(path).value, '\0');
    assert '\0' !in NormalizeKey(path);
  }

  /** A lane leads out of the root only where the text says so. */
  lemma {:induction false} LaneEscapes(names: seq<FileName>, cs: seq<Component>)
    requires Lane(names, DirectoryTip).resolve(cs).Outside?
    ensures ParentDir in cs || RootDir in cs
    decreases |cs|
  {
    var front, c := cs[..|cs| - 1], cs[|cs| - 1];
    if Lane(names, DirectoryTip).resolve(front).Outside? {
      LaneEscapes(names, front);
    }
    assert c in cs;
  }

  /** The project to check a refused listing against: whatever the record's text names is there to be gone through. */
  function MazeFor(names: seq<FileName>, path: string): Maze {
    var cs := Trail(path);
    Maze(names, (set name | name in names) + (set c | c in cs && c.Normal? :: c.name), |names| + |cs|)
  }

  lemma RefusedNow(names: seq<FileName>, path: string)
    requires names != [] && !IsClean(Form(0, names))
    requires IsClean(Trail(path)) && Avoids(Trail(path), '\0')
    requires ListDirectory(Lane(names, DirectoryTip), Normalize(Components(path))).Refused?
    ensures MazeFor(names, path).Valid()
    ensures Current(MazeFor(names, path).Project(), Parity, path).Refused?
  {
    hide Follow, Parity, Walk, Normalize, Components, Form, Lowest, Maze.Resolve, Trail, Lane;
    var cs, maze := Trail(path), MazeFor(names, path);
    LaneEscapes(names, Normalize(Components(path)));
    assert RootDir in cs || Lowest(cs) < 0 by { EscapingText(path); }
    forall i | 0 <= i < |cs| && cs[i].Normal?
      ensures cs[i].name in maze.known && '\0' !in cs[i].name
    {
      assert cs[i] in cs;
    }
    maze.FollowsText(cs);
  }

  lemma EscapingText(path: string)
    requires ParentDir in Normalize(Components(path)) || RootDir in Normalize(Components(path))
    ensures RootDir in Trail(path) || Lowest(Trail(path)) < 0
  {
    hide Normalize, Lowest, ClimbsOut, Text.SplitSlash, PieceComponents, Form;
    if HasRoot(path) {
      assert Components(path)[0] == RootDir;
    } else {
      RelativePath(path);
      var cs := Trail(path);
      assert Relative(cs);
      ParentKeptIffClimbsOut(cs);
      LowestIsNegative(cs);
      NormalizedIsPlain(path);
      assert RootDir !in Normalize(cs);
    }
  }

  // ----- Both kinds -----

  /** The project a listing's record is checked against: a lane, or, where the record leads out of the root, a maze. */
  function ListingAfter(names: seq<FileName>, path: string, found: Listing): Fs
    requires names != []
  {
    if found.Refused? then MazeFor(names, path).Project() else Lane(names, DirectoryTip)
  }

  lemma MazeOutcomes(names: seq<FileName>, path: string)
    requires names != [] && names[0] != LANEKEEP_DIRECTORY && MazeFor(names, path).Valid()
    ensures var now := MazeFor(names, path).Project();
      && WellFormed(now) && ListDirectory(now, Form(0, names)) == Listing.Listed([])
      && NoCollision(Parity, Lane(names, LinkTip(false)), now)
  {
    hide WellFormed, NoCollision, ListDirectory, Trail;
    var maze := MazeFor(names, path);
    maze.IsWellFormed();
    MazeListing(maze);
    MazeApart(names, maze);
  }

  lemma MazeListing(maze: Maze)
    requires maze.Valid() && maze.names[0] != LANEKEEP_DIRECTORY
    ensures ListDirectory(maze.Project(), Form(0, maze.names)) == Listing.Listed([])
  {
    hide Form, Maze.Resolve, EntryNames, Sorting.SortBy;
    var names: seq<string> := maze.names;
    maze.LeadsDown(|names|);
    assert maze.names[..|names|] == names;
    FirstSegment(names);
    NothingListed(maze.Project(), names);
    SortOne([]);
  }

  lemma FirstSegment(names: seq<string>)
    requires names != []
    ensures Form(0, names) != [] && Form(0, names)[0] == Normal(names[0])
  {
  }

  lemma MazeApart(names: seq<FileName>, maze: Maze)
    ensures NoCollision(Parity, Lane(names, LinkTip(false)), maze.Project())
  {
    hide Parity, FrameAt, BytesAt;
    var before, now := Lane(names, LinkTip(false)), maze.Project();
    forall cs
      ensures Apart(Parity, BytesAt(before, cs), BytesAt(now, cs))
      ensures Apart(Parity, FrameAt(before, cs), FrameAt(now, cs))
    {
      NoFiles(maze, cs);
      if FrameAt(before, cs).Some? && FrameAt(now, cs).Some? {
        EmptyMaze(maze, cs);
        var x := FrameAt(before, cs).value;
        if Parity(x) == Parity([]) {
          ParityTells(x, []);
        }
      }
    }
  }

  lemma NoFiles(maze: Maze, cs: seq<Component>)
    ensures BytesAt(maze.Project(), cs).None?
  {
  }

  lemma EmptyMaze(maze: Maze, cs: seq<Component>)
    requires FrameAt(maze.Project(), cs).Some?
    ensures FrameAt(maze.Project(), cs) == Some([])
  {
    var place := maze.Resolve(cs).place;
    NothingListed(maze.Project(), place);
    SortOne([]);
  }

  /** A directory where there was none, or another, or a link out of the root, and nothing in the record to show for
    * it. */
  lemma ListingLosesItsWay(question: Question) returns (fs: Fs, now: Fs)
    requires LosesItsWay(question) && question.List?
    ensures WellFormed(fs) && WellFormed(now) && !SafeBetween(question, Parity, fs, now)
  {
    hide Normalize, ListingKey, Trail, Avoids, FilePath, Confine, Parity, Follow, WellFormed, LaneAt, NoCollision,
      ListDirectory, Current, Lane, Form, MazeFor, Components;
    var names := WayOf(question);
    var path := FilePath(ListingKey(question.path));
    RecordLooksElsewhere(question.path);
    KeyHasNoNul(question.path);
    ComponentsAvoid(path, '\0');
    FilePathIsClean(ListingKey(question.path));
    ComponentsAvoid(path, '\\');
    var found := ListDirectory(Lane(names, DirectoryTip), Normalize(Components(path)));
    var x := ListedNow(names, path);
    fs, now := ListingBefore(names, x, found), ListingAfter(names, path, found);
    ListingOutcomes(names, x, found);
    if found.Refused? {
      RefusedNow(names, path);
      MazeOutcomes(names, path);
      assert fs == Lane(names, LinkTip(false));
    }
    var listing := if found.Listed? then Listing.Listed([x + "/"]) else found;
    OneListingRecord(question, fs, now, listing);
  }

  lemma LosesItsWaySomewhere(question: Question) returns (fs: Fs, now: Fs)
    requires LosesItsWay(question)
    ensures WellFormed(fs) && WellFormed(now) && !SafeBetween(question, Parity, fs, now)
  {
    hide SafeBetween, WellFormed, Parity, Lane, FileBefore, Current, NormalizeKey, Avoids, Form;
    if question.List? {
      fs, now := ListingLosesItsWay(question);
    } else {
      var names := WayOf(question);
      FileLosesItsWay(question, names);
      now := Lane(names, FileTip);
      fs := FileBefore(names, Current(now, Parity, FilePath(NormalizeKey(question.path))));
    }
  }

  /** A question can be revalidated in place of being asked again exactly when no backslash can mislead its record. */
  lemma ReplaySafeExactly(question: Question)
    ensures ReplaySafe(question) <==> !LosesItsWay(question)
  {
    hide SafeBetween, LosesItsWay, WellFormed, Parity;
    if LosesItsWay(question) {
      var fs, now := LosesItsWaySomewhere(question);
      assert !SafeBetween(question, Parity, fs, now);
    } else {
      forall digest: Digest, fs: Fs, now: Fs | WellFormed(fs) && WellFormed(now)
        ensures SafeBetween(question, digest, fs, now)
      {
        SafeOtherwise(question, digest, fs, now);
      }
    }
  }

  /** A path that is one segment. */
  lemma OneSegment(name: string)
    requires IsSegment(name)
    ensures Components(name) == Trail(name) == [Normal(name)] == Form(0, [name])
    ensures Confine(name) == Ok(Form(0, [name])) && NormalizeKey(name) == ForwardSlashes(name)
  {
    Text.SplitSlashNone(name);
    assert [name][1..] == [];
    assert PieceComponents([name]) == [Normal(name)] + PieceComponents([]);
    assert [Normal(name)][..0] == [];
    assert Fold([Normal(name)]) == Step(Fold([]), Normal(name));
    assert Texts([Normal(name)]) == [name];
  }

  lemma TwoSegments(a: string, b: string)
    requires IsSegment(a) && IsSegment(b)
    ensures Trail(a + ("/" + b)) == [Normal(a), Normal(b)]
  {
    Text.SplitSlashFirst(a, b);
    Text.SplitSlashNone(b);
    assert [a, b][1..] == [b] && [b][1..] == [];
    assert PieceComponents([b]) == [Normal(b)] + PieceComponents([]);
    assert PieceComponents([a, b]) == [Normal(a)] + PieceComponents([b]);
  }

  /** Nothing named `a` is there, and so nothing under it. */
  lemma NothingThere(name: FileName, a: string, b: string)
    requires a != name
    ensures Lane([name], FileTip).resolve([Normal(a), Normal(b)]) == Missing
  {
    var fs := Lane([name], FileTip);
    var at := place => LaneAt([name], FileTip, place);
    FollowSnoc(at, LaneLeads(FileTip), [], Normal(a));
    FollowSnoc(at, LaneLeads(FileTip), [Normal(a)], Normal(b));
    assert [] + [Normal(a)] == [Normal(a)] && [Normal(a)] + [Normal(b)] == [Normal(a), Normal(b)];
    assert FindChild([Child(name, OtherKind)], a).None?;
  }

  lemma NothingCurrent(fs: Fs, path: string)
    requires fs.resolve(Trail(path)) == Missing
    ensures Current(fs, Parity, path) == ReadOutcome.Absent
  {
    hide Parity, Trail;
  }

  const BACKSLASHED: FileName := "a\\b"

  /** An empty project, and one with a file named `a\b`: the file is recorded as `a/b`, where neither has anything. */
  lemma BackslashCounterexample()
    ensures WellFormed(Lane([], DirectoryTip)) && WellFormed(Lane([BACKSLASHED], FileTip))
    ensures !SafeBetween(Question.Read(BACKSLASHED), Parity, Lane([], DirectoryTip), Lane([BACKSLASHED], FileTip))
    ensures NormalizeKey(BACKSLASHED) == "a/b"
  {
    hide SafeBetween, WellFormed, NormalizeKey, Confine, Components, Trail, Lane, Parity, Form, Current;
    var name := BACKSLASHED;
    assert name[1] == '\\' && '\\' in [name][0];
    OneSegment(name);
    assert ForwardSlashes(name) == "a/b" == "a" + ("/" + "b");
    TwoSegments("a", "b");
    NothingThere(name, "a", "b");
    FilePathFixed("a/b");
    var now := Lane([name], FileTip);
    assert FilePath(NormalizeKey(name)) == "a/b" by {
      assert "./"[0] == '.' && "a/b"[0] == 'a';
      assert '\\' !in "a/b" && !("./" <= "a/b");
    }
    NothingCurrent(now, "a/b");
    FileLosesItsWay(Question.Read(name), [name]);
    LaneIsWellFormed([], DirectoryTip);
  }
}
