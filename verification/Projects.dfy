/** Filesystems as they can be: resolution that follows what stands there, and small projects to exhibit. */
module Projects {
  import opened Wrappers
  import opened Paths
  import opened Files
  import Sorting

  predicate IsDirectory(node: Node) {
    node.DirectoryNode? || node.SealedDirectory?
  }

  function FindChild(children: seq<Child>, name: string): (r: Option<Child>)
    ensures r.Some? ==> r.value in children && r.value.name == name
    ensures r.None? ==> forall child | child in children :: child.name != name
  {
    if children == [] then None
    else if children[0].name == name then Some(children[0])
    else FindChild(children[1..], name)
  }

  /** A place is there when the root leads down to it, through directories, without a link. */
  ghost predicate Stands(at: seq<string> -> Node, place: seq<string>)
    decreases |place|
  {
    place == []
    || (Stands(at, place[..|place| - 1])
        && match at(place[..|place| - 1])
           case DirectoryNode(children) =>
             var child := FindChild(children, place[|place| - 1]);
             child.Some? && !child.value.kind.LinkKind?
           case SealedDirectory => true
           case _ => false)
  }

  /** A directory's names are distinct, and each entry's kind is that of what stands under it. */
  ghost predicate SoundDirectory(at: seq<string> -> Node, place: seq<string>) {
    match at(place)
    case DirectoryNode(children) =>
      && (forall i, j | 0 <= i < j < |children| :: children[i].name != children[j].name)
      && (forall child | child in children && !child.kind.LinkKind? ::
            IsDirectory(at(place + [child.name])) <==> child.kind.DirectoryKind?)
    case _ => true
  }

  /** One more component leads where the directory it is looked up in says. */
  ghost predicate Follows(fs: Fs, cs: seq<Component>, c: Component) {
    match fs.resolve(cs)
    case Missing => fs.resolve(cs + [c]) == Missing
    case Outside => true
    case Inside(place) =>
      match c
      case Normal(name) =>
        (match fs.at(place)
         case DirectoryNode(children) =>
           (match FindChild(children, name)
            case None => fs.resolve(cs + [c]) == Missing
            case Some(child) =>
              fs.resolve(cs + [c])
              == if child.kind.LinkKind? then fs.resolve(Form(0, place + [name])) else Inside(place + [name]))
         case SealedDirectory => true
         case _ => fs.resolve(cs + [c]) == Missing)
      case ParentDir =>
        if !IsDirectory(fs.at(place)) then fs.resolve(cs + [c]) == Missing
        else place != [] ==> fs.resolve(cs + [c]) == Inside(place[..|place| - 1])
      case _ => true
  }

  predicate HoldsNul(cs: seq<Component>) {
    !Avoids(cs, '\0')
  }

  /** A filesystem a kernel could serve. */
  ghost predicate WellFormed(fs: Fs) {
    && fs.resolve([]) == Inside([]) && IsDirectory(fs.at([]))
    && (forall cs, c :: Follows(fs, cs, c))
    && (forall cs :: fs.resolve(cs).Inside? ==> Stands(fs.at, fs.resolve(cs).place))
    && (forall cs :: HoldsNul(cs) ==> fs.resolve(cs) == Missing)
    && (forall place :: Stands(fs.at, place) ==> SoundDirectory(fs.at, place))
  }

  // ----- Projects given by what stands where -----

  /** Where each link leads; and where a path does whose front leads out of the root, which may be back into it. */
  datatype Leads = Leads(of: seq<string> -> Resolution, beyond: seq<Component> -> Resolution)

  /** Nothing is reached beyond the root. */
  function NothingBeyond(of: seq<string> -> Resolution): Leads {
    Leads(of, cs => if cs != [] && cs[|cs| - 1] == ParentDir then Outside else Missing)
  }

  /** Resolution through listed directories, and on from where links lead. */
  function Follow(at: seq<string> -> Node, leads: Leads, cs: seq<Component>): Resolution
    decreases |cs|
  {
    if cs == [] then Inside([])
    else
      match Follow(at, leads, cs[..|cs| - 1])
      case Missing => Missing
      case Outside => if HoldsNul(cs) then Missing else leads.beyond(cs)
      case Inside(place) => FollowOne(at, leads, place, cs[|cs| - 1])
  }

  function FollowOne(at: seq<string> -> Node, leads: Leads, place: seq<string>, c: Component): Resolution {
    match c
    case Normal(name) =>
      (match at(place)
       case DirectoryNode(children) =>
         (match FindChild(children, name)
          case None => Missing
          case Some(child) => if child.kind.LinkKind? then leads.of(place + [name]) else Inside(place + [name]))
       case _ => Missing)
    case ParentDir =>
      if !IsDirectory(at(place)) then Missing else if place == [] then Outside else Inside(place[..|place| - 1])
    case CurDir => Inside(place)
    case RootDir => Outside
  }

  function Tree(at: seq<string> -> Node, leads: Leads): Fs {
    Fs(cs => Follow(at, leads, cs), at)
  }

  ghost predicate SoundTree(at: seq<string> -> Node, leads: Leads) {
    && at([]).DirectoryNode?
    && (forall place :: !at(place).SealedDirectory?)
    && (forall place :: leads.of(place).Inside? ==> Stands(at, leads.of(place).place))
    && (forall cs :: leads.beyond(cs).Inside? ==> Stands(at, leads.beyond(cs).place))
    && (forall place :: Stands(at, place) ==> SoundDirectory(at, place))
  }

  lemma StandsBelow(at: seq<string> -> Node, place: seq<string>, child: Child)
    requires Stands(at, place) && at(place).DirectoryNode?
    requires FindChild(at(place).children, child.name) == Some(child) && !child.kind.LinkKind?
    ensures Stands(at, place + [child.name])
  {
    assert (place + [child.name])[..|place|] == place;
  }

  lemma {:induction false} FollowStands(at: seq<string> -> Node, leads: Leads, cs: seq<Component>)
    requires SoundTree(at, leads)
    ensures Follow(at, leads, cs).Inside? ==> Stands(at, Follow(at, leads, cs).place)
    decreases |cs|
  {
    hide SoundDirectory;
    if cs != [] {
      var before, c := Follow(at, leads, cs[..|cs| - 1]), cs[|cs| - 1];
      FollowStands(at, leads, cs[..|cs| - 1]);
      if before.Inside? && c.Normal? && at(before.place).DirectoryNode? {
        var child := FindChild(at(before.place).children, c.name);
        if child.Some? && !child.value.kind.LinkKind? {
          StandsBelow(at, before.place, child.value);
        }
      }
    }
  }

  lemma EmptyForm()
    ensures Form(0, []) == []
  {
  }

  lemma {:induction false} StandsFollows(at: seq<string> -> Node, leads: Leads, place: seq<string>)
    requires SoundTree(at, leads) && Stands(at, place)
    ensures Follow(at, leads, Form(0, place)) == Inside(place)
    decreases |place|
  {
    hide SoundTree, Form;
    if place == [] {
      EmptyForm();
    } else {
      hide Follow;
      var front, last := place[..|place| - 1], place[|place| - 1];
      StandsFollows(at, leads, front);
      FormPush(0, front, last);
      assert front + [last] == place;
      FollowSnoc(at, leads, Form(0, front), Normal(last));
      NothingIsSealed(at, leads, front);
    }
  }

  lemma NothingIsSealed(at: seq<string> -> Node, leads: Leads, place: seq<string>)
    requires SoundTree(at, leads)
    ensures !at(place).SealedDirectory?
  {
  }

  lemma FollowSnoc(at: seq<string> -> Node, leads: Leads, cs: seq<Component>, c: Component)
    ensures Follow(at, leads, cs + [c]) == match Follow(at, leads, cs)
      case Missing => Missing
      case Outside => if HoldsNul(cs + [c]) then Missing else leads.beyond(cs + [c])
      case Inside(place) => FollowOne(at, leads, place, c)
  {
    assert (cs + [c])[..|cs|] == cs;
  }

  lemma TreeFollows(at: seq<string> -> Node, leads: Leads, cs: seq<Component>, c: Component)
    requires SoundTree(at, leads)
    ensures Follows(Tree(at, leads), cs, c)
  {
    hide Follow, Stands, SoundDirectory;
    FollowSnoc(at, leads, cs, c);
    FollowStands(at, leads, cs);
    var before := Follow(at, leads, cs);
    if before.Inside? && c.Normal? && at(before.place).DirectoryNode? {
      StandsFollows(at, leads, before.place);
      FormPush(0, before.place, c.name);
      FollowSnoc(at, leads, Form(0, before.place), c);
    }
  }

  lemma {:induction false} NulLeadsNowhere(at: seq<string> -> Node, leads: Leads, cs: seq<Component>)
    requires HoldsNul(cs)
    ensures Follow(at, leads, cs) == Missing
    decreases |cs|
  {
    var front := cs[..|cs| - 1];
    var i :| 0 <= i < |cs| && cs[i].Normal? && '\0' in cs[i].name;
    if i < |front| {
      assert front[i] == cs[i];
      NulLeadsNowhere(at, leads, front);
    }
  }

  lemma TreeIsWellFormed(at: seq<string> -> Node, leads: Leads)
    requires SoundTree(at, leads)
    ensures WellFormed(Tree(at, leads))
  {
    hide Stands, SoundDirectory, HoldsNul, Follows, FollowOne;
    var fs := Tree(at, leads);
    forall cs, c
      ensures Follows(fs, cs, c)
    {
      TreeFollows(at, leads, cs, c);
    }
    forall cs
      ensures fs.resolve(cs).Inside? ==> Stands(fs.at, fs.resolve(cs).place)
      ensures HoldsNul(cs) ==> fs.resolve(cs) == Missing
    {
      FollowStands(at, leads, cs);
      if HoldsNul(cs) {
        NulLeadsNowhere(at, leads, cs);
      }
    }
  }

  // ----- A lane of directories -----

  /** What a lane ends in. A link leads out of the root or nowhere. */
  datatype Tip = FileTip | DirectoryTip | LinkTip(dangling: bool)

  function TipKind(tip: Tip): Kind {
    match tip
    case FileTip => OtherKind
    case DirectoryTip => DirectoryKind
    case LinkTip(_) => LinkKind
  }

  function LaneAt(names: seq<FileName>, tip: Tip, place: seq<string>): Node {
    if |place| < |names| && place == names[..|place|] then
      DirectoryNode([Child(names[|place|], if |place| + 1 < |names| then DirectoryKind else TipKind(tip))])
    else if place == names && tip.DirectoryTip? then DirectoryNode([])
    else FileNode([])
  }

  function LaneLeads(tip: Tip): Leads {
    NothingBeyond(_ => if tip == LinkTip(false) then Outside else Missing)
  }

  /** The root, one directory in another, and the tip: empty, if it is a file or a directory. */
  function Lane(names: seq<FileName>, tip: Tip): Fs {
    Tree(place => LaneAt(names, tip, place), LaneLeads(tip))
  }

  /** A lane without a name is the empty project. */
  predicate IsLane(names: seq<FileName>, tip: Tip) {
    names == [] ==> tip.DirectoryTip?
  }

  lemma LaneChild(names: seq<FileName>, tip: Tip, place: seq<string>)
    requires IsLane(names, tip) && LaneAt(names, tip, place).DirectoryNode?
    requires LaneAt(names, tip, place).children != []
    ensures |place| < |names| && place + [names[|place|]] == names[..|place| + 1]
    ensures IsDirectory(LaneAt(names, tip, place + [names[|place|]]))
       <==> |place| + 1 < |names| || tip.DirectoryTip?
  {
    assert place + [names[|place|]] == names[..|place| + 1];
    if |place| + 1 == |names| {
      assert names[..|place| + 1] == names;
    }
  }

  lemma LaneIsWellFormed(names: seq<FileName>, tip: Tip)
    requires IsLane(names, tip)
    ensures WellFormed(Lane(names, tip))
  {
    var at := place => LaneAt(names, tip, place);
    forall place | Stands(at, place)
      ensures SoundDirectory(at, place)
    {
      if at(place).DirectoryNode? && at(place).children != [] {
        LaneChild(names, tip, place);
      }
    }
    TreeIsWellFormed(at, LaneLeads(tip));
  }

  /** In a lane, whatever leads somewhere leads along it, as its own components say. */
  lemma {:induction false} LaneReaches(names: seq<FileName>, tip: Tip, cs: seq<Component>)
    ensures var r := Lane(names, tip).resolve(cs);
      r.Inside? ==>
        && |r.place| <= |names| && r.place == names[..|r.place|]
        && Walk([], cs) == Some(r.place)
        && (IsClean(cs) ==> forall i | 0 <= i < |r.place| :: '\\' !in r.place[i])
    decreases |cs|
  {
    hide Walk;
    if cs == [] {
      assert Walk([], []) == Some([]) by { WalkNowhere(); }
    } else {
      hide Follow, FollowOne, LaneAt, IsClean;
      var front, c := cs[..|cs| - 1], cs[|cs| - 1];
      LaneReaches(names, tip, front);
      assert front + [c] == cs;
      WalkOne([], front, c);
      FollowSnoc(place => LaneAt(names, tip, place), LaneLeads(tip), front, c);
      var before := Lane(names, tip).resolve(front);
      CleanSnoc(front, c);
      if before.Inside? {
        LaneGoesOn(names, tip, before.place, c);
      }
    }
  }

  lemma CleanSnoc(front: seq<Component>, c: Component)
    ensures IsClean(front + [c]) ==> IsClean(front) && (c.Normal? ==> '\\' !in c.name)
  {
    if IsClean(front + [c]) {
      assert forall i | 0 <= i < |front| :: (front + [c])[i] == front[i];
      assert (front + [c])[|front|] == c;
    }
  }

  lemma LaneGoesOn(names: seq<FileName>, tip: Tip, place: seq<string>, c: Component)
    requires |place| <= |names| && place == names[..|place|]
    ensures var r := FollowOne(p => LaneAt(names, tip, p), LaneLeads(tip), place, c);
      r.Inside? ==>
        && |r.place| <= |names| && r.place == names[..|r.place|]
        && Walk(place, [c]) == Some(r.place)
        && forall i | 0 <= i < |r.place| :: (i < |place| && r.place[i] == place[i]) || c == Normal(r.place[i])
  {
    hide Walk;
    WalkStep(place, c);
  }

  lemma WalkNowhere()
    ensures Walk([], []) == Some([])
  {
  }

  lemma WalkStep(dir: seq<string>, c: Component)
    ensures Walk(dir, [c]) == match c
      case RootDir => Some([])
      case CurDir => Some(dir)
      case ParentDir => if dir == [] then None else Some(dir[..|dir| - 1])
      case Normal(name) => Some(dir + [name])
  {
  }

  lemma LaneStep(names: seq<FileName>, tip: Tip, i: nat)
    requires IsLane(names, tip) && 0 < i <= |names|
    ensures FollowOne(place => LaneAt(names, tip, place), LaneLeads(tip),
                      names[..i - 1], Normal(names[i - 1]))
         == if i < |names| || !tip.LinkTip? then Inside(names[..i]) else if tip.dangling then Missing else Outside
  {
    assert names[..i - 1] + [names[i - 1]] == names[..i];
  }

  lemma LaneNext(names: seq<FileName>, tip: Tip, i: nat)
    requires IsLane(names, tip) && 0 < i <= |names|
    requires Lane(names, tip).resolve(Form(0, names[..i - 1])) == Inside(names[..i - 1])
    ensures Lane(names, tip).resolve(Form(0, names[..i]))
         == if i < |names| || !tip.LinkTip? then Inside(names[..i]) else if tip.dangling then Missing else Outside
  {
    hide Form, Follow, FollowOne, LaneAt;
    LaneStep(names, tip, i);
    var front: seq<string> := names[..i - 1];
    FormPush(0, front, names[i - 1]);
    assert front + [names[i - 1]] == names[..i];
    FollowSnoc(place => LaneAt(names, tip, place), LaneLeads(tip),
      Form(0, front), Normal(names[i - 1]));
  }

  lemma LaneRoot(names: seq<FileName>, tip: Tip)
    ensures Lane(names, tip).resolve(Form(0, names[..0])) == Inside(names[..0])
  {
    hide LaneAt;
    assert names[..0] == [] && Form(0, []) == [];
  }

  /** Down a lane to its tip. */
  lemma {:induction false} LaneDown(names: seq<FileName>, tip: Tip, i: nat)
    requires IsLane(names, tip) && i <= |names|
    ensures Lane(names, tip).resolve(Form(0, names[..i]))
         == if i < |names| || !tip.LinkTip? then Inside(names[..i]) else if tip.dangling then Missing else Outside
  {
    hide Form, Lane;
    if i == 0 {
      LaneRoot(names, tip);
    } else {
      LaneDown(names, tip, i - 1);
      LaneNext(names, tip, i);
    }
  }

  /** In the empty project no name leads anywhere. */
  lemma {:induction false} NothingInBare(names: seq<string>)
    requires names != []
    ensures Lane([], DirectoryTip).resolve(Form(0, names)) == Missing
  {
    var front, last := names[..|names| - 1], names[|names| - 1];
    FormPush(0, front, last);
    assert front + [last] == names;
    FollowSnoc(place => LaneAt([], DirectoryTip, place), LaneLeads(DirectoryTip),
      Form(0, front), Normal(last));
    if front == [] {
      assert Form(0, front) == [];
    } else {
      NothingInBare(front);
    }
  }

  /** What a lane's directory at depth `i` is listed as. */
  function LaneEntries(names: seq<FileName>, tip: Tip, i: nat): seq<string>
    requires i <= |names|
  {
    if i == |names| || (i == 0 && names[0] == LANEKEEP_DIRECTORY) then []
    else [if i + 1 < |names| || tip.DirectoryTip? then names[i] + "/" else names[i]]
  }

  lemma LaneMark(names: seq<FileName>, tip: Tip, i: nat)
    requires IsLane(names, tip) && i < |names|
    ensures var child := Child(names[i], if i + 1 < |names| then DirectoryKind else TipKind(tip));
      && LaneAt(names, tip, names[..i]) == DirectoryNode([child])
      && (IsDirectoryIn(Lane(names, tip), names[..i], child) <==> i + 1 < |names| || tip.DirectoryTip?)
  {
    hide Follow, Form;
    if i + 1 == |names| && tip.LinkTip? {
      LaneDown(names, tip, i + 1);
      assert names[..i] + [names[i]] == names[..i + 1];
    }
  }

  lemma LaneNames(names: seq<FileName>, tip: Tip, i: nat)
    requires IsLane(names, tip) && i < |names|
    ensures EntryNames(Lane(names, tip), names[..i], LaneAt(names, tip, names[..i]).children)
        == LaneEntries(names, tip, i)
  {
    hide Follow, Form, IsDirectoryIn, LaneAt;
    LaneMark(names, tip, i);
    var fs, place: seq<string> := Lane(names, tip), names[..i];
    var child := LaneAt(names, tip, place).children[0];
    assert [child][1..] == [];
    assert EntryNames(fs, place, [child])
        == if place == [] && child.name == LANEKEEP_DIRECTORY then EntryNames(fs, place, [])
           else [if IsDirectoryIn(fs, place, child) then child.name + "/" else child.name] + EntryNames(fs, place, []);
  }

  lemma SortOne(names: seq<string>)
    requires |names| <= 1
    ensures Sorting.SortBy(names, TextLe) == names
  {
    if names != [] {
      assert names[1..] == [];
    }
  }

  lemma LaneListing(names: seq<FileName>, tip: Tip, cs: seq<Component>)
    requires IsLane(names, tip) && ListDirectory(Lane(names, tip), cs).Listed?
    ensures var r := Lane(names, tip).resolve(cs);
      r.Inside? && |r.place| <= |names|
      && ListDirectory(Lane(names, tip), cs).entries == LaneEntries(names, tip, |r.place|)
  {
    hide Follow, LaneEntries, EntryNames, Walk, Sorting.SortBy;
    LaneReaches(names, tip, cs);
    var place := Lane(names, tip).resolve(cs).place;
    if |place| < |names| {
      LaneNames(names, tip, |place|);
    } else {
      NothingListed(Lane(names, tip), place);
    }
    AtMostOne(names, tip, |place|);
    SortOne(LaneEntries(names, tip, |place|));
  }

  lemma AtMostOne(names: seq<FileName>, tip: Tip, i: nat)
    requires i <= |names|
    ensures |LaneEntries(names, tip, i)| <= 1 && (i == |names| ==> LaneEntries(names, tip, i) == [])
  {
  }

  lemma NothingListed(fs: Fs, place: seq<string>)
    ensures EntryNames(fs, place, []) == []
  {
  }

  // ----- Directories that can be entered and not listed -----

  /** Every way of at most `bound` of the names `known` leads to a directory that cannot be listed; `names`, to an empty
    * one that can. */
  datatype Maze = Maze(names: seq<FileName>, known: set<string>, bound: nat) {
    predicate Valid() {
      && names != [] && |names| <= bound
      && (forall name | name in names :: name in known)
      && (forall name | name in known :: '\0' !in name)
    }

    predicate Holds(place: seq<string>) {
      |place| <= bound && forall i | 0 <= i < |place| :: place[i] in known
    }

    function At(place: seq<string>): Node {
      if place == names then DirectoryNode([]) else if Holds(place) then SealedDirectory else SealedFile
    }

    function Resolve(cs: seq<Component>): Resolution
      decreases |cs|
    {
      if cs == [] then Inside([])
      else
        var c := cs[|cs| - 1];
        match Resolve(cs[..|cs| - 1])
        case Missing => Missing
        case Outside => if c.Normal? && '\0' in c.name then Missing else Outside
        case Inside(place) =>
          match c
          case Normal(name) => if place != names && Holds(place + [name]) then Inside(place + [name]) else Missing
          case ParentDir => if place == [] then Outside else Inside(place[..|place| - 1])
          case CurDir => Inside(place)
          case RootDir => Outside
    }

    function Project(): Fs {
      Fs(cs => Resolve(cs), place => At(place))
    }

    /** Reached places are directories, below directories that cannot be listed. */
    lemma {:induction false} Reached(cs: seq<Component>)
      requires Valid()
      ensures Resolve(cs).Inside? ==>
        var place := Resolve(cs).place;
        Holds(place) && forall i | 0 <= i < |place| :: place[..i] != names
      decreases |cs|
    {
      if cs != [] {
        var front, c := cs[..|cs| - 1], cs[|cs| - 1];
        Reached(front);
        var before := Resolve(front);
        if before.Inside? && c.Normal? && Resolve(cs).Inside? {
          var place := before.place + [c.name];
          forall i | 0 <= i < |place|
            ensures place[..i] != names
          {
            assert place[..i] == before.place[..i];
            assert before.place[..|before.place|] == before.place;
          }
        }
        if before.Inside? && c.ParentDir? && before.place != [] {
          var place := before.place[..|before.place| - 1];
          assert forall i | 0 <= i < |place| :: place[..i] == before.place[..i];
        }
      }
    }

    lemma {:induction false} ReachedStands(place: seq<string>)
      requires Valid() && Holds(place) && forall i | 0 <= i < |place| :: place[..i] != names
      ensures Stands(place => At(place), place)
      decreases |place|
    {
      if place != [] {
        var front := place[..|place| - 1];
        assert forall i | 0 <= i < |front| :: front[..i] == place[..i];
        ReachedStands(front);
      }
    }

    lemma {:induction false} NulIsMissing(cs: seq<Component>)
      requires Valid() && HoldsNul(cs)
      ensures Resolve(cs) == Missing
      decreases |cs|
    {
      var front, c := cs[..|cs| - 1], cs[|cs| - 1];
      var i :| 0 <= i < |cs| && cs[i].Normal? && '\0' in cs[i].name;
      if i < |front| {
        assert front[i] == cs[i];
        NulIsMissing(front);
      } else if Resolve(front).Inside? {
        assert (Resolve(front).place + [c.name])[|Resolve(front).place|] == c.name;
      }
    }

    lemma IsWellFormed()
      requires Valid()
      ensures WellFormed(Project())
    {
      hide HoldsNul, Stands;
      var fs := Project();
      forall cs, c
        ensures Follows(fs, cs, c)
      {
        Reached(cs);
        assert (cs + [c])[..|cs|] == cs;
      }
      forall cs
        ensures fs.resolve(cs).Inside? ==> Stands(fs.at, fs.resolve(cs).place)
        ensures HoldsNul(cs) ==> fs.resolve(cs) == Missing
      {
        Reached(cs);
        if Resolve(cs).Inside? {
          ReachedStands(Resolve(cs).place);
        }
        if HoldsNul(cs) {
          NulIsMissing(cs);
        }
      }
    }

    /** A path of known names without a backslash leads as far as its text says, if `names` has a backslash to be kept
      * apart by. */
    lemma {:induction false} FollowsText(cs: seq<Component>)
      requires Valid() && |cs| <= bound && IsClean(cs) && !IsClean(Form(0, names))
      requires forall i | 0 <= i < |cs| && cs[i].Normal? :: cs[i].name in known
      ensures var r := Resolve(cs);
        if RootDir in cs || Lowest(cs) < 0 then r.Outside?
        else r.Inside? && |r.place| == Height(cs) && |r.place| <= |cs|
             && forall i | 0 <= i < |r.place| :: r.place[i] in known && '\\' !in r.place[i]
      decreases |cs|
    {
      if cs != [] {
        var front, c := cs[..|cs| - 1], cs[|cs| - 1];
        assert cs == front + [c];
        FollowsText(front);
        var before := Resolve(front);
        if before.Inside? && c.Normal? {
          NotTheNames(before.place);
        }
      }
    }

    lemma NotTheNames(place: seq<string>)
      requires !IsClean(Form(0, names))
      requires forall i | 0 <= i < |place| :: '\\' !in place[i]
      ensures place != names
    {
      var i :| 0 <= i < |Form(0, names)| && Form(0, names)[i].Normal? && '\\' in Form(0, names)[i].name;
      assert '\\' in names[i];
    }

    lemma ResolveName(cs: seq<Component>, name: string)
      ensures Resolve(cs + [Normal(name)]) == match Resolve(cs)
        case Missing => Missing
        case Outside => if '\0' in name then Missing else Outside
        case Inside(place) => if place != names && Holds(place + [name]) then Inside(place + [name]) else Missing
    {
      assert (cs + [Normal(name)])[..|cs|] == cs;
    }

    lemma HoldsFront(i: nat)
      requires Valid() && i <= |names|
      ensures Holds(names[..i])
    {
      forall k | 0 <= k < i
        ensures names[..i][k] in known
      {
        assert names[..i][k] == names[k] && names[k] in names;
      }
    }

    /** And the listable directory is where it should be. */
    lemma {:induction false} LeadsDown(i: nat)
      requires Valid() && i <= |names|
      ensures Resolve(Form(0, names[..i])) == Inside(names[..i])
    {
      if i == 0 {
        assert names[..0] == [] && Form(0, []) == [];
        assert Resolve([]) == Inside([]);
      } else {
        hide Form, Resolve, Holds;
        LeadsDown(i - 1);
        var front: seq<string> := names[..i - 1];
        FormPush(0, front, names[i - 1]);
        assert front + [names[i - 1]] == names[..i];
        ResolveName(Form(0, front), names[i - 1]);
        HoldsFront(i);
        assert front != names;
      }
    }
  }
}
