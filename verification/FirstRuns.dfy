/** Projects before lanekeep's first run and after it: that there are such pairs, and links that tell the one from
  * the other. */
module FirstRuns {
  import opened Wrappers
  import opened Paths
  import opened Files
  import opened Projects
  import opened Listings
  import opened OwnWrites

  type Layout = seq<string> -> Node

  const OWN: Child := Child(LANEKEEP_DIRECTORY, DirectoryKind)

  function NoLeads(): Leads {
    NothingBeyond(_ => Missing)
  }

  /** Any project that holds nothing of lanekeep's yet. */
  ghost predicate Before(at: Layout, leads: Leads) {
    SoundTree(at, leads) && forall child | child in at([]).children :: child.name != LANEKEEP_DIRECTORY
  }

  /** What lanekeep may write: directories and files, and no links. */
  ghost predicate Written(own: Layout) {
    && SoundTree(own, NoLeads())
    && forall place, child: Child | own(place).DirectoryNode? && child in own(place).children :: !child.kind.LinkKind?
  }

  function NodeAfter(at: Layout, own: Layout, place: seq<string>): Node {
    if place == [] then
      match at([])
      case DirectoryNode(children) => DirectoryNode(children + [OWN])
      case node => node
    else if IsOwn(place) then own(place[1..])
    else at(place)
  }

  function After(at: Layout, own: Layout): Layout {
    place => NodeAfter(at, own, place)
  }

  /** Links lead where they led, and paths beyond the root, except that what led nowhere may lead somewhere by way
    * of what was written. */
  ghost predicate LedOn(at: Layout, leads: Leads, own: Layout, now: Leads) {
    && (forall place :: now.of(place) == leads.of(place) || leads.of(place).Missing?)
    && (forall cs :: now.beyond(cs) == leads.beyond(cs) || leads.beyond(cs).Missing?)
    && (forall place :: now.of(place).Inside? ==> Stands(After(at, own), now.of(place).place))
    && (forall cs :: now.beyond(cs).Inside? ==> Stands(After(at, own), now.beyond(cs).place))
  }

  // ----- What stands before and after -----

  lemma {:induction false} StandsBefore(at: Layout, leads: Leads, place: seq<string>)
    requires Before(at, leads) && Stands(at, place)
    ensures !IsOwn(place)
    decreases |place|
  {
    if |place| > 1 {
      StandsBefore(at, leads, place[..|place| - 1]);
    } else if |place| == 1 {
      assert place[..0] == [];
    }
  }

  lemma FindMore(children: seq<Child>, name: string)
    ensures FindChild(children + [OWN], name) == match FindChild(children, name)
      case Some(child) => Some(child)
      case None => if name == LANEKEEP_DIRECTORY then Some(OWN) else None
    decreases children
  {
    if children == [] {
      assert [OWN][1..] == [] && [] + [OWN] == [OWN];
    } else {
      assert (children + [OWN])[1..] == children[1..] + [OWN];
      FindMore(children[1..], name);
    }
  }

  lemma {:induction false} StillStands(at: Layout, leads: Leads, own: Layout, place: seq<string>)
    requires Before(at, leads) && Stands(at, place)
    ensures Stands(After(at, own), place)
    decreases |place|
  {
    if place != [] {
      var front, last := place[..|place| - 1], place[|place| - 1];
      StillStands(at, leads, own, front);
      StandsBefore(at, leads, front);
      if front == [] {
        FindMore(at([]).children, last);
      }
    }
  }

  lemma RootsAreSound(at: Layout, leads: Leads, own: Layout)
    requires Before(at, leads) && Written(own)
    ensures at([]).DirectoryNode? && own([]).DirectoryNode? && SoundDirectory(at, [])
  {
    hide SoundDirectory;
    assert Stands(at, []);
  }

  /** Afterwards there is what was there, and what was written. */
  lemma {:induction false} StandsAfter(at: Layout, leads: Leads, own: Layout, place: seq<string>)
    requires Before(at, leads) && Written(own) && Stands(After(at, own), place)
    ensures if IsOwn(place) then Stands(own, place[1..]) else Stands(at, place)
    decreases |place|
  {
    hide SoundTree, SoundDirectory;
    RootsAreSound(at, leads, own);
    if place != [] {
      var front, last := place[..|place| - 1], place[|place| - 1];
      StandsAfter(at, leads, own, front);
      if front == [] {
        FindMore(at([]).children, last);
        assert place == [last];
      } else {
        assert front[0] == place[0];
        OneStepOn(at, own, place);
      }
    }
  }

  lemma OneStepOn(at: Layout, own: Layout, place: seq<string>)
    requires |place| > 1 && Stands(After(at, own), place)
    requires var front := place[..|place| - 1]; if IsOwn(front) then Stands(own, front[1..]) else Stands(at, front)
    ensures if IsOwn(place) then Stands(own, place[1..]) else Stands(at, place)
  {
    assert place[1..][..|place| - 2] == place[..|place| - 1][1..];
    assert place[1..][|place| - 2] == place[|place| - 1];
  }

  lemma AfterIsSound(at: Layout, leads: Leads, own: Layout, now: Leads)
    requires Before(at, leads) && Written(own) && LedOn(at, leads, own, now)
    ensures SoundTree(After(at, own), now)
  {
    hide Stands, SoundDirectory;
    forall place | Stands(After(at, own), place)
      ensures SoundDirectory(After(at, own), place)
    {
      StandsAfter(at, leads, own, place);
      if place == [] {
        RootAfter(at, leads, own);
      } else if IsOwn(place) {
        OwnAfter(at, own, place);
      } else {
        ElsewhereAfter(at, own, place);
      }
    }
  }

  lemma RootAfter(at: Layout, leads: Leads, own: Layout)
    requires Before(at, leads) && Written(own)
    ensures SoundDirectory(After(at, own), [])
  {
    hide SoundTree;
    RootsAreSound(at, leads, own);
    var children := at([]).children + [OWN];
    forall child | child in children && !child.kind.LinkKind?
      ensures IsDirectory(NodeAfter(at, own, [] + [child.name])) <==> child.kind.DirectoryKind?
    {
      assert ([] + [child.name])[0] == child.name;
      if child == OWN {
        assert ([] + [LANEKEEP_DIRECTORY])[1..] == [];
      } else {
        assert child in at([]).children;
      }
    }
  }

  lemma OwnAfter(at: Layout, own: Layout, place: seq<string>)
    requires IsOwn(place) && SoundDirectory(own, place[1..])
    ensures SoundDirectory(After(at, own), place)
  {
    forall name: string
      ensures After(at, own)(place + [name]) == own(place[1..] + [name])
    {
      assert (place + [name])[1..] == place[1..] + [name];
    }
  }

  lemma ElsewhereAfter(at: Layout, own: Layout, place: seq<string>)
    requires place != [] && !IsOwn(place) && SoundDirectory(at, place)
    ensures SoundDirectory(After(at, own), place)
  {
    forall name: string
      ensures After(at, own)(place + [name]) == at(place + [name])
    {
      assert (place + [name])[0] == place[0];
    }
  }

  // ----- Where paths lead before and after -----

  lemma FollowName(at: Layout, leads: Leads, front: seq<string>, last: string)
    ensures Follow(at, leads, Form(0, front + [last])) == match Follow(at, leads, Form(0, front))
      case Missing => Missing
      case Outside => if HoldsNul(Form(0, front + [last])) then Missing else leads.beyond(Form(0, front + [last]))
      case Inside(place) => FollowOne(at, leads, place, Normal(last))
  {
    hide Form, Follow, FollowOne, HoldsNul;
    FormPush(0, front, last);
    FollowSnoc(at, leads, Form(0, front), Normal(last));
  }

  /** One name on from a place that was there. */
  lemma NextName(at: Layout, leads: Leads, own: Layout, now: Leads, place: seq<string>, name: string)
    requires Before(at, leads) && LedOn(at, leads, own, now) && Stands(at, place)
    ensures var r := FollowOne(at, leads, place, Normal(name));
      var s := FollowOne(After(at, own), now, place, Normal(name));
      r == s || r.Missing?
  {
    hide Stands, SoundTree;
    StandsBefore(at, leads, place);
    if at(place).DirectoryNode? && place == [] {
      FindMore(at([]).children, name);
      assert ([] + [name])[0] == name;
    }
  }

  lemma {:induction false} WaysAfter(at: Layout, leads: Leads, own: Layout, now: Leads, names: seq<string>)
    requires Before(at, leads) && LedOn(at, leads, own, now)
    ensures SameOrNew(Tree(at, leads), Tree(After(at, own), now), names)
  {
    if names == [] {
      EmptyForm();
    } else {
      hide Form, Follow, FollowOne, Stands, HoldsNul;
      var front, last := names[..|names| - 1], names[|names| - 1];
      assert names == front + [last];
      WaysAfter(at, leads, own, now, front);
      FollowName(at, leads, front, last);
      FollowName(After(at, own), now, front, last);
      FollowStands(at, leads, Form(0, front));
      var r := Follow(at, leads, Form(0, front));
      if r.Inside? {
        NextName(at, leads, own, now, r.place, last);
      }
    }
  }

  lemma {:induction false} ShownWithOwn(children: seq<Child>)
    ensures Shown([], children + [OWN]) == Shown([], children)
  {
    if children == [] {
      assert [OWN][1..] == [] && [] + [OWN] == [OWN];
    } else {
      assert (children + [OWN])[1..] == children[1..] + [OWN];
      ShownWithOwn(children[1..]);
    }
  }

  /** Whatever is written into any project, the two states are well formed and differ as lanekeep's writing makes
    * them. */
  lemma TreesWriteOwn(at: Layout, leads: Leads, own: Layout, now: Leads)
    requires Before(at, leads) && Written(own) && LedOn(at, leads, own, now)
    ensures WellFormed(Tree(at, leads)) && WellFormed(Tree(After(at, own), now))
    ensures WritesOwn(Tree(at, leads), Tree(After(at, own), now)) && OwnIsPlain(Tree(After(at, own), now))
  {
    hide WellFormed, Form, Follow, SoundTree, LedOn, Written, SameOrNew, OwnIsPlain;
    TreeIsWellFormed(at, leads);
    AfterIsSound(at, leads, own, now);
    TreeIsWellFormed(After(at, own), now);
    forall names
      ensures SameOrNew(Tree(at, leads), Tree(After(at, own), now), names)
    {
      WaysAfter(at, leads, own, now, names);
    }
    forall place | Stands(at, place)
      ensures !IsOwn(place)
    {
      StandsBefore(at, leads, place);
    }
    assert at([]).DirectoryNode? && own([]).DirectoryNode? by { RootsAreSound(at, leads, own); }
    ShownWithOwn(at([]).children);
    AfterIsPlain(at, leads, own, now);
  }

  lemma AfterIsPlain(at: Layout, leads: Leads, own: Layout, now: Leads)
    requires Before(at, leads) && Written(own)
    ensures OwnIsPlain(Tree(After(at, own), now))
  {
    hide SoundDirectory;
  }

  // ----- Links that lead where they led -----

  lemma StillLed(at: Layout, leads: Leads, own: Layout)
    requires Before(at, leads)
    ensures LedOn(at, leads, own, leads)
  {
    hide Stands, SoundDirectory;
    forall r: Resolution | r.Inside? && Stands(at, r.place)
      ensures Stands(After(at, own), r.place)
    {
      StillStands(at, leads, own, r.place);
    }
  }

  ghost predicate SameOrOwn(at: Layout, leads: Leads, own: Layout, names: seq<string>) {
    var r, s := Follow(at, leads, Form(0, names)), Follow(After(at, own), leads, Form(0, names));
    r == s || (r.Missing? && MayBeOwn(s))
  }

  lemma NextSame(at: Layout, leads: Leads, own: Layout, place: seq<string>, name: string)
    requires Before(at, leads) && Stands(at, place)
    ensures var r := FollowOne(at, leads, place, Normal(name));
      var s := FollowOne(After(at, own), leads, place, Normal(name));
      r == s || (r.Missing? && MayBeOwn(s))
  {
    hide Stands, SoundTree;
    StandsBefore(at, leads, place);
    if at(place).DirectoryNode? && place == [] {
      FindMore(at([]).children, name);
      assert ([] + [name])[0] == name;
    }
  }

  lemma NextInOwn(at: Layout, leads: Leads, own: Layout, place: seq<string>, name: string)
    requires Written(own) && IsOwn(place)
    ensures MayBeOwn(FollowOne(After(at, own), leads, place, Normal(name)))
  {
    hide SoundTree;
    assert (place + [name])[0] == place[0];
  }

  lemma {:induction false} WaysStay(at: Layout, leads: Leads, own: Layout, names: seq<string>)
    requires Before(at, leads) && Written(own)
    ensures SameOrOwn(at, leads, own, names)
  {
    if names == [] {
      EmptyForm();
    } else {
      hide Form, Follow, FollowOne, Stands, HoldsNul, Written;
      var front, last := names[..|names| - 1], names[|names| - 1];
      assert names == front + [last];
      WaysStay(at, leads, own, front);
      FollowName(at, leads, front, last);
      FollowName(After(at, own), leads, front, last);
      FollowStands(at, leads, Form(0, front));
      var r, s := Follow(at, leads, Form(0, front)), Follow(After(at, own), leads, Form(0, front));
      if r.Inside? {
        NextSame(at, leads, own, r.place, last);
      } else if s.Inside? {
        NextInOwn(at, leads, own, s.place, last);
      }
    }
  }

  lemma BlindWaysStay(at: Layout, leads: Leads, own: Layout, way: seq<string>)
    requires Before(at, leads) && Written(own)
    requires way != [] && IsBlind(Tree(After(at, own), leads), way[..|way| - 1])
    ensures Tree(at, leads).resolve(Form(0, way)) == Tree(After(at, own), leads).resolve(Form(0, way))
  {
    hide Form, Follow, FollowOne, Stands, SoundDirectory, HoldsNul;
    var front, last := way[..|way| - 1], way[|way| - 1];
    assert way == front + [last];
    WaysStay(at, leads, own, front);
    FollowName(at, leads, front, last);
    FollowName(After(at, own), leads, front, last);
    var s := Follow(After(at, own), leads, Form(0, front));
    if s.Inside? {
      NoneSealed(at, leads, own, s.place);
    }
  }

  lemma NoneSealed(at: Layout, leads: Leads, own: Layout, place: seq<string>)
    requires Before(at, leads) && Written(own)
    ensures !After(at, own)(place).SealedDirectory?
  {
    hide Stands, SoundDirectory;
  }

  /** A link that stands in a directory leads where it is said to. */
  lemma LinkLeads(at: Layout, leads: Leads, place: seq<string>, child: Child)
    requires SoundTree(at, leads) && Stands(at, place) && at(place).DirectoryNode?
    requires child in at(place).children && child.kind.LinkKind?
    ensures Tree(at, leads).resolve(Form(0, place)) == Inside(place)
    ensures Tree(at, leads).resolve(Form(0, place + [child.name])) == leads.of(place + [child.name])
  {
    hide Form, Follow, Stands;
    StandsFollows(at, leads, place);
    FollowName(at, leads, place, child.name);
    assert SoundDirectory(at, place);
    var found := FindChild(at(place).children, child.name);
    assert found == Some(child);
  }

  lemma ChildAfter(at: Layout, leads: Leads, own: Layout, place: seq<string>, child: Child)
    requires Before(at, leads) && Stands(at, place) && at(place).DirectoryNode? && child in at(place).children
    ensures Stands(After(at, own), place) && After(at, own)(place).DirectoryNode?
    ensures child in After(at, own)(place).children
  {
    hide SoundTree, Stands;
    StillStands(at, leads, own, place);
    StandsBefore(at, leads, place);
  }

  /** What a link that stood before leads to, before and after. */
  lemma LinksAfter(at: Layout, leads: Leads, own: Layout, now: Leads, place: seq<string>, child: Child)
    requires Before(at, leads) && Written(own) && LedOn(at, leads, own, now)
    requires Stands(at, place) && at(place).DirectoryNode? && child in at(place).children && child.kind.LinkKind?
    ensures var a, b, target := Tree(at, leads), Tree(After(at, own), now), Form(0, place + [child.name]);
      && a.resolve(Form(0, place)) == b.resolve(Form(0, place)) == Inside(place)
      && a.resolve(target) == leads.of(place + [child.name]) && b.resolve(target) == now.of(place + [child.name])
  {
    hide Form, Follow, Stands, LedOn;
    LinkLeads(at, leads, place, child);
    ChildAfter(at, leads, own, place, child);
    AfterIsSound(at, leads, own, now);
    LinkLeads(After(at, own), now, place, child);
  }

  lemma ShownLinkStays(at: Layout, leads: Leads, own: Layout, front: seq<string>, child: Child)
    requires Before(at, leads) && Written(own) && IsListable(Tree(at, leads), front)
    ensures LinkLeadsOn(Tree(at, leads), Tree(After(at, own), leads), front, child)
  {
    hide Form, Follow, Stands, Before, Written, LedOn;
    assert SoundTree(at, leads) by { BeforeIsSound(at, leads); }
    FollowStands(at, leads, Form(0, front));
    var place := Follow(at, leads, Form(0, front)).place;
    if child in at(place).children && child.kind.LinkKind? {
      StillLed(at, leads, own);
      LinksAfter(at, leads, own, leads, place, child);
    }
  }

  lemma BeforeIsSound(at: Layout, leads: Leads)
    requires Before(at, leads)
    ensures SoundTree(at, leads)
  {
  }

  /** Written into any project, lanekeep's directory is there to be found, and no listing shows it; as long as
    * links and the paths beyond the root lead where they led. */
  lemma FirstRunIsInvisible(at: Layout, leads: Leads, own: Layout, names: seq<string>)
    requires Before(at, leads) && Written(own)
    ensures WellFormed(Tree(at, leads)) && WellFormed(Tree(After(at, own), leads))
    ensures Tree(After(at, own), leads).resolve(Form(0, [LANEKEEP_DIRECTORY])) == Inside([LANEKEEP_DIRECTORY])
    ensures ListDirectory(Tree(at, leads), Form(0, names)) == ListDirectory(Tree(After(at, own), leads), Form(0, names))
  {
    hide Before, Written, LedOn, WellFormed, WritesOwn, OwnIsPlain, ListDirectory, Form, Follow, IsListable, IsBlind,
      LinkLeadsOn;
    var a, b := Tree(at, leads), Tree(After(at, own), leads);
    StillLed(at, leads, own);
    TreesWriteOwn(at, leads, own, leads);
    forall front, child: Child | IsListable(a, front)
      ensures LinkLeadsOn(a, b, front, child)
    {
      ShownLinkStays(at, leads, own, front, child);
    }
    forall way: seq<string> | way != [] && IsBlind(b, way[..|way| - 1])
      ensures a.resolve(Form(0, way)) == b.resolve(Form(0, way))
    {
      BlindWaysStay(at, leads, own, way);
    }
    WritesAreInvisible(a, b, names);
    OwnIsThere(at, leads, own);
  }

  lemma OwnIsThere(at: Layout, leads: Leads, own: Layout)
    requires Before(at, leads)
    ensures Tree(After(at, own), leads).resolve(Form(0, [LANEKEEP_DIRECTORY])) == Inside([LANEKEEP_DIRECTORY])
  {
    hide Form;
    EmptyForm();
    FollowName(After(at, own), leads, [], LANEKEEP_DIRECTORY);
    assert [] + [LANEKEEP_DIRECTORY] == [LANEKEEP_DIRECTORY];
    FindMore(at([]).children, LANEKEEP_DIRECTORY);
  }

  // ----- Links that tell -----

  /** A root that holds `children`, of which `src` is an empty directory if it is one. */
  function Small(children: seq<Child>): Layout {
    place =>
      if place == [] then DirectoryNode(children)
      else if place == ["src"] then DirectoryNode([])
      else FileNode([])
  }

  /** A directory without anything in it. */
  function Bare(): Layout {
    place => if place == [] then DirectoryNode([]) else FileNode([])
  }

  lemma BareIsWritten()
    ensures Written(Bare())
  {
  }

  lemma SmallIsSound(children: seq<Child>, leads: Leads)
    requires forall i, j | 0 <= i < j < |children| :: children[i].name != children[j].name
    requires forall child | child in children :: child.name != LANEKEEP_DIRECTORY
    requires forall child | child in children && !child.kind.LinkKind? :: child == Child("src", DirectoryKind)
    requires forall place :: !leads.of(place).Inside?
    requires forall cs :: !leads.beyond(cs).Inside?
    ensures Before(Small(children), leads)
  {
    var at := Small(children);
    forall place | Stands(at, place)
      ensures SoundDirectory(at, place)
    {
      assert [] + ["src"] == ["src"];
    }
  }

  lemma OwnStands(at: Layout, leads: Leads, own: Layout)
    requires Before(at, leads)
    ensures Stands(After(at, own), [LANEKEEP_DIRECTORY])
  {
    assert [LANEKEEP_DIRECTORY][..0] == [];
    FindMore(at([]).children, LANEKEEP_DIRECTORY);
  }

  /** Where a link leads by way of lanekeep's directory, once that is there. */
  function LedTo(link: FileName, target: seq<string>): Leads {
    NothingBeyond(place => if place == [link] then Inside(target) else Missing)
  }

  lemma IntoIsBefore(link: FileName)
    requires link != LANEKEEP_DIRECTORY
    ensures var child := Child(link, LinkKind);
      var at, now := Small([child]), LedTo(link, [LANEKEEP_DIRECTORY]);
      && Before(at, NoLeads()) && Written(Bare()) && LedOn(at, NoLeads(), Bare(), now)
      && Stands(at, []) && at([]) == DirectoryNode([child])
      && now.of([link]) == Inside([LANEKEEP_DIRECTORY])
      && After(at, Bare())([LANEKEEP_DIRECTORY]) == DirectoryNode([])
  {
    hide SoundTree;
    SmallIsSound([Child(link, LinkKind)], NoLeads());
    BareIsWritten();
    OwnStands(Small([Child(link, LinkKind)]), NoLeads(), Bare());
    assert [LANEKEEP_DIRECTORY][1..] == [];
  }

  /** A link into the directory is marked as one once its target is written. */
  lemma LinkIntoOwnIsVisible(link: FileName)
    requires link != LANEKEEP_DIRECTORY
    ensures var at := Small([Child(link, LinkKind)]);
      var a, b := Tree(at, NoLeads()), Tree(After(at, Bare()), LedTo(link, [LANEKEEP_DIRECTORY]));
      && WellFormed(a) && WellFormed(b) && WritesOwn(a, b)
      && ListDirectory(a, Form(0, [])) != ListDirectory(b, Form(0, []))
  {
    hide WellFormed, WritesOwn, ListDirectory, Form, Follow, OwnIsPlain, Before, Written, LedOn, SameButOwn, Stands,
      After, Small, LedTo;
    var child := Child(link, LinkKind);
    var at, now := Small([child]), LedTo(link, [LANEKEEP_DIRECTORY]);
    IntoIsBefore(link);
    assert [] + [link] == [link];
    var a, b := Tree(at, NoLeads()), Tree(After(at, Bare()), now);
    TreesWriteOwn(at, NoLeads(), Bare(), now);
    WritesOwnIsSameButOwn(a, b);
    LinksAfter(at, NoLeads(), Bare(), now, [], child);
    if ListDirectory(a, Form(0, [])) == ListDirectory(b, Form(0, [])) {
      SameListingGivesSameMark(a, b, [], child);
    }
  }

  /** A root that holds `src` and a link named `link`. */
  function Through(link: FileName): Layout {
    Small([Child("src", DirectoryKind), Child(link, LinkKind)])
  }

  lemma ThroughIsBefore(link: FileName, leads: Leads)
    requires link != LANEKEEP_DIRECTORY && link != "src"
    requires forall place :: !leads.of(place).Inside?
    requires forall cs :: !leads.beyond(cs).Inside?
    ensures Before(Through(link), leads) && Written(Bare()) && Stands(After(Through(link), Bare()), ["src"])
  {
    hide SoundTree;
    SmallIsSound([Child("src", DirectoryKind), Child(link, LinkKind)], leads);
    BareIsWritten();
    assert ["src"][..0] == [];
    assert Stands(Through(link), ["src"]);
    StillStands(Through(link), leads, Bare(), ["src"]);
  }

  lemma SrcIsBare(link: FileName)
    ensures After(Through(link), Bare())(["src"]) == DirectoryNode([])
  {
  }

  /** What leads nowhere before and to `src` after is listed then, and not before. */
  lemma SrcIsListed(a: Fs, b: Fs, names: seq<string>)
    requires names != [] && !IsOwn(names) && a.resolve(Form(0, names)) == Missing
    requires b.resolve(Form(0, names)) == Inside(["src"]) && b.at(["src"]) == DirectoryNode([])
    ensures ListDirectory(a, Form(0, names)) == Listing.Unlisted
        && ListDirectory(b, Form(0, names)) == Listing.Listed([])
  {
    hide Form, ListDirectory;
    ListingIs(a, names);
    ListingIs(b, names);
    NothingListed(b, ["src"]);
    SortOne([]);
  }

  /** A link `.lanekeep/../src`, which leads through the directory and out of it again, comes to be listed itself. */
  lemma LinkThroughOwnIsVisible(link: FileName)
    requires link != LANEKEEP_DIRECTORY && link != "src"
    ensures var a, b := Tree(Through(link), NoLeads()), Tree(After(Through(link), Bare()), LedTo(link, ["src"]));
      && WellFormed(a) && WellFormed(b) && WritesOwn(a, b) && OwnIsPlain(b)
      && ListDirectory(a, Form(0, [link])) == Listing.Unlisted
        && ListDirectory(b, Form(0, [link])) == Listing.Listed([])
  {
    hide WellFormed, WritesOwn, OwnIsPlain, ListDirectory, Form, Follow, Before, Written, After;
    var at, now := Through(link), LedTo(link, ["src"]);
    ThroughIsBefore(link, NoLeads());
    TreesWriteOwn(at, NoLeads(), Bare(), now);
    assert [] + [link] == [link];
    LinksAfter(at, NoLeads(), Bare(), now, [], Child(link, LinkKind));
    SrcIsBare(link);
    SrcIsListed(Tree(at, NoLeads()), Tree(After(at, Bare()), now), [link]);
  }

  /** The link `link` leads out of the root, to a directory with a link `back` of its own. */
  function LedOut(link: FileName, back: Resolution): Leads {
    Leads(place => if place == [link] then Outside else Missing,
          cs => if cs == Form(0, [link, "back"]) then back else Missing)
  }

  /** So does a link `<root>/.lanekeep/../src` that stands outside the root, though every link within it leads where it
    * led. */
  lemma LinkFromOutsideIsVisible(link: FileName)
    requires link != LANEKEEP_DIRECTORY && link != "src"
    ensures var at, before, now := Through(link), LedOut(link, Missing), LedOut(link, Inside(["src"]));
      var a, b, names := Tree(at, before), Tree(After(at, Bare()), now), [link, "back"];
      && now.of == before.of && WellFormed(a) && WellFormed(b) && WritesOwn(a, b) && OwnIsPlain(b)
      && ListDirectory(a, Form(0, names)) == Listing.Unlisted && ListDirectory(b, Form(0, names)) == Listing.Listed([])
  {
    hide WellFormed, WritesOwn, OwnIsPlain, ListDirectory, Form, Follow, Before, Written, After, HoldsNul;
    var at, before, now := Through(link), LedOut(link, Missing), LedOut(link, Inside(["src"]));
    ThroughIsBefore(link, before);
    TreesWriteOwn(at, before, Bare(), now);
    assert [] + [link] == [link] && [link] + ["back"] == [link, "back"];
    LinksAfter(at, before, Bare(), now, [], Child(link, LinkKind));
    FollowName(at, before, [link], "back");
    FollowName(After(at, Bare()), now, [link], "back");
    NoNul(link);
    SrcIsBare(link);
    SrcIsListed(Tree(at, before), Tree(After(at, Bare()), now), [link, "back"]);
  }

  lemma NoNul(link: FileName)
    ensures !HoldsNul(Form(0, [link, "back"]))
  {
  }
}
