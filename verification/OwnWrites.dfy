/** When what lanekeep writes into its own directory shows in a listing. */
module OwnWrites {
  import opened Wrappers
  import opened Paths
  import opened Files
  import opened Projects
  import opened Listings

  /**
    A project before lanekeep wrote into its directory and after: nothing else has changed, what
    the directory held before is still there, and every path leads where it led, except that one
    which led nowhere may lead somewhere by way of what was written.
  */
  ghost predicate WritesOwn(a: Fs, b: Fs) {
    && SameRoot(a.at([]), b.at([]))
    && (forall place | place != [] && !IsOwn(place) :: a.at(place) == b.at(place))
    && (forall place | IsOwn(place) && Stands(a.at, place) :: IsDirectory(a.at(place)) == IsDirectory(b.at(place)))
    && (forall names | !IsOwn(names) :: SameOrNew(a, b, names))
  }

  ghost predicate SameOrNew(a: Fs, b: Fs, names: seq<string>) {
    var r, s := a.resolve(Form(0, names)), b.resolve(Form(0, names));
    r == s || r.Missing?
  }

  // ----- The ways that can tell -----

  /** It leads neither out of the root nor to a directory. */
  predicate IsQuiet(fs: Fs, r: Resolution) {
    r.Missing? || (r.Inside? && !IsDirectory(fs.at(r.place)))
  }

  /** It leads neither out of the root nor to a directory that can be listed. */
  predicate IsDeadEnd(fs: Fs, r: Resolution) {
    r.Missing? || (r.Inside? && (IsOwn(r.place) || !fs.at(r.place).DirectoryNode?))
  }

  /** A link that a listing shows, if it led nowhere, still leads to no directory. */
  ghost predicate LinkStaysQuiet(a: Fs, b: Fs, names: seq<string>, child: Child)
    requires IsListable(a, names)
  {
    var place := a.resolve(Form(0, names)).place;
    var target := Form(0, place + [child.name]);
    child in a.at(place).children && IsShown(place, child) && child.kind.LinkKind? && a.resolve(target).Missing?
    ==> IsQuiet(b, b.resolve(target))
  }

  ghost predicate LinksStayQuiet(a: Fs, b: Fs) {
    forall names, child: Child | IsListable(a, names) :: LinkStaysQuiet(a, b, names, child)
  }

  /** No listing tells what is behind it: it leads out of the root, or to a directory that cannot be read. */
  predicate IsBlind(fs: Fs, names: seq<string>) {
    var r := fs.resolve(Form(0, names));
    r.Outside? || (r.Inside? && fs.at(r.place).SealedDirectory?)
  }

  /** Its last step leads into lanekeep's own directory or on from within it. */
  predicate EntersOwn(fs: Fs, names: seq<string>)
    requires names != []
  {
    var r := fs.resolve(Form(0, names[..|names| - 1]));
    r.Inside? && IsOwn(r.place + [names[|names| - 1]])
  }

  /** A path through such a place, if it led nowhere, still leads to nothing that is listed. */
  ghost predicate WayStaysDead(a: Fs, b: Fs, names: seq<string>) {
    && names != [] && !IsOwn(names) && (IsBlind(b, names[..|names| - 1]) || EntersOwn(b, names))
    && a.resolve(Form(0, names)).Missing?
    ==> IsDeadEnd(b, b.resolve(Form(0, names)))
  }

  ghost predicate BlindWaysStayDead(a: Fs, b: Fs) {
    forall names :: WayStaysDead(a, b, names)
  }

  // ----- Where paths lead -----

  lemma WritesOwnIsSameButOwn(a: Fs, b: Fs)
    requires WritesOwn(a, b)
    ensures SameButOwn(a, b)
  {
    hide Form, Shown, Stands;
    forall names | !IsOwn(names)
      ensures SameWayButOwn(a.resolve(Form(0, names)), b.resolve(Form(0, names)))
    {
      assert SameOrNew(a, b, names);
    }
  }

  lemma {:induction false} FindShown(children: seq<Child>, name: string)
    requires name != LANEKEEP_DIRECTORY
    ensures FindChild(Shown([], children), name) == FindChild(children, name)
  {
    if children != [] {
      FindShown(children[1..], name);
      if IsShown([], children[0]) {
        assert Shown([], children)[0] == children[0] && Shown([], children)[1..] == Shown([], children[1..]);
      }
    }
  }

  /** Outside lanekeep's directory both states have the same children to look a name up among. */
  lemma SameChild(a: Fs, b: Fs, place: seq<string>, name: string)
    requires WritesOwn(a, b) && !IsOwn(place + [name])
    ensures a.at(place).DirectoryNode? <==> b.at(place).DirectoryNode?
    ensures a.at(place).SealedDirectory? <==> b.at(place).SealedDirectory?
    ensures a.at(place).DirectoryNode? ==>
              FindChild(a.at(place).children, name) == FindChild(b.at(place).children, name)
  {
    hide Shown, Stands, Form;
    assert (place + [name])[0] == if place == [] then name else place[0];
    if place == [] && a.at([]).DirectoryNode? {
      FindShown(a.at([]).children, name);
      FindShown(b.at([]).children, name);
    }
  }

  ghost predicate SameOrDead(a: Fs, b: Fs, names: seq<string>) {
    var r, s := a.resolve(Form(0, names)), b.resolve(Form(0, names));
    r == s || (r.Missing? && IsDeadEnd(b, s))
  }

  /** Among the children of a listable directory only a link can lead where it did not. */
  lemma NextFromListed(a: Fs, b: Fs, front: seq<string>, place: seq<string>, last: string)
    requires WellFormed(a) && WellFormed(b) && WritesOwn(a, b) && LinksStayQuiet(a, b)
    requires !IsOwn(front) && !IsOwn(place + [last])
    requires a.resolve(Form(0, front)) == b.resolve(Form(0, front)) == Inside(place) && b.at(place).DirectoryNode?
    requires a.resolve(Form(0, front) + [Normal(last)]).Missing?
    ensures IsDeadEnd(b, b.resolve(Form(0, front) + [Normal(last)]))
  {
    hide Form, Stands, SoundDirectory, HoldsNul, WritesOwn;
    var cs := Form(0, front);
    assert (place + [last])[0] == if place == [] then last else place[0];
    SameChild(a, b, place, last);
    assert Follows(a, cs, Normal(last)) && Follows(b, cs, Normal(last));
    var child := FindChild(b.at(place).children, last);
    if child.Some? && child.value.kind.LinkKind? {
      assert IsListable(a, front);
      assert LinkStaysQuiet(a, b, front, child.value);
    }
  }

  lemma NextIsSameOrDead(a: Fs, b: Fs, front: seq<string>, last: string)
    requires WellFormed(a) && WellFormed(b) && WritesOwn(a, b) && LinksStayQuiet(a, b) && BlindWaysStayDead(a, b)
    requires !IsOwn(front) && !IsOwn(front + [last]) && SameOrDead(a, b, front)
    ensures SameOrDead(a, b, front + [last])
  {
    hide Form, Stands, SoundDirectory, HoldsNul, LinksStayQuiet, SameRoot;
    var names, cs := front + [last], Form(0, front);
    FormPush(0, front, last);
    assert SameOrNew(a, b, names);
    assert names[..|names| - 1] == front;
    if a.resolve(Form(0, names)).Missing? {
      var s := b.resolve(cs);
      if IsBlind(b, front) || EntersOwn(b, names) {
        assert WayStaysDead(a, b, names);
      } else if s.Inside? && b.at(s.place).DirectoryNode? {
        NextFromListed(a, b, front, s.place, last);
      } else {
        assert Follows(b, cs, Normal(last));
      }
    }
  }

  lemma {:induction false} QuietWays(a: Fs, b: Fs, names: seq<string>)
    requires WellFormed(a) && WellFormed(b) && WritesOwn(a, b) && LinksStayQuiet(a, b) && BlindWaysStayDead(a, b)
    requires !IsOwn(names)
    ensures SameOrDead(a, b, names)
  {
    hide WritesOwn, LinksStayQuiet, BlindWaysStayDead, WellFormed;
    if names == [] {
      RootIsSame(a, b);
    } else {
      hide Form;
      var front, last := names[..|names| - 1], names[|names| - 1];
      assert names == front + [last];
      QuietWays(a, b, front);
      NextIsSameOrDead(a, b, front, last);
    }
  }

  lemma RootIsSame(a: Fs, b: Fs)
    requires WellFormed(a) && WellFormed(b)
    ensures SameOrDead(a, b, [])
  {
    EmptyForm();
  }

  // ----- What the listings tell -----

  /** A place outside lanekeep's directory is a directory, and a listable one, in both states or in neither. */
  lemma SameNode(a: Fs, b: Fs, place: seq<string>)
    requires WritesOwn(a, b) && (IsOwn(place) ==> Stands(a.at, place))
    ensures IsDirectory(a.at(place)) == IsDirectory(b.at(place))
    ensures !IsOwn(place) ==> a.at(place).DirectoryNode? == b.at(place).DirectoryNode?
  {
    hide Shown, Stands, Form;
  }

  lemma QuietIsAlike(a: Fs, b: Fs, names: seq<string>)
    requires WellFormed(a) && WellFormed(b) && WritesOwn(a, b) && LinksStayQuiet(a, b) && BlindWaysStayDead(a, b)
    ensures WayAlike(a, b, names)
  {
    hide Form, WritesOwn, LinksStayQuiet, BlindWaysStayDead, SoundDirectory, HoldsNul, Follows, Stands;
    if !IsOwn(names) {
      QuietWays(a, b, names);
      var r := a.resolve(Form(0, names));
      if r.Inside? {
        SameNode(a, b, r.place);
      }
    }
  }

  lemma TargetIsShown(place: seq<string>, child: Child)
    requires !IsOwn(place) && IsShown(place, child)
    ensures !IsOwn(place + [child.name])
  {
    assert (place + [child.name])[0] == if place == [] then child.name else place[0];
  }

  lemma QuietLinkIsAlike(a: Fs, b: Fs, names: seq<string>, child: Child)
    requires WellFormed(a) && WritesOwn(a, b) && LinksStayQuiet(a, b) && IsListable(a, names)
    ensures LinkAlike(a, b, names, child)
  {
    hide Form, LinksStayQuiet, SoundDirectory, HoldsNul, Follows, Stands, SameRoot;
    var place := a.resolve(Form(0, names)).place;
    if child in a.at(place).children && IsShown(place, child) && child.kind.LinkKind? {
      TargetIsShown(place, child);
      var target := place + [child.name];
      assert SameOrNew(a, b, target);
      assert LinkStaysQuiet(a, b, names, child) by { EachStaysQuiet(a, b, names, child); }
      var r := a.resolve(Form(0, target));
      if r.Inside? {
        SameNode(a, b, r.place);
      }
    }
  }

  lemma EachStaysQuiet(a: Fs, b: Fs, names: seq<string>, child: Child)
    requires LinksStayQuiet(a, b) && IsListable(a, names)
    ensures LinkStaysQuiet(a, b, names, child)
  {
  }

  lemma AlikeLinkIsQuiet(a: Fs, b: Fs, names: seq<string>, child: Child)
    requires IsListable(a, names) && LinkAlike(a, b, names, child) && WaysAlike(a, b)
    ensures LinkStaysQuiet(a, b, names, child)
  {
    hide Form, IsListable;
    ListedIsElsewhere(a, names);
    var place := a.resolve(Form(0, names)).place;
    if IsShown(place, child) {
      TargetIsShown(place, child);
      assert WayAlike(a, b, place + [child.name]);
    }
  }

  lemma ListedIsElsewhere(fs: Fs, names: seq<string>)
    requires IsListable(fs, names)
    ensures fs.resolve(Form(0, names)).Inside? && !IsOwn(fs.resolve(Form(0, names)).place)
  {
  }

  /** What lanekeep writes into its own directory changes no listing, so that a warm run is told what the cold one
    * was, exactly when no link that is shown and led nowhere comes to lead out of the root or to a directory, and
    * no path that leads on from out of the root, from an unreadable directory or from lanekeep's own comes to lead
    * to what is listed. */
  lemma WritesAreInvisibleExactly(a: Fs, b: Fs)
    requires WellFormed(a) && WellFormed(b) && WritesOwn(a, b)
    ensures (forall names :: ListDirectory(a, Form(0, names)) == ListDirectory(b, Form(0, names)))
       <==> LinksStayQuiet(a, b) && BlindWaysStayDead(a, b)
  {
    hide Form, WellFormed, WritesOwn, ListDirectory, IsListable, LinkAlike, WayAlike, LinkStaysQuiet, WayStaysDead;
    WritesOwnIsSameButOwn(a, b);
    OwnDirectoryIsInvisibleExactly(a, b);
    if LinksStayQuiet(a, b) && BlindWaysStayDead(a, b) {
      forall names
        ensures WayAlike(a, b, names)
      {
        QuietIsAlike(a, b, names);
      }
      forall names, child: Child | IsListable(a, names)
        ensures LinkAlike(a, b, names, child)
      {
        QuietLinkIsAlike(a, b, names, child);
      }
    }
    if WaysAlike(a, b) && LinksAlike(a, b) {
      forall names, child: Child | IsListable(a, names)
        ensures LinkStaysQuiet(a, b, names, child)
      {
        AlikeLinkIsQuiet(a, b, names, child);
      }
      forall names
        ensures WayStaysDead(a, b, names)
      {
        AlikeWayIsDead(a, b, names);
      }
    }
  }

  lemma AlikeWayIsDead(a: Fs, b: Fs, names: seq<string>)
    requires WaysAlike(a, b)
    ensures WayStaysDead(a, b, names)
  {
    hide Form;
    assert WayAlike(a, b, names);
  }

  // ----- Where nothing but plain files is written -----

  /** A file, or a directory that can be read and holds no links. */
  predicate IsPlain(node: Node) {
    match node
    case DirectoryNode(children) => forall child | child in children :: !child.kind.LinkKind?
    case SealedDirectory => false
    case _ => true
  }

  ghost predicate OwnIsPlain(fs: Fs) {
    && (fs.at([]).DirectoryNode? ==>
          forall child | child in fs.at([]).children && child.name == LANEKEEP_DIRECTORY :: !child.kind.LinkKind?)
    && (forall place | IsOwn(place) && Stands(fs.at, place) :: IsPlain(fs.at(place)))
  }

  /** Into lanekeep's directory and within it no name leads out of it again. */
  lemma OwnStays(fs: Fs, cs: seq<Component>, place: seq<string>, name: string)
    requires WellFormed(fs) && OwnIsPlain(fs) && fs.resolve(cs) == Inside(place) && IsOwn(place + [name])
    requires !fs.at(place).SealedDirectory?
    ensures IsDeadEnd(fs, fs.resolve(cs + [Normal(name)]))
  {
    hide Form, SoundDirectory, HoldsNul, Stands;
    assert Follows(fs, cs, Normal(name));
    assert Stands(fs.at, place);
    assert (place + [name])[0] == if place == [] then name else place[0];
    if fs.at(place).DirectoryNode? {
      var child := FindChild(fs.at(place).children, name);
      if child.Some? {
        assert IsOwn(place) ==> IsPlain(fs.at(place));
        assert !child.value.kind.LinkKind?;
      }
    }
  }

  lemma PlainWayIsDead(a: Fs, b: Fs, names: seq<string>)
    requires WellFormed(b) && OwnIsPlain(b) && names != []
    requires IsBlind(b, names[..|names| - 1]) ==> a.resolve(Form(0, names)) == b.resolve(Form(0, names))
    ensures WayStaysDead(a, b, names)
  {
    hide Form, WellFormed, OwnIsPlain;
    var front, last := names[..|names| - 1], names[|names| - 1];
    FormPush(0, front, last);
    assert names == front + [last];
    if EntersOwn(b, names) && !IsBlind(b, front) {
      OwnStays(b, Form(0, front), b.resolve(Form(0, front)).place, last);
    }
  }

  /** So plain files and directories change none as long as every link that is shown leads where it led, and so
    * does every path that leads on from out of the root or from an unreadable directory. */
  lemma WritesAreInvisible(a: Fs, b: Fs, names: seq<string>)
    requires WellFormed(a) && WellFormed(b) && WritesOwn(a, b) && OwnIsPlain(b)
    requires forall front, child: Child | IsListable(a, front) :: LinkLeadsOn(a, b, front, child)
    requires forall way: seq<string> | way != [] && IsBlind(b, way[..|way| - 1]) ::
               a.resolve(Form(0, way)) == b.resolve(Form(0, way))
    ensures ListDirectory(a, Form(0, names)) == ListDirectory(b, Form(0, names))
  {
    hide Form, WellFormed, WritesOwn, ListDirectory, IsBlind, OwnIsPlain, EntersOwn;
    forall front, child: Child | IsListable(a, front)
      ensures LinkStaysQuiet(a, b, front, child)
    {
      assert LinkLeadsOn(a, b, front, child);
    }
    forall way: seq<string>
      ensures WayStaysDead(a, b, way)
    {
      if way != [] {
        PlainWayIsDead(a, b, way);
      }
    }
    WritesAreInvisibleExactly(a, b);
  }

  ghost predicate LinkLeadsOn(a: Fs, b: Fs, names: seq<string>, child: Child)
    requires IsListable(a, names)
  {
    var place := a.resolve(Form(0, names)).place;
    child in a.at(place).children && IsShown(place, child) && child.kind.LinkKind?
    ==> a.resolve(Form(0, place + [child.name])) == b.resolve(Form(0, place + [child.name]))
  }
}
