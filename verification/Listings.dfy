/** What a listing holds, and what it never shows. */
module Listings {
  import opened Wrappers
  import opened Sorting
  import opened Paths
  import opened Files
  import opened Projects

  // ----- What a listing holds -----

  function EntryName(fs: Fs, place: seq<string>, child: Child): string {
    if IsDirectoryIn(fs, place, child) then child.name + "/" else child.name
  }

  /** A child a listing of `place` shows. */
  predicate IsShown(place: seq<string>, child: Child) {
    place != [] || child.name != LANEKEEP_DIRECTORY
  }

  function Shown(place: seq<string>, children: seq<Child>): (r: seq<Child>)
    ensures forall child :: child in r <==> child in children && IsShown(place, child)
  {
    if children == [] then []
    else if IsShown(place, children[0]) then [children[0]] + Shown(place, children[1..])
    else Shown(place, children[1..])
  }

  function Marked(fs: Fs, place: seq<string>, children: seq<Child>): (r: seq<string>)
    ensures |r| == |children|
    ensures forall i | 0 <= i < |r| :: r[i] == EntryName(fs, place, children[i])
  {
    seq(|children|, i requires 0 <= i < |children| => EntryName(fs, place, children[i]))
  }

  lemma MarkedCons(fs: Fs, place: seq<string>, child: Child, rest: seq<Child>)
    ensures Marked(fs, place, [child] + rest) == [EntryName(fs, place, child)] + Marked(fs, place, rest)
  {
    hide EntryName;
  }

  lemma {:induction false} EntryNamesAreMarked(fs: Fs, place: seq<string>, children: seq<Child>)
    ensures EntryNames(fs, place, children) == Marked(fs, place, Shown(place, children))
  {
    hide IsDirectoryIn, Marked;
    if children == [] {
      assert Marked(fs, place, []) == [];
    } else {
      EntryNamesAreMarked(fs, place, children[1..]);
      if IsShown(place, children[0]) {
        MarkedCons(fs, place, children[0], Shown(place, children[1..]));
      }
    }
  }

  /** A listing holds the name of each shown child once, marked if it is a directory, in byte order. */
  lemma ListingMeans(fs: Fs, relative: seq<Component>)
    requires ListDirectory(fs, relative).Listed?
    ensures fs.resolve(relative).Inside? && fs.at(fs.resolve(relative).place).DirectoryNode?
    ensures var place, entries := fs.resolve(relative).place, ListDirectory(fs, relative).entries;
      && multiset(entries) == multiset(Marked(fs, place, Shown(place, fs.at(place).children)))
      && SortedBy(entries, TextLe)
  {
    hide EntryNames, TextLe, SortBy, IsDirectoryIn;
    var place := fs.resolve(relative).place;
    TextLeIsTotalOrder();
    SortBySorted(EntryNames(fs, place, fs.at(place).children), TextLe);
    EntryNamesAreMarked(fs, place, fs.at(place).children);
  }

  // ----- The same, told by the filesystem alone -----

  /** A directory itself, or a link to one within the root, whether or not that can be opened. */
  predicate LeadsToDirectory(fs: Fs, place: seq<string>, child: Child) {
    || child.kind == DirectoryKind
    || (child.kind == LinkKind
        && var r := fs.resolve(Form(0, place + [child.name]));
           r.Inside? && !fs.at(r.place).FileNode? && !fs.at(r.place).SealedFile?)
  }

  /** The child is listed as `name`; lanekeep's own directory, at the root, as nothing. */
  predicate IsCalled(fs: Fs, place: seq<string>, child: Child, name: string) {
    && !(place == [] && child.name == ".lanekeep")
    && name == if LeadsToDirectory(fs, place, child) then child.name + "/" else child.name
  }

  function CalledSo(fs: Fs, place: seq<string>, children: seq<Child>, name: string): nat {
    if children == [] then 0
    else (if IsCalled(fs, place, children[0], name) then 1 else 0) + CalledSo(fs, place, children[1..], name)
  }

  /** Each name as often as a child is listed as it, in the order of their bytes. */
  ghost predicate IsListingOf(fs: Fs, place: seq<string>, children: seq<Child>, entries: seq<string>) {
    && (forall name :: multiset(entries)[name] == CalledSo(fs, place, children, name))
    && (forall i, j | 0 <= i < j < |entries| :: !CompareText(entries[i], entries[j]).Greater?)
  }

  lemma {:induction false} NamesAreCounted(fs: Fs, place: seq<string>, children: seq<Child>, name: string)
    ensures multiset(EntryNames(fs, place, children))[name] == CalledSo(fs, place, children, name)
  {
    hide LeadsToDirectory, IsDirectoryIn;
    if children != [] {
      var rest := EntryNames(fs, place, children[1..]);
      NamesAreCounted(fs, place, children[1..], name);
      assert LeadsToDirectory(fs, place, children[0]) == IsDirectoryIn(fs, place, children[0]) by {
        SameDirectories(fs, place, children[0]);
      }
      if !(place == [] && children[0].name == LANEKEEP_DIRECTORY) {
        assert EntryNames(fs, place, children) == [EntryName(fs, place, children[0])] + rest;
      }
    }
  }

  lemma SameDirectories(fs: Fs, place: seq<string>, child: Child)
    ensures LeadsToDirectory(fs, place, child) == IsDirectoryIn(fs, place, child)
  {
  }

  /** The one listing of a directory. */
  lemma SortedNamesAreTheListing(fs: Fs, place: seq<string>, children: seq<Child>, entries: seq<string>)
    ensures entries == SortBy(EntryNames(fs, place, children), TextLe) <==> IsListingOf(fs, place, children, entries)
  {
    hide EntryNames, CalledSo, SortBy, CompareText;
    var names := EntryNames(fs, place, children);
    var sorted := SortBy(names, TextLe);
    TextLeIsTotalOrder();
    SortBySorted(names, TextLe);
    forall name
      ensures multiset(sorted)[name] == CalledSo(fs, place, children, name)
    {
      NamesAreCounted(fs, place, children, name);
    }
    if IsListingOf(fs, place, children, entries) {
      assert forall name :: multiset(entries)[name] == multiset(sorted)[name];
      assert multiset(entries) == multiset(sorted);
      assert SortedBy(entries, TextLe);
      SortedIsUnique(entries, sorted, TextLe);
    }
  }

  /** Asking for a listing is refused exactly when the way leads out of the root, is answered by the children's names
    * when it leads to a directory that can be opened, and by nothing otherwise; and by nothing, too, within lanekeep's
    * own directory, however it is reached. */
  ghost predicate ListTells(fs: Fs, n: seq<Component>, path: string, r: Result<Option<seq<string>>, ReadError>) {
    var own := n != [] && n[0] == Normal(".lanekeep");
    var way := fs.resolve(n);
    var shown := !own && way.Inside? && !([".lanekeep"] <= way.place) && fs.at(way.place).DirectoryNode?;
    && (r == Err(EscapesRoot(path)) <==> !own && way.Outside?)
    && (r == Ok(None) <==> own || (!way.Outside? && !shown))
    && (forall entries ::
          r == Ok(Some(entries)) <==> shown && IsListingOf(fs, way.place, fs.at(way.place).children, entries))
  }

  lemma ListingTells(fs: Fs, n: seq<Component>, path: string)
    ensures ListTells(fs, n, path, EntriesOf(path, ListDirectory(fs, n)))
  {
    hide SortBy, EntryNames, TextLe, IsListingOf;
    var way := fs.resolve(n);
    if way.Inside? {
      assert [".lanekeep"] <= way.place <==> way.place != [] && way.place[0] == LANEKEEP_DIRECTORY;
      if fs.at(way.place).DirectoryNode? {
        forall entries
          ensures entries == SortBy(EntryNames(fs, way.place, fs.at(way.place).children), TextLe)
             <==> IsListingOf(fs, way.place, fs.at(way.place).children, entries)
        {
          SortedNamesAreTheListing(fs, way.place, fs.at(way.place).children, entries);
        }
      }
    }
  }

  // ----- The order entries are given in -----

  lemma {:induction false} EntryNamesConcat(fs: Fs, place: seq<string>, a: seq<Child>, b: seq<Child>)
    ensures EntryNames(fs, place, a + b) == EntryNames(fs, place, a) + EntryNames(fs, place, b)
  {
    hide IsDirectoryIn;
    if a == [] {
      assert a + b == b;
    } else {
      assert (a + b)[1..] == a[1..] + b;
      EntryNamesConcat(fs, place, a[1..], b);
    }
  }

  lemma EntryNamesWithout(fs: Fs, place: seq<string>, s: seq<Child>, j: nat)
    requires j < |s|
    ensures multiset(EntryNames(fs, place, s))
         == multiset(EntryNames(fs, place, Without(s, j))) + multiset(EntryNames(fs, place, [s[j]]))
  {
    hide EntryNames;
    assert s == s[..j] + ([s[j]] + s[j + 1..]);
    EntryNamesConcat(fs, place, s[..j], [s[j]] + s[j + 1..]);
    EntryNamesConcat(fs, place, [s[j]], s[j + 1..]);
    EntryNamesConcat(fs, place, s[..j], s[j + 1..]);
  }

  lemma {:induction false} EntryNamesPermute(fs: Fs, place: seq<string>, a: seq<Child>, b: seq<Child>)
    requires multiset(a) == multiset(b)
    ensures multiset(EntryNames(fs, place, a)) == multiset(EntryNames(fs, place, b))
    decreases |a|
  {
    hide Without, EntryNames;
    if a == [] {
      assert |multiset(b)| == 0;
    } else {
      assert a[0] in multiset(b);
      var j :| 0 <= j < |b| && b[j] == a[0];
      RemoveOne(a, 0);
      RemoveOne(b, j);
      assert multiset(Without(a, 0)) == multiset(a) - multiset{a[0]};
      assert multiset(Without(b, j)) == multiset(b) - multiset{a[0]};
      WithoutIsShorter(a, 0);
      EntryNamesPermute(fs, place, Without(a, 0), Without(b, j));
      EntryNamesWithout(fs, place, a, 0);
      EntryNamesWithout(fs, place, b, j);
    }
  }

  lemma {:induction false} SameMarks(a: Fs, b: Fs, place: seq<string>, children: seq<Child>)
    requires forall child | child in children && IsShown(place, child) ::
               IsDirectoryIn(a, place, child) == IsDirectoryIn(b, place, child)
    ensures EntryNames(a, place, children) == EntryNames(b, place, children)
  {
    hide IsDirectoryIn;
    if children != [] {
      assert children[0] in children;
      SameMarks(a, b, place, children[1..]);
    }
  }

  /** The same files, their directories' entries given in another order. */
  ghost predicate SameButOrder(a: Fs, b: Fs) {
    && (forall cs :: a.resolve(cs) == b.resolve(cs))
    && (forall place :: SameNodeButOrder(a.at(place), b.at(place)))
  }

  predicate SameNodeButOrder(a: Node, b: Node) {
    a == b || (a.DirectoryNode? && b.DirectoryNode? && multiset(a.children) == multiset(b.children))
  }

  /** A listing does not depend on the order the filesystem gives a directory's entries in. */
  lemma ListingIgnoresOrder(a: Fs, b: Fs, relative: seq<Component>)
    requires SameButOrder(a, b)
    ensures ListDirectory(a, relative) == ListDirectory(b, relative)
  {
    hide EntryNames, SortBy, TextLe;
    var r := a.resolve(relative);
    assert r == b.resolve(relative);
    if r.Inside? && SameNodeButOrder(a.at(r.place), b.at(r.place)) && a.at(r.place).DirectoryNode? {
      var place, x, y := r.place, a.at(r.place).children, b.at(r.place).children;
      SameMarks(a, b, place, x);
      EntryNamesPermute(b, place, x, y);
      OneOrder(EntryNames(b, place, x), EntryNames(b, place, y));
    }
  }

  lemma OneOrder(names: seq<string>, others: seq<string>)
    requires multiset(names) == multiset(others)
    ensures SortBy(names, TextLe) == SortBy(others, TextLe)
  {
    TextLeIsTotalOrder();
    SortBySorted(names, TextLe);
    SortBySorted(others, TextLe);
    SortedIsUnique(SortBy(names, TextLe), SortBy(others, TextLe), TextLe);
  }

  // ----- lanekeep's own directory -----

  predicate IsOwn(place: seq<string>) {
    place != [] && place[0] == LANEKEEP_DIRECTORY
  }

  /** Within lanekeep's own directory, or nowhere yet. */
  predicate MayBeOwn(r: Resolution) {
    r.Missing? || (r.Inside? && IsOwn(r.place))
  }

  ghost predicate SameRoot(a: Node, b: Node) {
    a == b || (a.DirectoryNode? && b.DirectoryNode? && Shown([], a.children) == Shown([], b.children))
  }

  /**
    Two states of a project that differ in lanekeep's own directory alone: outside it the same
    stands everywhere, and no path leads to one such place in the one state and to another in
    the other. A path may well lead nowhere, or into that directory, in one of them only.
  */
  ghost predicate SameButOwn(a: Fs, b: Fs) {
    && (forall names | !IsOwn(names) :: SameWayButOwn(a.resolve(Form(0, names)), b.resolve(Form(0, names))))
    && (forall place | place != [] && !IsOwn(place) :: a.at(place) == b.at(place))
    && SameRoot(a.at([]), b.at([]))
  }

  predicate SameWayButOwn(r: Resolution, s: Resolution) {
    r == s || MayBeOwn(r) || MayBeOwn(s)
  }

  /** The path leads to a directory that a listing shows the children of. */
  predicate IsListable(fs: Fs, names: seq<string>) {
    && !IsOwn(names)
    && var r := fs.resolve(Form(0, names));
       r.Inside? && !IsOwn(r.place) && fs.at(r.place).DirectoryNode?
  }

  predicate LeadsOut(fs: Fs, names: seq<string>) {
    !IsOwn(names) && fs.resolve(Form(0, names)).Outside?
  }

  /** The path leads out of the root, or to a listable directory, in both states or in neither. */
  ghost predicate WayAlike(a: Fs, b: Fs, names: seq<string>) {
    LeadsOut(a, names) == LeadsOut(b, names) && IsListable(a, names) == IsListable(b, names)
  }

  ghost predicate WaysAlike(a: Fs, b: Fs) {
    forall names :: WayAlike(a, b, names)
  }

  ghost predicate LinkAlike(a: Fs, b: Fs, names: seq<string>, child: Child)
    requires IsListable(a, names)
  {
    var place := a.resolve(Form(0, names)).place;
    child in a.at(place).children && IsShown(place, child) && child.kind.LinkKind?
    ==> IsDirectoryIn(a, place, child) == IsDirectoryIn(b, place, child)
  }

  /** A link that a listing shows is a directory in the root in both states or in neither. */
  ghost predicate LinksAlike(a: Fs, b: Fs) {
    forall names, child: Child | IsListable(a, names) :: LinkAlike(a, b, names, child)
  }

  lemma OwnForm(names: seq<string>)
    ensures Form(0, names) != [] && Form(0, names)[0] == Normal(LANEKEEP_DIRECTORY) <==> IsOwn(names)
  {
  }

  lemma ListingIs(fs: Fs, names: seq<string>)
    ensures LeadsOut(fs, names) ==> ListDirectory(fs, Form(0, names)) == Listing.Refused
    ensures IsListable(fs, names) ==>
      var place := fs.resolve(Form(0, names)).place;
      ListDirectory(fs, Form(0, names)) == Listing.Listed(SortBy(EntryNames(fs, place, fs.at(place).children), TextLe))
    ensures !LeadsOut(fs, names) && !IsListable(fs, names) ==> ListDirectory(fs, Form(0, names)) == Listing.Unlisted
  {
    hide Form, EntryNames, SortBy;
    OwnForm(names);
  }

  lemma ShownIsEnough(place: seq<string>, fs: Fs, children: seq<Child>)
    ensures EntryNames(fs, place, children) == EntryNames(fs, place, Shown(place, children))
  {
    EntryNamesAreMarked(fs, place, children);
    EntryNamesAreMarked(fs, place, Shown(place, children));
    ShownTwice(place, children);
  }

  lemma {:induction false} ShownTwice(place: seq<string>, children: seq<Child>)
    ensures Shown(place, Shown(place, children)) == Shown(place, children)
  {
    if children != [] {
      ShownTwice(place, children[1..]);
      if IsShown(place, children[0]) {
        assert Shown(place, children)[1..] == Shown(place, children[1..]);
      }
    }
  }

  /** What a listing reads of the two states, where both have one to give. */
  lemma SameListed(a: Fs, b: Fs, names: seq<string>)
    requires SameButOwn(a, b) && IsListable(a, names) && IsListable(b, names)
    ensures var place := a.resolve(Form(0, names)).place;
      && b.resolve(Form(0, names)) == Inside(place)
      && Shown(place, a.at(place).children) == Shown(place, b.at(place).children)
      && ListDirectory(a, Form(0, names))
         == Listing.Listed(SortBy(EntryNames(a, place, Shown(place, a.at(place).children)), TextLe))
      && ListDirectory(b, Form(0, names))
         == Listing.Listed(SortBy(EntryNames(b, place, Shown(place, a.at(place).children)), TextLe))
  {
    hide Form, Shown, EntryNames, SortBy, ListDirectory;
    assert SameWayButOwn(a.resolve(Form(0, names)), b.resolve(Form(0, names)));
    var place := a.resolve(Form(0, names)).place;
    ListingIs(a, names);
    ListingIs(b, names);
    ShownIsEnough(place, a, a.at(place).children);
    ShownIsEnough(place, b, b.at(place).children);
  }

  lemma AlikeGivesSameListings(a: Fs, b: Fs, names: seq<string>)
    requires SameButOwn(a, b) && WayAlike(a, b, names)
    requires IsListable(a, names) ==> forall child: Child :: LinkAlike(a, b, names, child)
    ensures ListDirectory(a, Form(0, names)) == ListDirectory(b, Form(0, names))
  {
    hide Form, Shown, EntryNames, SortBy, SameButOwn, ListDirectory;
    ListingIs(a, names);
    ListingIs(b, names);
    if IsListable(a, names) {
      SameListed(a, b, names);
      var place := a.resolve(Form(0, names)).place;
      var children := Shown(place, a.at(place).children);
      forall child | child in children
        ensures IsDirectoryIn(a, place, child) == IsDirectoryIn(b, place, child)
      {
        assert LinkAlike(a, b, names, child);
      }
      SameMarks(a, b, place, children);
    }
  }

  /** With distinct names, an entry with a slash at its end shows the mark of the child it names. */
  lemma MarkIsSeen(fs: Fs, place: seq<string>, children: seq<Child>, child: Child)
    requires child in children
    requires forall i, j | 0 <= i < j < |children| :: children[i].name != children[j].name
    ensures child.name + "/" in Marked(fs, place, children) <==> IsDirectoryIn(fs, place, child)
  {
    hide IsDirectoryIn;
    var marked := Marked(fs, place, children);
    var k :| 0 <= k < |children| && children[k] == child;
    if child.name + "/" in marked {
      var i :| 0 <= i < |marked| && marked[i] == child.name + "/";
      assert marked[i][|child.name|] == '/';
      assert marked[i] == children[i].name + "/";
      assert children[i].name == marked[i][..|marked[i]| - 1] == child.name;
    } else {
      assert marked[k] != child.name + "/";
    }
  }

  lemma {:induction false} ShownAreDistinct(place: seq<string>, children: seq<Child>)
    requires forall i, j | 0 <= i < j < |children| :: children[i].name != children[j].name
    ensures forall i, j | 0 <= i < j < |Shown(place, children)| ::
              Shown(place, children)[i].name != Shown(place, children)[j].name
  {
    if children != [] {
      var rest := Shown(place, children[1..]);
      ShownAreDistinct(place, children[1..]);
      forall j | 0 <= j < |rest|
        ensures rest[j].name != children[0].name
      {
        assert rest[j] in children[1..];
      }
    }
  }

  lemma SameListingGivesSameWay(a: Fs, b: Fs, names: seq<string>)
    requires ListDirectory(a, Form(0, names)) == ListDirectory(b, Form(0, names))
    ensures WayAlike(a, b, names)
  {
    hide LeadsOut, IsListable, ListDirectory;
    ListingIs(a, names);
    ListingIs(b, names);
  }

  lemma SameListingGivesSameMark(a: Fs, b: Fs, names: seq<string>, child: Child)
    requires WellFormed(a) && SameButOwn(a, b) && IsListable(a, names)
    requires ListDirectory(a, Form(0, names)) == ListDirectory(b, Form(0, names))
    ensures LinkAlike(a, b, names, child)
  {
    hide Form, Shown, EntryNames, SortBy, SameButOwn, IsDirectoryIn, ListDirectory, Marked, Follows, Avoids;
    SameListingGivesSameWay(a, b, names);
    SameListed(a, b, names);
    var place := a.resolve(Form(0, names)).place;
    var children := Shown(place, a.at(place).children);
    if child in children {
      assert SoundDirectory(a.at, place);
      ShownAreDistinct(place, a.at(place).children);
      ShownTwice(place, a.at(place).children);
      forall fs | fs == a || fs == b
        ensures child.name + "/" in ListDirectory(fs, Form(0, names)).entries <==> IsDirectoryIn(fs, place, child)
      {
        EntryNamesAreMarked(fs, place, children);
        SortByMembers(EntryNames(fs, place, children), TextLe);
        MarkIsSeen(fs, place, children, child);
      }
    }
  }

  /** What lanekeep writes into its own directory changes no listing, so that a warm run is told what the cold one was,
    * exactly when it lets no path lead out of the root, or to a listable directory, that did not before, and makes no
    * link that is shown a directory; nor undoes any of that. */
  lemma OwnDirectoryIsInvisibleExactly(a: Fs, b: Fs)
    requires WellFormed(a) && SameButOwn(a, b)
    ensures (forall names :: ListDirectory(a, Form(0, names)) == ListDirectory(b, Form(0, names)))
       <==> WaysAlike(a, b) && LinksAlike(a, b)
  {
    hide Form, SameButOwn, WellFormed, ListDirectory, LinkAlike, WayAlike, IsListable;
    if WaysAlike(a, b) && LinksAlike(a, b) {
      forall names
        ensures ListDirectory(a, Form(0, names)) == ListDirectory(b, Form(0, names))
      {
        assert WayAlike(a, b, names);
        AlikeGivesSameListings(a, b, names);
      }
    }
    if forall names :: ListDirectory(a, Form(0, names)) == ListDirectory(b, Form(0, names)) {
      forall names
        ensures WayAlike(a, b, names)
        ensures IsListable(a, names) ==> forall child: Child :: LinkAlike(a, b, names, child)
      {
        assert ListDirectory(a, Form(0, names)) == ListDirectory(b, Form(0, names));
        SameListingGivesSameWay(a, b, names);
        if IsListable(a, names) {
          forall child: Child
            ensures LinkAlike(a, b, names, child)
          {
            SameListingGivesSameMark(a, b, names, child);
          }
        }
      }
    }
  }

  /** No path leads elsewhere than before by way of lanekeep's own directory. */
  ghost predicate NoWayThroughOwn(a: Fs, b: Fs) {
    forall names | !IsOwn(names) :: SameWayBeside(a.resolve(Form(0, names)), b.resolve(Form(0, names)))
  }

  predicate SameWayBeside(r: Resolution, s: Resolution) {
    r == s || (MayBeOwn(r) && MayBeOwn(s))
  }

  /** No link that a listing shows leads into lanekeep's own directory. */
  ghost predicate NoLinkIntoOwn(fs: Fs) {
    forall names, child: Child | IsListable(fs, names) :: !LeadsIntoOwn(fs, names, child)
  }

  predicate LeadsIntoOwn(fs: Fs, names: seq<string>, child: Child)
    requires IsListable(fs, names)
  {
    var place := fs.resolve(Form(0, names)).place;
    && child in fs.at(place).children && IsShown(place, child) && child.kind.LinkKind?
    && var r := fs.resolve(Form(0, place + [child.name]));
       r.Inside? && IsOwn(r.place)
  }

  /** As long as no link leads through that directory, or into it, what it holds is invisible. */
  lemma OwnDirectoryIsInvisible(a: Fs, b: Fs, names: seq<string>)
    requires SameButOwn(a, b) && NoWayThroughOwn(a, b) && NoLinkIntoOwn(a) && NoLinkIntoOwn(b)
    ensures ListDirectory(a, Form(0, names)) == ListDirectory(b, Form(0, names))
  {
    hide SameButOwn, NoLinkIntoOwn, NoWayThroughOwn, LinkAlike, ListDirectory;
    BesideGivesSameWay(a, b, names);
    if IsListable(a, names) {
      forall child: Child
        ensures LinkAlike(a, b, names, child)
      {
        NoOwnLinkIsAlike(a, b, names, child);
      }
    }
    AlikeGivesSameListings(a, b, names);
  }

  lemma BesideGivesSameWay(a: Fs, b: Fs, names: seq<string>)
    requires SameButOwn(a, b) && NoWayThroughOwn(a, b)
    ensures WayAlike(a, b, names)
  {
    hide Form;
    var r, s := a.resolve(Form(0, names)), b.resolve(Form(0, names));
    if !IsOwn(names) {
      assert SameWayBeside(r, s);
      if r.Inside? && !IsOwn(r.place) && r.place != [] {
        assert a.at(r.place) == b.at(r.place);
      }
    }
  }

  lemma NoOwnLinkIsAlike(a: Fs, b: Fs, names: seq<string>, child: Child)
    requires SameButOwn(a, b) && NoWayThroughOwn(a, b) && NoLinkIntoOwn(a) && NoLinkIntoOwn(b)
    requires IsListable(a, names) && IsListable(b, names)
    ensures LinkAlike(a, b, names, child)
  {
    hide Form, Shown, SameButOwn, NoWayThroughOwn, ListDirectory, SortBy, EntryNames;
    SameListed(a, b, names);
    var place := a.resolve(Form(0, names)).place;
    assert child in Shown(place, a.at(place).children) <==> child in Shown(place, b.at(place).children);
    assert !LeadsIntoOwn(a, names, child) && !LeadsIntoOwn(b, names, child);
    if IsShown(place, child) {
      MarkBeside(a, b, place + [child.name]);
    }
  }

  lemma MarkBeside(a: Fs, b: Fs, names: seq<string>)
    requires SameButOwn(a, b) && NoWayThroughOwn(a, b) && !IsOwn(names)
    ensures var r, s := a.resolve(Form(0, names)), b.resolve(Form(0, names));
      || (r.Inside? && IsOwn(r.place)) || (s.Inside? && IsOwn(s.place))
      || (r == s && (r.Inside? ==> IsDirectory(a.at(r.place)) == IsDirectory(b.at(r.place))))
  {
    hide Form, Shown;
    var r, s := a.resolve(Form(0, names)), b.resolve(Form(0, names));
    assert SameWayBeside(r, s);
    if r.Inside? && r.place != [] && !IsOwn(r.place) {
      assert a.at(r.place) == b.at(r.place);
    }
  }
}
