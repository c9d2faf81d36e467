/** Lexical path normalization, on Unix path text. */
module Paths {
  import opened Wrappers
  import opened Text
  import opened Reports

  datatype Component = RootDir | CurDir | ParentDir | Normal(name: string)

  // ----- Path text -----

  /** The components of slash-separated pieces: empty ones and `.` stand for nothing. */
  function PieceComponents(parts: seq<string>): seq<Component> {
    if parts == [] then []
    else
      var rest := PieceComponents(parts[1..]);
      if parts[0] == "" || parts[0] == "." then rest
      else if parts[0] == ".." then [ParentDir] + rest
      else [Normal(parts[0])] + rest
  }

  /** `Path::components`: only a leading `.` is kept, and only in a relative path. */
  function Components(path: string): seq<Component> {
    var parts := SplitSlash(path);
    if path != "" && path[0] == '/' then [RootDir] + PieceComponents(parts)
    else if parts[0] == "." then [CurDir] + PieceComponents(parts)
    else PieceComponents(parts)
  }

  predicate HasRoot(path: string) {
    path != "" && path[0] == '/'
  }

  function ComponentText(c: Component): string {
    match c
    case RootDir => "/"
    case CurDir => "."
    case ParentDir => ".."
    case Normal(name) => name
  }

  function Texts(cs: seq<Component>): (r: seq<string>)
    ensures |r| == |cs|
    ensures forall i | 0 <= i < |r| :: r[i] == ComponentText(cs[i])
  {
    seq(|cs|, i requires 0 <= i < |cs| => ComponentText(cs[i]))
  }

  /** The text of a path put together by `PathBuf::push`. */
  function Render(cs: seq<Component>): string {
    if cs != [] && cs[0] == RootDir then "/" + Join(Texts(cs[1..]), "/") else Join(Texts(cs), "/")
  }

  // ----- Normalization -----

  /** The path under construction, and how many of its last components are real segments. */
  datatype Partial = Partial(out: seq<Component>, depth: nat)

  /** `PathBuf::pop`, which leaves the root alone. */
  function Pop(out: seq<Component>): seq<Component> {
    if out == [] || out[|out| - 1] == RootDir then out else out[..|out| - 1]
  }

  function Step(p: Partial, c: Component): Partial {
    match c
    case CurDir => p
    case ParentDir => if p.depth > 0 then Partial(Pop(p.out), p.depth - 1) else Partial(p.out + [ParentDir], 0)
    case _ => Partial(p.out + [c], p.depth + 1)
  }

  function Fold(cs: seq<Component>): Partial {
    if cs == [] then Partial([], 0) else Step(Fold(cs[..|cs| - 1]), cs[|cs| - 1])
  }

  function Normalize(cs: seq<Component>): seq<Component> {
    Fold(cs).out
  }

  /** `normalize`. */
  method NormalizePath(path: string) returns (out: seq<Component>)
    ensures out == Normalize(Components(path))
  {
    var components := Components(path);
    out := [];
    var depth := 0;
    for i := 0 to |components|
      invariant Partial(out, depth) == Fold(components[..i])
    {
      assert components[..i + 1][..i] == components[..i];
      match components[i]
      case CurDir =>
      case ParentDir =>
        if depth > 0 {
          out := Pop(out);
          depth := depth - 1;
        } else {
          out := out + [ParentDir];
        }
      case other =>
        out := out + [other];
        depth := depth + 1;
    }
    assert components[..|components|] == components;
  }

  /** The key a path is recorded under. */
  function NormalizeKey(path: string): string {
    ForwardSlashes(Render(Normalize(Components(path))))
  }

  // ----- What a path means -----

  /** Following components from a directory `dir` segments below the top: nowhere, if they climb past it. */
  function Walk(dir: seq<string>, cs: seq<Component>): Option<seq<string>>
    decreases |cs|
  {
    if cs == [] then Some(dir)
    else
      match cs[0]
      case RootDir => Walk([], cs[1..])
      case CurDir => Walk(dir, cs[1..])
      case ParentDir => if dir == [] then None else Walk(dir[..|dir| - 1], cs[1..])
      case Normal(name) => Walk(dir + [name], cs[1..])
  }

  predicate Relative(cs: seq<Component>) {
    RootDir !in cs
  }

  /** `..`s, then real segments. */
  function Form(ups: nat, names: seq<string>): (cs: seq<Component>)
    ensures |cs| == ups + |names|
    ensures forall i | 0 <= i < ups :: cs[i] == ParentDir
    ensures forall i | 0 <= i < |names| :: cs[ups + i] == Normal(names[i])
  {
    seq(ups, _ => ParentDir) + seq(|names|, i requires 0 <= i < |names| => Normal(names[i]))
  }

  lemma FormPush(ups: nat, names: seq<string>, name: string)
    ensures Form(ups, names) + [Normal(name)] == Form(ups, names + [name])
  {
  }

  lemma FormPop(ups: nat, names: seq<string>)
    requires names != []
    ensures Pop(Form(ups, names)) == Form(ups, names[..|names| - 1])
  {
    assert Form(ups, names)[ups + |names| - 1] == Normal(names[|names| - 1]);
  }

  lemma FormClimb(ups: nat)
    ensures Form(ups, []) + [ParentDir] == Form(ups + 1, [])
  {
  }

  ghost predicate IsNormalForm(cs: seq<Component>) {
    exists ups, names :: cs == Form(ups, names)
  }

  lemma {:induction false} WalkThrough(dir: seq<string>, a: seq<Component>, b: seq<Component>)
    ensures Walk(dir, a + b) == match Walk(dir, a) case None => None case Some(there) => Walk(there, b)
    decreases |a|
  {
    if a == [] {
      assert a + b == b;
    } else {
      assert (a + b)[1..] == a[1..] + b;
      match a[0]
      case RootDir => WalkThrough([], a[1..], b);
      case CurDir => WalkThrough(dir, a[1..], b);
      case ParentDir =>
        if dir != [] {
          WalkThrough(dir[..|dir| - 1], a[1..], b);
        }
      case Normal(name) => WalkThrough(dir + [name], a[1..], b);
    }
  }

  /** The shape the loop keeps. */
  lemma {:induction false} FoldShape(cs: seq<Component>) returns (ups: nat, names: seq<string>)
    requires Relative(cs)
    ensures Fold(cs) == Partial(Form(ups, names), |names|)
  {
    if cs == [] {
      ups, names := 0, [];
    } else {
      var c := cs[|cs| - 1];
      ups, names := FoldShape(cs[..|cs| - 1]);
      match c
      case CurDir =>
      case ParentDir =>
        if names != [] {
          FormPop(ups, names);
          names := names[..|names| - 1];
        } else {
          FormClimb(ups);
          ups := ups + 1;
        }
      case Normal(name) =>
        FormPush(ups, names, name);
        names := names + [name];
    }
  }

  lemma WalkOne(dir: seq<string>, cs: seq<Component>, c: Component)
    ensures Walk(dir, cs + [c]) == match Walk(dir, cs) case None => None case Some(there) => Walk(there, [c])
  {
    WalkThrough(dir, cs, [c]);
  }

  /** Leaving a segment just entered leads back. */
  lemma WalkPopped(dir: seq<string>, ups: nat, names: seq<string>)
    requires names != []
    ensures Walk(dir, Form(ups, names) + [ParentDir]) == Walk(dir, Form(ups, names[..|names| - 1]))
  {
    hide Form;
    var shorter, last := Form(ups, names[..|names| - 1]), Normal(names[|names| - 1]);
    FormPush(ups, names[..|names| - 1], last.name);
    assert names[..|names| - 1] + [last.name] == names;
    WalkOne(dir, shorter + [last], ParentDir);
    WalkOne(dir, shorter, last);
    var there := Walk(dir, shorter);
    if there.Some? {
      assert (there.value + [last.name])[..|there.value|] == there.value;
    }
  }

  /** Normalizing keeps the meaning from every start, shallow ones included. */
  lemma {:induction false} SameMeaning(dir: seq<string>, cs: seq<Component>)
    requires Relative(cs)
    ensures Walk(dir, Normalize(cs)) == Walk(dir, cs)
  {
    if cs != [] {
      var before, c := cs[..|cs| - 1], cs[|cs| - 1];
      assert before + [c] == cs;
      SameMeaning(dir, before);
      WalkOne(dir, before, c);
      WalkOne(dir, Normalize(before), c);
      StepMeaning(dir, before, c);
    }
  }

  lemma StepMeaning(dir: seq<string>, before: seq<Component>, c: Component)
    requires Relative(before) && c != RootDir
    ensures Walk(dir, Step(Fold(before), c).out) == Walk(dir, Normalize(before) + [c])
  {
    hide Walk, Fold;
    var ups, names := FoldShape(before);
    var out := Form(ups, names);
    if c == CurDir {
      WalkOne(dir, out, CurDir);
      StayPut(Walk(dir, out));
    } else if c == ParentDir && names != [] {
      WalkPopped(dir, ups, names);
      FormPop(ups, names);
    }
  }

  lemma StayPut(there: Option<seq<string>>)
    ensures there.Some? ==> Walk(there.value, [CurDir]) == there
  {
  }

  lemma {:induction false} WalkForm(dir: seq<string>, ups: nat, names: seq<string>)
    ensures Walk(dir, Form(ups, names)) == if ups > |dir| then None else Some(dir[..|dir| - ups] + names)
    decreases ups + |names|
  {
    if ups > 0 {
      assert Form(ups, names)[1..] == Form(ups - 1, names);
      if dir != [] {
        WalkForm(dir[..|dir| - 1], ups - 1, names);
        if ups <= |dir| {
          assert dir[..|dir| - 1][..|dir| - ups] == dir[..|dir| - ups];
        }
      }
    } else if names != [] {
      assert Form(0, names)[1..] == Form(0, names[1..]);
      var there := dir + [names[0]];
      WalkForm(there, 0, names[1..]);
      assert there[..|there|] + names[1..] == dir[..|dir|] + names;
    } else {
      assert dir[..|dir|] + names == dir;
    }
  }

  /** A directory `n` segments deep, whose segments are all empty. */
  function Deep(n: nat): (dir: seq<string>)
    ensures |dir| == n
  {
    seq(n, _ => "")
  }

  lemma FormsDiffer(a: nat, names: seq<string>, b: nat, others: seq<string>)
    requires forall n: nat :: Walk(Deep(n), Form(a, names)) == Walk(Deep(n), Form(b, others))
    ensures Form(a, names) == Form(b, others)
  {
    WalkForm(Deep(a), a, names);
    WalkForm(Deep(a), b, others);
    WalkForm(Deep(b), a, names);
    WalkForm(Deep(b), b, others);
    assert a == b;
    assert [] + names == names && [] + others == others;
  }

  /** Two paths lead to the same place from every start. */
  ghost predicate SameWalks(a: seq<Component>, b: seq<Component>) {
    forall dir :: Walk(dir, a) == Walk(dir, b)
  }

  lemma OnlyNormalForm(cs: seq<Component>, n: seq<Component>)
    requires Relative(cs) && IsNormalForm(n)
    requires SameWalks(n, cs)
    ensures n == Normalize(cs)
  {
    var ups, names := FoldShape(cs);
    var k, others :| n == Form(k, others);
    forall d: nat
      ensures Walk(Deep(d), Form(k, others)) == Walk(Deep(d), Form(ups, names))
    {
      SameMeaning(Deep(d), cs);
      assert Walk(Deep(d), n) == Walk(Deep(d), cs);
    }
    FormsDiffer(k, others, ups, names);
  }

  /** The law of normalization: it gives the one path in normal form that means what the input means. */
  lemma NormalizeIsTheNormalForm(cs: seq<Component>, n: seq<Component>)
    requires Relative(cs)
    ensures n == Normalize(cs) <==> IsNormalForm(n) && SameWalks(n, cs)
  {
    if n == Normalize(cs) {
      var ups, names := FoldShape(cs);
      assert n == Form(ups, names);
      forall dir
        ensures Walk(dir, n) == Walk(dir, cs)
      {
        SameMeaning(dir, cs);
      }
    }
    if IsNormalForm(n) && SameWalks(n, cs) {
      OnlyNormalForm(cs, n);
    }
  }

  lemma NormalFormRelative(cs: seq<Component>)
    requires IsNormalForm(cs)
    ensures Relative(cs)
  {
    var ups, names :| cs == Form(ups, names);
  }

  lemma NormalizeIdempotent(cs: seq<Component>)
    requires Relative(cs)
    ensures Normalize(Normalize(cs)) == Normalize(cs)
  {
    var n := Normalize(cs);
    NormalizeIsTheNormalForm(cs, n);
    NormalFormRelative(n);
    NormalizeIsTheNormalForm(n, n);
  }

  /** Normalizing the first half of a path early changes nothing. */
  lemma NormalizeHalfway(p: seq<Component>, q: seq<Component>)
    requires Relative(p) && Relative(q)
    ensures Normalize(p + q) == Normalize(Normalize(p) + q)
  {
    var half := Normalize(p);
    NormalizeIsTheNormalForm(p, half);
    NormalFormRelative(half);
    var n := Normalize(half + q);
    NormalizeIsTheNormalForm(half + q, n);
    forall dir
      ensures Walk(dir, n) == Walk(dir, p + q)
    {
      WalkThrough(dir, half, q);
      WalkThrough(dir, p, q);
      assert Walk(dir, n) == Walk(dir, half + q);
    }
    NormalizeIsTheNormalForm(p + q, n);
  }

  // ----- Escapes -----

  /** Segments entered less segments left. */
  function Height(cs: seq<Component>): int {
    if cs == [] then 0
    else
      Height(cs[..|cs| - 1])
      + match cs[|cs| - 1] case ParentDir => -1 case Normal(_) => 1 case _ => 0
  }

  /** How low a prefix of the path gets. */
  function Lowest(cs: seq<Component>): int {
    if cs == [] then 0
    else if Height(cs) < Lowest(cs[..|cs| - 1]) then Height(cs)
    else Lowest(cs[..|cs| - 1])
  }

  /** Some prefix of the path leads above its start. */
  ghost predicate ClimbsOut(cs: seq<Component>) {
    exists i | 0 <= i <= |cs| :: Height(cs[..i]) < 0
  }

  lemma {:induction false} LowestIsNegative(cs: seq<Component>)
    ensures Lowest(cs) < 0 <==> ClimbsOut(cs)
  {
    if cs == [] {
      assert cs[..0] == [];
    } else {
      var before := cs[..|cs| - 1];
      LowestIsNegative(before);
      assert cs[..|cs|] == cs;
      assert forall i | 0 <= i <= |before| :: cs[..i] == before[..i];
    }
  }

  /** One `..` is kept for each level the path climbs above its start. */
  lemma {:induction false} KeptParents(cs: seq<Component>) returns (names: seq<string>)
    requires Relative(cs)
    ensures Lowest(cs) <= 0
    ensures Fold(cs) == Partial(Form(0 - Lowest(cs), names), |names|)
    ensures |names| == Height(cs) - Lowest(cs)
  {
    hide Form;
    if cs == [] {
      names := [];
    } else {
      var before, c := cs[..|cs| - 1], cs[|cs| - 1];
      var others := KeptParents(before);
      var ups := 0 - Lowest(before);
      match c
      case CurDir =>
        names := others;
      case ParentDir =>
        if others != [] {
          names := others[..|others| - 1];
          FormPop(ups, others);
        } else {
          names := [];
          FormClimb(ups);
        }
      case Normal(name) =>
        names := others + [name];
        FormPush(ups, others, name);
    }
  }

  /** So one is kept exactly when the path climbs above its start at all. */
  lemma ParentKeptIffClimbsOut(cs: seq<Component>)
    requires Relative(cs)
    ensures ParentDir in Normalize(cs) <==> ClimbsOut(cs)
  {
    var names := KeptParents(cs);
    LowestIsNegative(cs);
    if Lowest(cs) < 0 {
      assert Normalize(cs)[0] == ParentDir;
    }
  }

  // ----- Keys -----

  /** A name that stands for itself between slashes. */
  predicate IsSegment(name: string) {
    name != "" && name != "." && name != ".." && '/' !in name
  }

  /** Nothing but `..` and segments. */
  predicate IsPlain(cs: seq<Component>) {
    forall i | 0 <= i < |cs| :: cs[i] == ParentDir || (cs[i].Normal? && IsSegment(cs[i].name))
  }

  /** No segment's name holds the character. */
  predicate Avoids(cs: seq<Component>, c: char) {
    forall i | 0 <= i < |cs| :: cs[i].Normal? ==> c !in cs[i].name
  }

  predicate IsClean(cs: seq<Component>) {
    Avoids(cs, '\\')
  }

  /** The components without a leading `.`. */
  function Trail(path: string): seq<Component> {
    var cs := Components(path);
    if cs != [] && cs[0] == CurDir then cs[1..] else cs
  }

  lemma {:induction false} PieceComponentsPlain(parts: seq<string>)
    requires forall i | 0 <= i < |parts| :: '/' !in parts[i]
    ensures IsPlain(PieceComponents(parts))
  {
    if parts != [] {
      PieceComponentsPlain(parts[1..]);
    }
  }

  /** What a relative path is made of. */
  lemma RelativePath(path: string)
    requires !HasRoot(path)
    ensures Relative(Components(path)) && IsPlain(Trail(path))
    ensures Normalize(Components(path)) == Normalize(Trail(path))
  {
    SplitSlashBack(path);
    PieceComponentsPlain(SplitSlash(path));
    if Components(path) != Trail(path) {
      DotIsNothing(Trail(path));
      assert Components(path) == [CurDir] + Trail(path);
    }
  }

  lemma DotIsNothing(cs: seq<Component>)
    requires Relative(cs)
    ensures Normalize([CurDir] + cs) == Normalize(cs)
  {
    assert Relative([CurDir] + cs);
    NormalizeHalfway([CurDir], cs);
    assert Normalize([CurDir]) == [] && [] + cs == cs by {
      assert [CurDir][..0] == [];
    }
  }

  lemma {:induction false} FoldKeepsPlain(cs: seq<Component>)
    requires forall i | 0 <= i < |cs| ::
               cs[i] == CurDir || cs[i] == ParentDir || (cs[i].Normal? && IsSegment(cs[i].name))
    ensures IsPlain(Normalize(cs))
  {
    if cs != [] {
      FoldKeepsPlain(cs[..|cs| - 1]);
    }
  }

  lemma NormalizedIsPlain(path: string)
    requires !HasRoot(path)
    ensures IsPlain(Normalize(Components(path)))
  {
    RelativePath(path);
    FoldKeepsPlain(Trail(path));
  }

  lemma {:induction false} PiecesOfTexts(cs: seq<Component>)
    requires IsPlain(cs)
    ensures PieceComponents(Texts(cs)) == cs
  {
    if cs != [] {
      PiecesOfTexts(cs[1..]);
      assert Texts(cs)[1..] == Texts(cs[1..]);
    }
  }

  lemma TextsHaveNoSlash(cs: seq<Component>)
    requires IsPlain(cs)
    ensures forall i | 0 <= i < |cs| :: '/' !in Texts(cs)[i] && Texts(cs)[i] != "" && Texts(cs)[i] != "."
  {
  }

  /** A normalized path's text is read back as the path it was rendered from. */
  lemma ComponentsOfRendered(cs: seq<Component>)
    requires IsPlain(cs)
    ensures Components(Render(cs)) == Trail(Render(cs)) == cs
    ensures !HasRoot(Render(cs))
  {
    hide IsPlain, Texts;
    var parts := Texts(cs);
    TextsHaveNoSlash(cs);
    PiecesOfTexts(cs);
    assert Render(cs) == Join(parts, "/") by { PlainHasNoRoot(cs); }
    if cs == [] {
      assert SplitSlash("") == [""];
      assert PieceComponents([""]) == PieceComponents([]);
    } else {
      SplitSlashJoined(parts);
      assert Render(cs)[0] == parts[0][0];
      PlainHasNoDot(cs);
    }
  }

  lemma PlainHasNoRoot(cs: seq<Component>)
    requires IsPlain(cs)
    ensures cs != [] ==> cs[0] != RootDir
  {
  }

  lemma PlainHasNoDot(cs: seq<Component>)
    requires IsPlain(cs)
    ensures cs != [] ==> cs[0] != CurDir
  {
  }

  lemma RenderedAvoids(cs: seq<Component>, c: char)
    requires IsPlain(cs) && c != '/' && c != '.'
    ensures c !in Render(cs) <==> Avoids(cs, c)
  {
    hide IsPlain, Avoids, IsSegment;
    PlainHasNoRoot(cs);
    JoinHolds(Texts(cs), c);
    TextsAvoid(cs, c);
  }

  lemma TextsAvoid(cs: seq<Component>, c: char)
    requires IsPlain(cs) && c != '.'
    ensures (forall i | 0 <= i < |Texts(cs)| :: c !in Texts(cs)[i]) <==> Avoids(cs, c)
  {
    if forall i | 0 <= i < |Texts(cs)| :: c !in Texts(cs)[i] {
      forall i | 0 <= i < |cs| && cs[i].Normal?
        ensures c !in cs[i].name
      {
        assert Texts(cs)[i] == cs[i].name;
      }
    }
  }

  lemma {:induction false} JoinHolds(pieces: seq<string>, c: char)
    requires c != '/'
    ensures c !in Join(pieces, "/") <==> forall i | 0 <= i < |pieces| :: c !in pieces[i]
  {
    if |pieces| > 1 {
      JoinHolds(pieces[1..], c);
    }
  }

  lemma NoBackslash(s: string)
    ensures '\\' !in ForwardSlashes(s)
    ensures ForwardSlashes(s) == s <==> '\\' !in s
  {
    if '\\' in s {
      var i :| 0 <= i < |s| && s[i] == '\\';
      assert ForwardSlashes(s)[i] != s[i];
    } else {
      assert ForwardSlashes(s) == s;
    }
  }

  /** A recorded key leads where the path led, unless a backslash in a segment's name was rewritten on the way. */
  lemma KeyLeadsBack(path: string)
    requires !HasRoot(path)
    ensures var n, key := Normalize(Components(path)), NormalizeKey(path);
      IsClean(n) ==> Trail(key) == n && Normalize(Components(key)) == n && IsFilePath(key) && !HasRoot(key)
    ensures var n, key := Normalize(Components(path)), NormalizeKey(path);
      !IsClean(n) ==> Trail(key) != n && Trail(FilePath(key)) != n
  {
    hide Components, Normalize, Render, IsPlain, Avoids, Trail;
    var n := Normalize(Components(path));
    var key := NormalizeKey(path);
    NormalizedIsPlain(path);
    RenderedAvoids(n, '\\');
    NoBackslash(Render(n));
    if IsClean(n) {
      ComponentsOfRendered(n);
      RelativePath(path);
      NormalizeIdempotent(Components(path));
      FilePathFixed(key);
      NoLeadingDot(n);
    } else {
      ComponentsAvoid(key, '\\');
      assert FilePath(key) == key || FilePath(key) == key[2..] by { FileOfKey(key); }
      ComponentsAvoid(FilePath(key), '\\');
    }
  }

  lemma FileOfKey(key: string)
    requires '\\' !in key
    ensures FilePath(key) == if "./" <= key then key[2..] else key
  {
    NoBackslash(key);
  }

  lemma NoLeadingDot(cs: seq<Component>)
    requires IsPlain(cs)
    ensures !("./" <= Render(cs))
  {
    if "./" <= Render(cs) {
      ComponentsOfRendered(cs);
      DotSlash(Render(cs));
      PlainHasNoDot(cs);
      assert false;
    }
  }

  lemma DotSlash(path: string)
    requires "./" <= path
    ensures Components(path) != [] && Components(path)[0] == CurDir
  {
    assert path == "." + ("/" + path[2..]);
    SplitSlashFirst(".", path[2..]);
  }

  lemma {:induction false} PieceComponentsAvoid(parts: seq<string>, c: char)
    requires forall i | 0 <= i < |parts| :: c !in parts[i]
    ensures Avoids(PieceComponents(parts), c)
  {
    if parts != [] {
      PieceComponentsAvoid(parts[1..], c);
    }
  }

  lemma ComponentsAvoid(path: string, c: char)
    requires c != '/' && c !in path
    ensures Avoids(Components(path), c) && Avoids(Trail(path), c)
  {
    var parts := SplitSlash(path);
    SplitSlashBack(path);
    JoinHolds(parts, c);
    PieceComponentsAvoid(parts, c);
  }

  lemma {:induction false} FoldAvoids(cs: seq<Component>, c: char)
    requires Avoids(cs, c)
    ensures Avoids(Normalize(cs), c)
  {
    if cs != [] {
      FoldAvoids(cs[..|cs| - 1], c);
    }
  }

  lemma {:induction false} RootStays(cs: seq<Component>)
    requires cs != [] && cs[0] == RootDir
    ensures Normalize(cs) != [] && Normalize(cs)[0] == RootDir
  {
    if |cs| > 1 {
      RootStays(cs[..|cs| - 1]);
    } else {
      assert Fold(cs[..0]) == Partial([], 0);
    }
  }

  /** The state of the fold over what follows a root: the root counts as a segment until a `..` has been spent on it. */
  function Rooted(ups: nat, names: seq<string>): Partial {
    if ups == 0 then Partial([RootDir] + Form(0, names), |names| + 1)
    else Partial([RootDir] + Form(ups - 1, names), |names|)
  }

  lemma RootedPush(ups: nat, names: seq<string>, name: string)
    ensures Step(Rooted(ups, names), Normal(name)) == Rooted(ups, names + [name])
  {
    FormPush(if ups == 0 then 0 else ups - 1, names, name);
  }

  lemma RootedPop(ups: nat, names: seq<string>)
    requires names != []
    ensures Step(Rooted(ups, names), ParentDir) == Rooted(ups, names[..|names| - 1])
  {
    hide Form;
    var u := if ups == 0 then 0 else ups - 1;
    FormPop(u, names);
    assert Form(u, names)[u + |names| - 1] == Normal(names[|names| - 1]);
    assert ([RootDir] + Form(u, names))[..u + |names|] == [RootDir] + Form(u, names)[..u + |names| - 1];
  }

  lemma RootedClimb(ups: nat)
    ensures Step(Rooted(ups, []), ParentDir) == Rooted(ups + 1, [])
  {
    if ups > 0 {
      FormClimb(ups - 1);
    } else {
      assert Form(0, []) == [];
    }
  }

  lemma {:induction false} RootedShape(rest: seq<Component>) returns (ups: nat, names: seq<string>)
    requires Relative(rest)
    ensures Fold(rest) == Partial(Form(ups, names), |names|)
    ensures Fold([RootDir] + rest) == Rooted(ups, names)
  {
    hide Form, Rooted, Step;
    var cs := [RootDir] + rest;
    if rest == [] {
      ups, names := 0, [];
      OnlyTheRoot();
    } else {
      var front, c := rest[..|rest| - 1], rest[|rest| - 1];
      assert cs[..|cs| - 1] == [RootDir] + front;
      ups, names := RootedShape(front);
      assert Fold(cs) == Step(Rooted(ups, names), c) && Fold(rest) == Step(Fold(front), c);
      ups, names := ShapeStep(ups, names, c);
    }
  }

  lemma OnlyTheRoot()
    ensures Fold([]) == Partial(Form(0, []), 0) && Fold([RootDir] + []) == Rooted(0, [])
  {
    assert Form(0, []) == [] && ([RootDir] + [])[..0] == [];
    assert [RootDir] + [] == [RootDir];
  }

  lemma ShapeStep(u: nat, ns: seq<string>, c: Component) returns (ups: nat, names: seq<string>)
    requires c != RootDir
    ensures Step(Partial(Form(u, ns), |ns|), c) == Partial(Form(ups, names), |names|)
    ensures Step(Rooted(u, ns), c) == Rooted(ups, names)
  {
    hide Form;
    ups, names := u, ns;
    match c
    case CurDir =>
    case ParentDir =>
      if ns != [] {
        FormPop(u, ns);
        RootedPop(u, ns);
        names := ns[..|ns| - 1];
      } else {
        FormClimb(u);
        RootedClimb(u);
        ups := u + 1;
      }
    case Normal(name) =>
      FormPush(u, ns, name);
      RootedPush(u, ns, name);
      names := ns + [name];
  }

  /** An absolute path normalizes to its root and what the path behind that normalizes to, but for one leading `..`, if
    * there is any: the root stands in for it. */
  lemma AbsoluteNormalForm(rest: seq<Component>)
    requires Relative(rest)
    ensures var n := Normalize(rest);
      Normalize([RootDir] + rest) == [RootDir] + if n != [] && n[0] == ParentDir then n[1..] else n
  {
    var ups, names := RootedShape(rest);
    var n := Normalize(rest);
    if ups == 0 {
      assert n != [] ==> n[0] == Normal(names[0]);
    } else {
      assert n[1..] == Form(ups - 1, names);
    }
  }

  /** An absolute path's key is itself rooted. */
  lemma AbsoluteKey(path: string)
    requires HasRoot(path)
    ensures HasRoot(NormalizeKey(path))
    ensures NormalizeKey(path) == "/" + ForwardSlashes(Join(Texts(Normalize(Components(path))[1..]), "/"))
  {
    var n := Normalize(Components(path));
    RootStays(Components(path));
    assert Render(n) == "/" + Join(Texts(n[1..]), "/");
    assert ForwardSlashes(Render(n)) == "/" + ForwardSlashes(Join(Texts(n[1..]), "/"));
  }

  /** A relative path's is exactly when its first segment's name starts with a backslash. */
  lemma RelativeKey(path: string)
    requires !HasRoot(path)
    ensures var n := Normalize(Components(path));
      HasRoot(NormalizeKey(path)) <==> n != [] && n[0].Normal? && "\\" <= n[0].name
  {
    hide Components, Normalize;
    var n := Normalize(Components(path));
    NormalizedIsPlain(path);
    PlainHasNoRoot(n);
    if n != [] {
      assert Render(n)[..1] == Texts(n)[0][..1];
    }
  }
}
