/** What the answers of a run say about the files: the meaning a rule relies on. */
module Answers {
  import opened Wrappers
  import opened Words
  import opened Reports
  import opened Paths
  import opened Files
  import opened Listings
  import opened Projects
  import opened Replay
  import Backslashes
  import Text
  import Utf8

  // ----- Confinement -----

  lemma WayDown(cs: seq<Component>)
    requires Relative(cs)
    ensures ParentDir in Normalize(cs) <==> ClimbsOut(cs)
    ensures !ClimbsOut(cs) ==> exists names :: Normalize(cs) == Form(0, names) && Walk([], cs) == Some(names)
  {
    hide ClimbsOut, Walk, Height, Lowest, Fold, Form;
    ParentKeptIffClimbsOut(cs);
    LowestIsNegative(cs);
    var names := KeptParents(cs);
    SameMeaning([], cs);
    WalkForm([], 0 - Lowest(cs), names);
    assert [] + names == names;
  }

  /** A path is ruled out by its text exactly when it is absolute or climbs above the root; any other is followed down
    * from the root to where it leads. */
  lemma ConfineMeans(path: string)
    ensures Confine(path) == Err(Absolute(path)) <==> HasRoot(path)
    ensures Confine(path) == Err(EscapesRoot(path)) <==> !HasRoot(path) && ClimbsOut(Components(path))
    ensures Confine(path).Err? ==> HasRoot(path) || ClimbsOut(Components(path))
    ensures Confine(path).Ok? ==> exists names ::
              Confine(path).value == Form(0, names) && Walk([], Components(path)) == Some(names)
  {
    hide Components, Normalize, ClimbsOut, Walk, Form;
    if !HasRoot(path) {
      RelativePath(path);
      WayDown(Components(path));
    }
  }

  // ----- Where an answer comes from -----

  /** The filesystem of the step that recorded the key as a file's, and the way it was looked up there. */
  function FileOrigin(rule: Rule, digest: Digest, fss: seq<Fs>, key: string): Option<(Fs, seq<Component>)>
    decreases |fss|
  {
    if fss == [] then None
    else
      var before := fss[..|fss| - 1];
      match FileOrigin(rule, digest, before, key)
      case Some(origin) => Some(origin)
      case None =>
        match rule(RunOver(rule, digest, before).answers)
        case None => None
        case Some(question) =>
          if !question.List? && NormalizeKey(question.path) == key && Confine(question.path).Ok? then
            Some((fss[|fss| - 1], Confine(question.path).value))
          else None
  }

  /** The same for a directory. */
  function ListingOrigin(rule: Rule, digest: Digest, fss: seq<Fs>, key: string): Option<(Fs, seq<Component>)>
    decreases |fss|
  {
    if fss == [] then None
    else
      var before := fss[..|fss| - 1];
      match ListingOrigin(rule, digest, before, key)
      case Some(origin) => Some(origin)
      case None =>
        match rule(RunOver(rule, digest, before).answers)
        case None => None
        case Some(question) =>
          if question.List? && ListingKey(question.path) == key && Confine(question.path).Ok? then
            Some((fss[|fss| - 1], Confine(question.path).value))
          else None
  }

  lemma {:induction false} SeenExactly(rule: Rule, digest: Digest, fss: seq<Fs>, key: string)
    ensures var memo, origin := Recorded(rule, digest, fss), FileOrigin(rule, digest, fss, key);
      && (key in memo.seen <==> origin.Some?)
      && (origin.Some? ==> memo.seen[key] == Look(origin.value.0, digest, origin.value.1))
    decreases |fss|
  {
    hide NormalizeKey, ListingKey, Confine, Look, ListDirectory;
    if fss != [] {
      SeenExactly(rule, digest, fss[..|fss| - 1], key);
    }
  }

  lemma {:induction false} ListedExactly(rule: Rule, digest: Digest, fss: seq<Fs>, key: string)
    ensures var memo, origin := Recorded(rule, digest, fss), ListingOrigin(rule, digest, fss, key);
      && (key in memo.listed <==> origin.Some?)
      && (origin.Some? ==> memo.listed[key] == ListDirectory(origin.value.0, origin.value.1))
    decreases |fss|
  {
    hide NormalizeKey, ListingKey, Confine, Look, ListDirectory;
    if fss != [] {
      ListedExactly(rule, digest, fss[..|fss| - 1], key);
    }
  }

  /** Where a question about a file is answered from: the step that recorded its key, else here and now, else
    * nowhere. */
  function FileSource(rule: Rule, digest: Digest, fss: seq<Fs>, fs: Fs, path: string): Option<(Fs, seq<Component>)> {
    match FileOrigin(rule, digest, fss, NormalizeKey(path))
    case Some(origin) => Some(origin)
    case None => match Confine(path) case Err(_) => None case Ok(n) => Some((fs, n))
  }

  function ListingSource(rule: Rule, digest: Digest, fss: seq<Fs>, fs: Fs, path: string): Option<(Fs, seq<Component>)> {
    match ListingOrigin(rule, digest, fss, ListingKey(path))
    case Some(origin) => Some(origin)
    case None => match Confine(path) case Err(_) => None case Ok(n) => Some((fs, n))
  }

  // ----- What it says -----

  predicate IsBinary(bytes: Option<Bytes>) {
    bytes.Some? && !Utf8.Valid(bytes.value)
  }

  /** A text exactly when the bytes there are that text's, and an error exactly when they are no text's or out of
    * reach. */
  ghost predicate ReadTells(fs: Fs, n: seq<Component>, path: string, answer: Answer) {
    && (forall text :: answer == Contents(Ok(Some(text))) <==> BytesAt(fs, n) == Some(Utf8.Encode(text)))
    && (answer == Contents(Err(NotText(path))) <==> IsBinary(BytesAt(fs, n)))
    && (answer == Contents(Err(EscapesRoot(path))) <==> fs.resolve(n).Outside?)
    && (answer == Contents(Ok(None)) <==> BytesAt(fs, n).None? && !fs.resolve(n).Outside?)
  }

  lemma LookTells(fs: Fs, digest: Digest, n: seq<Component>, path: string)
    ensures ReadTells(fs, n, path, Contents(ContentsOf(path, Told(path, Look(fs, digest, n)))))
  {
    hide Utf8.Decode, Utf8.Encode;
    forall text
      ensures BytesAt(fs, n) == Some(Utf8.Encode(text))
         <==> BytesAt(fs, n).Some? && Utf8.Decode(BytesAt(fs, n).value) == Some(text)
    {
      if BytesAt(fs, n).Some? {
        Utf8.DecodeExact(BytesAt(fs, n).value, text);
      }
    }
  }

  /** In any run, reading a path tells of the file as it was when its key was first asked for; or is refused by its
    * text. */
  lemma ReadMeans(rule: Rule, digest: Digest, fss: seq<Fs>, fs: Fs, path: string)
    ensures var answer := Ask(Recorded(rule, digest, fss), fs, digest, Question.Read(path)).1;
      match FileSource(rule, digest, fss, fs, path)
      case None => Confine(path).Err? && answer == Contents(Err(Confine(path).error))
      case Some((there, n)) => ReadTells(there, n, path, answer)
  {
    hide NormalizeKey, Look, ReadTells, RunOver, FileOrigin;
    SeenExactly(rule, digest, fss, NormalizeKey(path));
    var source := FileSource(rule, digest, fss, fs, path);
    if source.Some? {
      LookTells(source.value.0, digest, source.value.1, path);
    }
  }

  /** A text is given its bytes' hash, and what is no text or is not there is given none; a file that is no text is
    * there all the same. */
  lemma HashAndPresenceMean(rule: Rule, digest: Digest, fss: seq<Fs>, fs: Fs, path: string)
    ensures var memo, source := Recorded(rule, digest, fss), FileSource(rule, digest, fss, fs, path);
      var hashed := Ask(memo, fs, digest, Question.HashOf(path)).1;
      var there := Ask(memo, fs, digest, Question.Exists(path)).1;
      match source
      case None => hashed == Hash(Err(Confine(path).error)) && there == Presence(Err(Confine(path).error))
      case Some((earlier, n)) =>
        && (forall hash ::
              hashed == Hash(Ok(Some(hash)))
              <==> (BytesAt(earlier, n).Some? && !IsBinary(BytesAt(earlier, n))
                    && hash == digest(BytesAt(earlier, n).value)))
        && (hashed == Hash(Ok(None))
            <==> !earlier.resolve(n).Outside? && (BytesAt(earlier, n).None? || IsBinary(BytesAt(earlier, n))))
        && (hashed == Hash(Err(EscapesRoot(path))) <==> earlier.resolve(n).Outside?)
        && (there == Presence(Ok(true)) <==> BytesAt(earlier, n).Some?)
        && (there == Presence(Ok(false)) <==> BytesAt(earlier, n).None? && !earlier.resolve(n).Outside?)
        && (there == Presence(Err(EscapesRoot(path))) <==> earlier.resolve(n).Outside?)
  {
    hide NormalizeKey, RunOver, FileOrigin, Utf8.Decode;
    SeenExactly(rule, digest, fss, NormalizeKey(path));
  }

  /** And listing it tells of the directory as it was when its key was first listed. */
  lemma ListMeans(rule: Rule, digest: Digest, fss: seq<Fs>, fs: Fs, path: string)
    ensures var answer := Ask(Recorded(rule, digest, fss), fs, digest, Question.List(path)).1;
      match ListingSource(rule, digest, fss, fs, path)
      case None => Confine(path).Err? && answer == Entries(Err(Confine(path).error))
      case Some((there, n)) => answer.Entries? && ListTells(there, n, path, answer.entries)
  {
    hide NormalizeKey, ListingKey, RunOver, ListingOrigin, ListDirectory, ListTells;
    ListedExactly(rule, digest, fss, ListingKey(path));
    var source := ListingSource(rule, digest, fss, fs, path);
    if source.Some? {
      ListingTells(source.value.0, source.value.1, path);
    }
  }

  /** A listing is recorded under the path's key, and the root's under a dot. */
  lemma ListedUnder(fs: Fs, digest: Digest, path: string)
    ensures Ask(EMPTY, fs, digest, Question.List(path)).0.listed.Keys ==
      match Confine(path)
      case Err(_) => {}
      case Ok(n) => {if n == [] then "." else NormalizeKey(path)}
  {
    hide Components, Normalize, ListDirectory, IsPlain;
    if Confine(path).Ok? {
      var n := Confine(path).value;
      RelativePath(path);
      NormalizedIsPlain(path);
      KeyIsEmpty(n);
    }
  }

  lemma KeyIsEmpty(n: seq<Component>)
    requires IsPlain(n)
    ensures ForwardSlashes(Render(n)) == "" <==> n == []
  {
    if n == [] {
      assert Texts(n) == [];
    } else {
      assert Texts(n)[0] == ComponentText(n[0]) != "";
    }
  }

  // ----- Refusals -----

  function Refusal(question: Question, error: ReadError): Answer {
    match question
    case Read(_) => Contents(Err(error))
    case HashOf(_) => Hash(Err(error))
    case Exists(_) => Presence(Err(error))
    case List(_) => Entries(Err(error))
  }

  /** The step that recorded something under the question's key, and the way it was looked up there. */
  function Origin(rule: Rule, digest: Digest, fss: seq<Fs>, question: Question): Option<(Fs, seq<Component>)> {
    if question.List? then ListingOrigin(rule, digest, fss, ListingKey(question.path))
    else FileOrigin(rule, digest, fss, NormalizeKey(question.path))
  }

  /** It was recorded as leading out of the root. */
  predicate WasRefused(question: Question, origin: (Fs, seq<Component>)) {
    && origin.0.resolve(origin.1).Outside?
    && (question.List? ==> origin.1 == [] || origin.1[0] != Normal(LANEKEEP_DIRECTORY))
  }

  lemma OriginIsKnown(rule: Rule, digest: Digest, fss: seq<Fs>, question: Question)
    ensures var memo, origin := Recorded(rule, digest, fss), Origin(rule, digest, fss, question);
      && (IsKnown(memo, question) <==> origin.Some?)
      && (origin.Some? ==>
            if question.List? then
              && memo.listed[ListingKey(question.path)] == ListDirectory(origin.value.0, origin.value.1)
              && (memo.listed[ListingKey(question.path)].Refused? <==> WasRefused(question, origin.value))
            else
              && memo.seen[NormalizeKey(question.path)] == Look(origin.value.0, digest, origin.value.1)
              && (memo.seen[NormalizeKey(question.path)].Refused? <==> WasRefused(question, origin.value)))
  {
    hide NormalizeKey, ListingKey, RunOver, FileOrigin, ListingOrigin, Utf8.Decode, EntryNames, Sorting.SortBy;
    if question.List? {
      ListedExactly(rule, digest, fss, ListingKey(question.path));
    } else {
      SeenExactly(rule, digest, fss, NormalizeKey(question.path));
    }
  }

  /** A path ruled out by its text is refused for that exactly when no path recorded before shares its key; unless that
    * one was refused too, for leading out of the root. */
  lemma RuledOutIsRefusedExactly(rule: Rule, digest: Digest, fss: seq<Fs>, fs: Fs, question: Question)
    requires Confine(question.path).Err?
    ensures var origin := Origin(rule, digest, fss, question);
      Ask(Recorded(rule, digest, fss), fs, digest, question).1 == Refusal(question, Confine(question.path).error)
      <==> origin.None? || (!HasRoot(question.path) && WasRefused(question, origin.value))
  {
    hide NormalizeKey, ListingKey, RunOver, Origin, WasRefused, Look, ListDirectory, Recorded;
    OriginIsKnown(rule, digest, fss, question);
  }

  lemma UpAndDown(name: string)
    requires IsSegment(name) && '\\' !in name
    ensures Confine("../" + name) == Err(EscapesRoot("../" + name)) && NormalizeKey("../" + name) == "../" + name
  {
    var n := [ParentDir, Normal(name)];
    assert n == Form(1, [name]);
    assert Texts(n) == ["..", name] && ["..", name][1..] == [name];
    assert Text.Join([name], "/") == name;
    assert Render(n) == Text.Join(["..", name], "/") == ".." + ("/" + name) == "../" + name;
    ComponentsOfRendered(n);
    assert IsNormalForm(n) && Relative(n);
    NormalizeIsTheNormalForm(n, n);
    NoBackslash(Render(n));
    assert n[0] == ParentDir;
  }

  /** Once a rule has read `..\x`, a name, reading `../x` is answered: nothing is there. */
  lemma AliasedRefusal(digest: Digest)
    ensures Confine("../x") == Err(EscapesRoot("../x"))
    ensures var once: Rule := answers => if answers == [] then Some(Question.Read("..\\x")) else None;
      var bare := Lane([], DirectoryTip);
      Ask(Recorded(once, digest, [bare]), bare, digest, Question.Read("../x")).1 == Contents(Ok(None))
  {
    hide Confine, NormalizeKey, Lane, Ask, Form;
    var once: Rule := answers => if answers == [] then Some(Question.Read("..\\x")) else None;
    var bare, name := Lane([], DirectoryTip), "..\\x";
    Backslashes.OneSegment(name);
    UpAndDown("x");
    assert ForwardSlashes(name) == "../x" == "../" + "x";
    assert [bare][..0] == [];
    assert FileOrigin(once, digest, [], "../x") == None;
    assert FileOrigin(once, digest, [bare], "../x") == Some((bare, Form(0, [name])));
    NothingInBare([name]);
    ReadMeans(once, digest, [bare], bare, "../x");
  }

  function Thrice(): Rule {
    answers =>
      if |answers| == 1 then Some(Question.Read("..\\x"))
      else if |answers| <= 2 then Some(Question.Read("../x"))
      else None
  }

  /** A rule that reads `../x`, then `..\x`, and then `../x` again is refused at first and answered at last. */
  lemma AnswerChanges(digest: Digest)
    ensures var bare := Lane([], DirectoryTip);
      RunOver(Thrice(), digest, [bare, bare, bare]).answers
      == [Contents(Err(EscapesRoot("../x"))), Contents(Ok(None)), Contents(Ok(None))]
  {
    hide Lane, Ask;
    var bare := Lane([], DirectoryTip);
    ThreeAnswers(digest);
    var once: Memo := Memo(map["../x" := Outcome.Absent], map[]);
    assert [bare][..0] == [] && [bare, bare][..1] == [bare] && [bare, bare, bare][..2] == [bare, bare];
    assert RunOver(Thrice(), digest, []) == Run(EMPTY, []);
    var first: seq<Answer> := [Contents(Err(EscapesRoot("../x")))];
    assert RunOver(Thrice(), digest, [bare]) == Run(EMPTY, first);
    assert RunOver(Thrice(), digest, [bare, bare]) == Run(once, first + [Contents(Ok(None))]);
  }

  lemma ThreeAnswers(digest: Digest)
    ensures var bare, once := Lane([], DirectoryTip), Memo(map["../x" := Outcome.Absent], map[]);
      && Ask(EMPTY, bare, digest, Question.Read("../x")) == (EMPTY, Contents(Err(EscapesRoot("../x"))))
      && Ask(EMPTY, bare, digest, Question.Read("..\\x")) == (once, Contents(Ok(None)))
      && Ask(once, bare, digest, Question.Read("../x")) == (once, Contents(Ok(None)))
  {
    hide Confine, NormalizeKey, Lane, Form;
    var name := "..\\x";
    Backslashes.OneSegment(name);
    UpAndDown("x");
    assert ForwardSlashes(name) == "../x" == "../" + "x";
    NothingInBare([name]);
  }
}
