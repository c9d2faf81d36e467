/** Tracked, confined reads: what a rule may ask about the project's files, and what each question leaves on record. */
module Files {
  import opened Wrappers
  import opened Words
  import opened Sorting
  import opened Reports
  import opened Paths
  import Utf8

  // ----- The filesystem under a canonical project root -----

  /** A directory entry's name: never empty, and without the two characters no file name can hold. */
  type FileName = s: string | s != "" && '/' !in s && '\0' !in s witness "a"

  datatype Kind = DirectoryKind | LinkKind | OtherKind

  datatype Child = Child(name: FileName, kind: Kind)

  /** What stands at a canonical place. The last two are there and cannot be read. */
  datatype Node = FileNode(bytes: Bytes) | DirectoryNode(children: seq<Child>) | SealedFile | SealedDirectory

  /** What canonicalizing a path from the root gives: nothing, a place out of the root, or a place within it. */
  datatype Resolution = Missing | Outside | Inside(place: seq<string>)

  datatype Fs = Fs(resolve: seq<Component> -> Resolution, at: seq<string> -> Node)

  type Digest = Bytes -> ContentHash

  // ----- Outcomes -----

  datatype ReadError = EscapesRoot(path: string) | Absolute(path: string) | NotText(path: string)

  datatype Outcome = Text(text: string, hash: ContentHash) | Absent | Binary(hash: ContentHash) | Refused

  datatype Listing = Listed(entries: seq<string>) | Unlisted | Refused

  /** The outcomes of everything asked so far, by key. */
  datatype Memo = Memo(seen: map<string, Outcome>, listed: map<string, Listing>)

  const EMPTY := Memo(map[], map[])

  const LANEKEEP_DIRECTORY := ".lanekeep"

  // ----- Reading -----

  /** The filesystem's part of `load`: resolve, check that nothing led out of the root, and only then read. */
  function Look(fs: Fs, digest: Digest, relative: seq<Component>): Outcome {
    match fs.resolve(relative)
    case Missing => Outcome.Absent
    case Outside => Outcome.Refused
    case Inside(place) =>
      match fs.at(place)
      case FileNode(bytes) =>
        (match Utf8.Decode(bytes)
         case Some(text) => Text(text, digest(bytes))
         case None => Binary(digest(bytes)))
      case _ => Outcome.Absent
  }

  /** What the path's text alone rules out, whatever the filesystem holds; otherwise the way from the root. */
  function Confine(path: string): Result<seq<Component>, ReadError> {
    if HasRoot(path) then Err(Absolute(path))
    else
      var normalized := Normalize(Components(path));
      if ParentDir in normalized then Err(EscapesRoot(path)) else Ok(normalized)
  }

  /** `load`. */
  function Load(fs: Fs, digest: Digest, path: string): Result<Outcome, ReadError> {
    match Confine(path)
    case Err(error) => Err(error)
    case Ok(normalized) => Ok(Look(fs, digest, normalized))
  }

  /** The bytes of the file a path leads to, if it leads to one within the root that can be read. */
  function BytesAt(fs: Fs, relative: seq<Component>): Option<Bytes> {
    match fs.resolve(relative)
    case Inside(place) => (match fs.at(place) case FileNode(bytes) => Some(bytes) case _ => None)
    case _ => None
  }

  // ----- Listing -----

  /** `is_directory_in`: links are followed, only as far as the root. */
  predicate IsDirectoryIn(fs: Fs, place: seq<string>, child: Child) {
    match child.kind
    case DirectoryKind => true
    case OtherKind => false
    case LinkKind =>
      match fs.resolve(Form(0, place + [child.name]))
      case Inside(target) => fs.at(target).DirectoryNode? || fs.at(target).SealedDirectory?
      case _ => false
  }

  /** The names a listing gives, in the order the filesystem gives the entries. */
  function EntryNames(fs: Fs, place: seq<string>, children: seq<Child>): (names: seq<string>)
    ensures forall i | 0 <= i < |names| :: '\0' !in names[i]
  {
    if children == [] then []
    else
      var rest := EntryNames(fs, place, children[1..]);
      var child := children[0];
      if place == [] && child.name == LANEKEEP_DIRECTORY then rest
      else [if IsDirectoryIn(fs, place, child) then child.name + "/" else child.name] + rest
  }

  predicate TextLe(a: string, b: string) {
    !CompareText(a, b).Greater?
  }

  /** `list_directory`. */
  function ListDirectory(fs: Fs, relative: seq<Component>): Listing {
    if relative != [] && relative[0] == Normal(LANEKEEP_DIRECTORY) then Listing.Unlisted
    else
      match fs.resolve(relative)
      case Missing => Listing.Unlisted
      case Outside => Listing.Refused
      case Inside(place) =>
        if place != [] && place[0] == LANEKEEP_DIRECTORY then Listing.Unlisted
        else
          match fs.at(place)
          case DirectoryNode(children) => Listing.Listed(SortBy(EntryNames(fs, place, children), TextLe))
          case _ => Listing.Unlisted
  }

  /** `load_listing`. */
  function LoadListing(fs: Fs, path: string): Result<Listing, ReadError> {
    match Confine(path)
    case Err(error) => Err(error)
    case Ok(normalized) => Ok(ListDirectory(fs, normalized))
  }

  /** What is hashed for a listing: each entry and a NUL behind it. */
  function Frame(entries: seq<string>): Bytes {
    if entries == [] then [] else Utf8.Encode(entries[0]) + ([0] + Frame(entries[1..]))
  }

  /** `listing_hash`. */
  function ListingHash(digest: Digest, entries: seq<string>): ContentHash {
    digest(Frame(entries))
  }

  lemma {:induction false} EncodeHasNoNul(text: string)
    requires '\0' !in text
    ensures 0 !in Utf8.Encode(text)
  {
    if text != "" {
      EncodeHasNoNul(text[1..]);
      assert text[0] in text;
    }
  }

  lemma {:induction false} FirstNul(a: Bytes, x: Bytes, b: Bytes, y: Bytes)
    requires 0 !in a && 0 !in b
    requires a + ([0] + x) == b + ([0] + y)
    ensures a == b && x == y
  {
    var s := a + ([0] + x);
    assert s[|a|] == 0 && s[|b|] == 0;
    assert forall i | 0 <= i < |a| :: s[i] == a[i];
    assert forall i | 0 <= i < |b| :: s[i] == b[i];
    assert |a| == |b|;
    assert a == s[..|a|] && b == s[..|b|];
    assert x == s[|a| + 1..] && y == s[|b| + 1..];
  }

  /** The framing is unambiguous. */
  lemma {:induction false} FrameInjective(a: seq<string>, b: seq<string>)
    requires forall i | 0 <= i < |a| :: '\0' !in a[i]
    requires forall i | 0 <= i < |b| :: '\0' !in b[i]
    requires Frame(a) == Frame(b)
    ensures a == b
  {
    if a != [] && b != [] {
      EncodeHasNoNul(a[0]);
      EncodeHasNoNul(b[0]);
      FirstNul(Utf8.Encode(a[0]), Frame(a[1..]), Utf8.Encode(b[0]), Frame(b[1..]));
      Utf8.EncodeInjective(a[0], b[0]);
      FrameInjective(a[1..], b[1..]);
    }
  }

  lemma ListedHasNoNul(fs: Fs, relative: seq<Component>)
    requires ListDirectory(fs, relative).Listed?
    ensures var entries := ListDirectory(fs, relative).entries;
      forall i | 0 <= i < |entries| :: '\0' !in entries[i]
  {
    var place := fs.resolve(relative).place;
    var names := EntryNames(fs, place, fs.at(place).children);
    SortByMembers(names, TextLe);
    var entries := SortBy(names, TextLe);
    forall i | 0 <= i < |entries|
      ensures '\0' !in entries[i]
    {
      assert entries[i] in names;
    }
  }

  // ----- Questions -----

  datatype Question = Read(path: string) | HashOf(path: string) | Exists(path: string) | List(path: string)

  datatype Answer =
    | Contents(text: Result<Option<string>, ReadError>)
    | Hash(hash: Result<Option<ContentHash>, ReadError>)
    | Presence(there: Result<bool, ReadError>)
    | Entries(entries: Result<Option<seq<string>>, ReadError>)

  /** The key a listing is recorded under. */
  function ListingKey(path: string): string {
    if NormalizeKey(path) == "" then "." else NormalizeKey(path)
  }

  /** `resolve`: the memo's outcome if it has one; otherwise the loaded one, recorded unless the path ruled it out. */
  function Resolved(memo: Memo, fs: Fs, digest: Digest, path: string): (Memo, Result<Outcome, ReadError>) {
    var key := NormalizeKey(path);
    if key in memo.seen then (memo, Told(path, memo.seen[key]))
    else
      match Load(fs, digest, path)
      case Err(error) => (memo, Err(error))
      case Ok(outcome) => (memo.(seen := memo.seen[key := outcome]), Told(path, outcome))
  }

  /** `answer`: a refusal is recorded as an outcome, and told as an error. */
  function Told(path: string, outcome: Outcome): Result<Outcome, ReadError> {
    if outcome == Outcome.Refused then Err(EscapesRoot(path)) else Ok(outcome)
  }

  function ContentsOf(path: string, r: Result<Outcome, ReadError>): Result<Option<string>, ReadError> {
    match r
    case Err(error) => Err(error)
    case Ok(Text(text, _)) => Ok(Some(text))
    case Ok(Absent) => Ok(None)
    case Ok(Binary(_)) => Err(NotText(path))
    case Ok(Refused) => Err(EscapesRoot(path))
  }

  function DigestOf(path: string, r: Result<Outcome, ReadError>): Result<Option<ContentHash>, ReadError> {
    match r
    case Err(error) => Err(error)
    case Ok(Text(_, hash)) => Ok(Some(hash))
    case Ok(Absent) => Ok(None)
    case Ok(Binary(_)) => Ok(None)
    case Ok(Refused) => Err(EscapesRoot(path))
  }

  function PresenceOf(r: Result<Outcome, ReadError>): Result<bool, ReadError> {
    match r
    case Err(error) => Err(error)
    case Ok(outcome) => Ok(!outcome.Absent?)
  }

  function EntriesOf(path: string, listing: Listing): Result<Option<seq<string>>, ReadError> {
    match listing
    case Listed(entries) => Ok(Some(entries))
    case Unlisted => Ok(None)
    case Refused => Err(EscapesRoot(path))
  }

  /** `list`. */
  function ResolveListing(memo: Memo, fs: Fs, path: string): (Memo, Result<Option<seq<string>>, ReadError>) {
    var key := ListingKey(path);
    if key in memo.listed then (memo, EntriesOf(path, memo.listed[key]))
    else
      match LoadListing(fs, path)
      case Err(error) => (memo, Err(error))
      case Ok(listing) => (memo.(listed := memo.listed[key := listing]), EntriesOf(path, listing))
  }

  /** One question, asked while the filesystem is `fs`. */
  function Ask(memo: Memo, fs: Fs, digest: Digest, question: Question): (Memo, Answer) {
    match question
    case Read(path) =>
      var (after, r) := Resolved(memo, fs, digest, path); (after, Contents(ContentsOf(path, r)))
    case HashOf(path) =>
      var (after, r) := Resolved(memo, fs, digest, path); (after, Hash(DigestOf(path, r)))
    case Exists(path) =>
      var (after, r) := Resolved(memo, fs, digest, path); (after, Presence(PresenceOf(r)))
    case List(path) =>
      var (after, r) := ResolveListing(memo, fs, path); (after, Entries(r))
  }

  // ----- Dependencies -----

  function FileRecord(key: string, outcome: Outcome): TrackedRead {
    TrackedRead(FilePath(key),
      match outcome
      case Text(_, hash) => Found(hash)
      case Binary(hash) => Found(hash)
      case Absent => ReadOutcome.Absent
      case Refused => ReadOutcome.Refused)
  }

  function ListingRecord(digest: Digest, key: string, listing: Listing): TrackedRead {
    TrackedRead(FilePath(key),
      match listing
      case Listed(entries) => ReadOutcome.Listed(ListingHash(digest, entries))
      case Unlisted => ReadOutcome.Unlisted
      case Refused => ReadOutcome.Refused)
  }

  ghost function FileRecords(seen: map<string, Outcome>): set<TrackedRead> {
    set key | key in seen :: FileRecord(key, seen[key])
  }

  ghost function ListingRecords(digest: Digest, listed: map<string, Listing>): set<TrackedRead> {
    set key | key in listed :: ListingRecord(digest, key, listed[key])
  }

  ghost function Records(memo: Memo, digest: Digest): set<TrackedRead> {
    FileRecords(memo.seen) + ListingRecords(digest, memo.listed)
  }

  /** The derived order of outcomes, as bytes: the variant, then its digest. */
  function OutcomeKey(outcome: ReadOutcome): Bytes {
    match outcome
    case Found(hash) => [0] + hash
    case Absent => [1]
    case Refused => [2]
    case Listed(hash) => [3] + hash
    case Unlisted => [4]
  }

  function CompareRecords(a: TrackedRead, b: TrackedRead): Ordering {
    CompareText(a.path, b.path).Then(Compare(OutcomeKey(a.outcome), OutcomeKey(b.outcome)))
  }

  predicate RecordLe(a: TrackedRead, b: TrackedRead) {
    !CompareRecords(a, b).Greater?
  }

  /** `dependencies`: by path and then by outcome, each record once. */
  ghost function DependenciesOf(memo: Memo, digest: Digest): seq<TrackedRead> {
    InOrder(Records(memo, digest), RecordLe)
  }

  /** Where the outcomes of one path stand among its records. */
  function Rank(outcome: ReadOutcome): nat {
    match outcome
    case Found(_) => 0
    case Absent => 1
    case Refused => 2
    case Listed(_) => 3
    case Unlisted => 4
  }

  /** Records are ordered by the bytes of their paths, then by what became of them, then by digest. */
  lemma RecordsInOrder(a: TrackedRead, b: TrackedRead)
    ensures CompareText(a.path, b.path).Less? ==> RecordLe(a, b) && !RecordLe(b, a)
    ensures a.path == b.path && Rank(a.outcome) < Rank(b.outcome) ==> RecordLe(a, b) && !RecordLe(b, a)
    ensures a.path == b.path && a.outcome.Found? && b.outcome.Found? ==>
      (RecordLe(a, b) <==> !Compare(a.outcome.hash, b.outcome.hash).Greater?)
    ensures a.path == b.path && a.outcome.Listed? && b.outcome.Listed? ==>
      (RecordLe(a, b) <==> !Compare(a.outcome.hash, b.outcome.hash).Greater?)
  {
    hide CompareText;
    CompareTextReverse(a.path, b.path);
    CompareTextEqual(a.path, b.path);
    if a.outcome.Found? || a.outcome.Listed? {
      assert OutcomeKey(a.outcome)[1..] == a.outcome.hash;
    }
    if b.outcome.Found? || b.outcome.Listed? {
      assert OutcomeKey(b.outcome)[1..] == b.outcome.hash;
    }
  }

  lemma OutcomeKeyInjective(a: ReadOutcome, b: ReadOutcome)
    ensures OutcomeKey(a) == OutcomeKey(b) <==> a == b
  {
    if OutcomeKey(a) == OutcomeKey(b) {
      assert OutcomeKey(a)[0] == OutcomeKey(b)[0];
      assert OutcomeKey(a)[1..] == OutcomeKey(b)[1..];
    }
  }

  lemma CompareRecordsLaws(a: TrackedRead, b: TrackedRead, c: TrackedRead)
    ensures CompareRecords(a, b).Equal? <==> a == b
    ensures CompareRecords(b, a) == CompareRecords(a, b).Reverse()
    ensures Chains(CompareRecords(a, b), CompareRecords(b, c), CompareRecords(a, c))
  {
    hide CompareText, Compare, OutcomeKey;
    var x, y, z := OutcomeKey(a.outcome), OutcomeKey(b.outcome), OutcomeKey(c.outcome);
    CompareTextEqual(a.path, b.path);
    CompareTextReverse(a.path, b.path);
    CompareTextChains(a.path, b.path, c.path);
    OutcomeKeyInjective(a.outcome, b.outcome);
    CompareEqual(x, y);
    CompareEqual(y, z);
    CompareEqual(x, z);
    CompareReverse(x, y);
    if !Compare(x, y).Greater? && !Compare(y, z).Greater? {
      CompareTransitive(x, y, z);
    }
  }

  lemma RecordLeIsTotalOrder()
    ensures Preorder(RecordLe) && Antisymmetric(RecordLe)
  {
    hide CompareRecords;
    forall a, b, c
      ensures RecordLe(a, b) || RecordLe(b, a)
      ensures RecordLe(a, b) && RecordLe(b, a) ==> a == b
      ensures RecordLe(a, b) && RecordLe(b, c) ==> RecordLe(a, c)
    {
      CompareRecordsLaws(a, b, c);
    }
  }

  lemma TextLeIsTotalOrder()
    ensures Preorder(TextLe) && Antisymmetric(TextLe)
  {
    hide CompareText;
    forall a, b, c
      ensures TextLe(a, b) || TextLe(b, a)
      ensures TextLe(a, b) && TextLe(b, a) ==> a == b
      ensures TextLe(a, b) && TextLe(b, c) ==> TextLe(a, c)
    {
      CompareTextEqual(a, b);
      CompareTextReverse(a, b);
      CompareTextChains(a, b, c);
    }
  }

  /** The dependencies are the records of everything asked, each once, by path and then by outcome. */
  lemma DependenciesAreOrdered(memo: Memo, digest: Digest)
    ensures var dependencies := DependenciesOf(memo, digest);
      && SortedBy(dependencies, RecordLe) && Distinct(dependencies)
      && forall read :: read in dependencies <==> read in Records(memo, digest)
  {
    hide Records, RecordLe;
    RecordLeIsTotalOrder();
    SortBySorted(Elements(Records(memo, digest)), RecordLe);
    InOrderIsDistinct(Records(memo, digest), RecordLe);
    InOrderMembers(Records(memo, digest), RecordLe);
  }

  // ----- The class -----

  /** One record a key, in path order. */
  method FileReads(seen: map<string, Outcome>) returns (records: seq<TrackedRead>)
    ensures forall r :: r in records <==> r in FileRecords(seen)
  {
    hide FileRecord, InOrder, TextLe;
    TextLeIsTotalOrder();
    var paths := SortedElements(seen.Keys, TextLe);
    InOrderMembers(seen.Keys, TextLe);
    records := [];
    for i := 0 to |paths|
      invariant forall r | r in records :: r in FileRecords(seen)
      invariant forall j | 0 <= j < i :: FileRecord(paths[j], seen[paths[j]]) in records
    {
      assert paths[i] in seen;
      records := records + [FileRecord(paths[i], seen[paths[i]])];
    }
  }

  method ListingReads(digest: Digest, listed: map<string, Listing>) returns (records: seq<TrackedRead>)
    ensures forall r :: r in records <==> r in ListingRecords(digest, listed)
  {
    hide ListingRecord, InOrder, TextLe;
    TextLeIsTotalOrder();
    var directories := SortedElements(listed.Keys, TextLe);
    InOrderMembers(listed.Keys, TextLe);
    records := [];
    for i := 0 to |directories|
      invariant forall r | r in records :: r in ListingRecords(digest, listed)
      invariant forall j | 0 <= j < i :: ListingRecord(digest, directories[j], listed[directories[j]]) in records
    {
      assert directories[i] in listed;
      records := records + [ListingRecord(digest, directories[i], listed[directories[i]])];
    }
  }

  class FileAccess {
    var seen: map<string, Outcome>
    var listed: map<string, Listing>

    function State(): Memo
      reads this
    {
      Memo(seen, listed)
    }

    constructor ()
      ensures State() == EMPTY
    {
      seen, listed := map[], map[];
    }

    method Resolve(fs: Fs, digest: Digest, path: string) returns (r: Result<Outcome, ReadError>)
      modifies this
      ensures (State(), r) == Resolved(old(State()), fs, digest, path)
    {
      var key := NormalizeKey(path);
      if key in seen {
        return Told(path, seen[key]);
      }
      match Load(fs, digest, path)
      case Err(error) =>
        return Err(error);
      case Ok(outcome) =>
        seen := seen[key := outcome];
        return Told(path, outcome);
    }

    method Read(fs: Fs, digest: Digest, path: string) returns (r: Result<Option<string>, ReadError>)
      modifies this
      ensures (State(), Contents(r)) == Ask(old(State()), fs, digest, Question.Read(path))
    {
      var outcome := Resolve(fs, digest, path);
      return ContentsOf(path, outcome);
    }

    method HashOf(fs: Fs, digest: Digest, path: string) returns (r: Result<Option<ContentHash>, ReadError>)
      modifies this
      ensures (State(), Hash(r)) == Ask(old(State()), fs, digest, Question.HashOf(path))
    {
      var outcome := Resolve(fs, digest, path);
      return DigestOf(path, outcome);
    }

    method Exists(fs: Fs, digest: Digest, path: string) returns (r: Result<bool, ReadError>)
      modifies this
      ensures (State(), Presence(r)) == Ask(old(State()), fs, digest, Question.Exists(path))
    {
      var outcome := Resolve(fs, digest, path);
      return PresenceOf(outcome);
    }

    method List(fs: Fs, digest: Digest, path: string) returns (r: Result<Option<seq<string>>, ReadError>)
      modifies this
      ensures (State(), Entries(r)) == Ask(old(State()), fs, digest, Question.List(path))
    {
      var key := ListingKey(path);
      if key in listed {
        return EntriesOf(path, listed[key]);
      }
      match LoadListing(fs, path)
      case Err(error) =>
        return Err(error);
      case Ok(listing) =>
        listed := listed[key := listing];
        return EntriesOf(path, listing);
    }

    /** Collects the file records, then the listings', sorts the lot and drops repetitions. */
    method Dependencies(digest: Digest) returns (all: seq<TrackedRead>)
      ensures all == DependenciesOf(State(), digest)
    {
      hide FileRecords, ListingRecords, RecordLe, InOrder;
      RecordLeIsTotalOrder();
      var files := FileReads(seen);
      var listings := ListingReads(digest, listed);
      all := files + listings;
      assert (set r | r in all) == Records(State(), digest);
      DedupIsInOrder(all, RecordLe);
      all := Dedup(SortBy(all, RecordLe));
    }

    method Clear()
      modifies this
      ensures State() == EMPTY
    {
      seen, listed := map[], map[];
    }
  }
}
