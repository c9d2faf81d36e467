# lanekeep, modelled and proved in Dafny

lanekeep is a deterministic checker. A file's result may be cached and reused, so its trust rests on a handful of small
algorithms being exactly right: what a rule may ask about the project's files and how a cached result is revalidated,
the cache's byte formats and keys, the choice and application of fixes, the matching of `*` patterns, suppression
directives and their dates, the baseline filter, and the pausable execution budget. This project models those parts
after the source, with the same branches, constants and error cases, and proves what the source promises of them.
`dafny verify dfyconfig.toml` checks all of it.

## How it is laid out

| file | what it models |
|---|---|
| `Wrappers`, `Words`, `Text`, `Utf8`, `Sorting` | results, machine words, `str` operations, UTF-8, byte order and the sorted iteration of maps |
| `RuleIds`, `Reports` | rule ids; violations, facts, tracked reads and file paths as values |
| `Paths` | path components and lexical normalization |
| `Files`, `Projects` | tracked, confined reads and listings; the filesystems they are asked of |
| `Answers` | what the answers of a run mean |
| `Listings`, `OwnWrites`, `FirstRuns` | what a listing shows; when lanekeep's own directory shows in none, and when what is written there does |
| `Replay`, `Backslashes`, `CacheHits` | validation, and why it stands for running a rule again; the one kind of question for which it does not; the cache from end to end |
| `Wire`, `Entries`, `EntryEncoder`, `EntryDecoder` | the entry format as a composition of codecs, and the code that writes and reads it |
| `Stores`, `CacheKeys` | the cache file, and the bytes its keys are digests of |
| `Fixes`, `FixOrder`, `EditOrder` | choosing fixes and editing them in; when the order they are offered in changes the choice, and when the text |
| `Glob`, `GoGlob` | the wildcard matcher of the Python library on code points, and of the Go library on bytes |
| `Calendar`, `Suppressions`, `Directives`, `Readings` | day numbers and dates, finding a directive, reading one; what is read and what is malformed |
| `Baselines`, `Limits` | the counting filter; the pausable budget |

Code that updates state in steps is a method or a class proved against a specification function, and the promises are
lemmas about that function. `Entries.Decode` is the case in point: `EntryDecoder` moves a cursor through the bytes as
the source does, and is proved to compute a composition of small codecs, each of which is exact in both directions.

Text is a sequence of Unicode scalar values and files are sequences of bytes; `Utf8` ties the two. A filesystem is a
function from paths below the root to what canonicalizing them gives, and from canonical places to what stands there;
a theorem that needs more of them asks for a well-formed one (`Projects.WellFormed`), and every input that shows a
property to fail is one. A rule is a strategy that asks its next question after the answers so far, and a run sees a possibly different
filesystem at each step. The digest is a parameter. No theorem supposes it injective, which no 32-byte digest is;
`NoCollision` asks that it tell a path's bytes in a filesystem of the recorded run from its bytes now.

## Where the code and what is said of it differ

- `files.rs:623-627` rewrites backslashes in keys, so on Unix a name holding one is recorded under another path.
  `Backslashes.ReplaySafeExactly` says exactly which questions this makes unsafe to revalidate. It also lets a path
  that is ruled out by its text be answered from the memo, where `files.rs:109-117` has it always refused
  (`Answers.RuledOutIsRefusedExactly`, `Answers.AliasedRefusal`).
- `files.rs:16-21` has a run answer one question one way. A path ruled out by its text is answered otherwise once
  another path has been recorded under its key; `Replay.SameQuestionSameAnswer` says exactly when, and
  `Answers.AnswerChanges` is such a run.
- `files.rs:546-550` calls `.lanekeep` invisible to listings. A link into it is marked as a directory once its target
  exists (`FirstRuns.LinkIntoOwnIsVisible`), one that leads through it to another directory comes to be marked and
  listed (`FirstRuns.LinkThroughOwnIsVisible`), and a link outside the root may lead back into it that way
  (`FirstRuns.LinkFromOutsideIsVisible`). `OwnWrites.WritesAreInvisibleExactly` says which links and paths make a run's
  writes visible, and `Listings.OwnDirectoryIsInvisibleExactly` when any two states of the directory differ to a listing.
- `fix.rs:90` has the fix that starts earlier win where two overlap. One that is itself claimed does not
  (`FixOrder.EarlierWinsUnlessClaimed`, `FixOrder.ChainCounterexample`).
- `fix.rs:90-92` and `fix.rs:100-103` say the choice among overlapping fixes, and the output, do not depend on the
  order rules ran in. With two different fixes for one range they may: `FixOrder.OrderFreeExactly` says exactly when
  the choice does and `EditOrder.OutputFreeExactly` when the text does, each with an input.
- `FixOutcome.applied` (`fix.rs:71-72`) counts the chosen fixes, those declined for cutting a character included. It is
  the number of edits made exactly when both ends of every chosen fix are character boundaries (`Fixes.Apply`); for
  `é` and a fix of its second byte it is not (`Fixes.DeclinedIsCounted`).
- `rule_id.rs:265-273` says ids sort as their rendered strings do. They do unless one namespace is the other followed
  by a hyphen, as those of `a/x` and `a-b/x` (`RuleIds.OrderIsRenderedOrder`, `RuleIds.HyphenCounterexample`).
- `suppression.rs:113-121` states the horizon check without condition. Past year 65535 `add_days` falls back to 1970,
  and for dates no calendar has it stays exact only up to one day past the end of the month.
- A zero timeout armed at clock zero trips a nanosecond late (`Limits.ZeroBudgetAtTheStart`).
- `FilePath::new` rewrites the paths an entry is decoded with, so bytes that decode are the entry's encoding exactly
  when their paths are ones it leaves alone (`Entries.CanonicalExactly`, `Entries.TwoEncodings`).

## Model

| member | source | states |
|---|---|---|
| `Paths.NormalizePath` | `crates/lanekeep-core/src/files.rs:645-668` | The loop over `out` and `depth` computes `Normalize` of the path's components, the root of an absolute path and a `..` popping it included |
| `Paths.NormalizeIsTheNormalForm` | `crates/lanekeep-core/src/files.rs:629-668` | A path is the normalization of a relative one if and only if it is some `..`s followed by real segments and leads to the same place from every start, however shallow |
| `Paths.NormalizeIdempotent` | `crates/lanekeep-core/src/files.rs:645-668` | Normalizing twice is normalizing once |
| `Paths.NormalizeHalfway` | `crates/lanekeep-core/src/files.rs:645-668` | normalize(p/q) == normalize(normalize(p)/q) for all relative p and q |
| `Paths.ParentKeptIffClimbsOut` | `crates/lanekeep-core/src/files.rs:634-639` | A `..` survives exactly when some prefix of the path climbs above its start, so the containment check sees every lexical escape |
| `Paths.KeptParents` | `crates/lanekeep-core/src/files.rs:634-639` | As many `..`s survive as the deepest climb has levels: a later `..` never consumes an earlier marker |
| `Paths.ComponentsOfRendered` | `crates/lanekeep-core/src/files.rs:623-627` | A normalized path's text splits back into the components it was rendered from |
| `Paths.KeyLeadsBack` | `crates/lanekeep-core/src/files.rs:622-627` | A recorded key leads where the path led exactly when no segment of the normal form holds a backslash; then it is also its own normal form and a fixed point of `FilePath::new` |
| `Paths.AbsoluteKey` | `crates/lanekeep-core/src/files.rs:475-486` | An absolute path's key is itself rooted: a slash and the text of what its normal form holds behind the root |
| `Paths.AbsoluteNormalForm` | `crates/lanekeep-core/src/files.rs:645-668` | An absolute path normalizes to the root and what the path behind it normalizes to, but for one leading `..`, for which the root stands in |
| `Paths.RelativeKey` | `crates/lanekeep-core/src/files.rs:622-627` | A relative path's key is rooted exactly when the first segment of its normal form has a name that starts with a backslash |
| `Files.FileAccess.Resolve` | `crates/lanekeep-core/src/files.rs:427-453` | `resolve`: the memo's outcome if there is one, the loaded one recorded otherwise, and a path ruled out by its text left unrecorded |
| `Files.FileAccess.Read` | `crates/lanekeep-core/src/files.rs:251-266` | `read` answers and records as one `Ask` step |
| `Files.FileAccess.HashOf` | `crates/lanekeep-core/src/files.rs:288-299` | `hash_of` answers and records as one `Ask` step, whose every answer `Answers.HashAndPresenceMean` tells by the filesystem |
| `Files.FileAccess.Exists` | `crates/lanekeep-core/src/files.rs:309-311` | `exists` answers and records as one `Ask` step, told by the filesystem in the same way |
| `Files.FileAccess.List` | `crates/lanekeep-core/src/files.rs:331-352` | `list`, with its own memo and `.` for the root's key, answers and records as one `Ask` step |
| `Files.FileAccess.Dependencies` | `crates/lanekeep-core/src/files.rs:360-401` | Collecting both memos, sorting and dropping repetitions yields the set of records in `(path, outcome)` order |
| `Files.FileAccess.Clear` | `crates/lanekeep-core/src/files.rs:408-411` | Clearing forgets both memos |
| `Files.DependenciesAreOrdered` | `crates/lanekeep-core/src/files.rs:354-401` | The dependency list holds the record of every question exactly once, sorted by path and then by outcome |
| `Files.RecordLeIsTotalOrder` | `crates/lanekeep-core/src/tracked.rs:79-111` | The derived order of tracked reads is total, and ties only equal records |
| `Files.RecordsInOrder` | `crates/lanekeep-core/src/tracked.rs:79-111` | Records are ordered by their paths' bytes; of one path, found before absent, absent before refused, refused before listed, listed before unlisted, and two digests by their bytes |
| `Files.FrameInjective` | `crates/lanekeep-core/src/files.rs:606-620` | The bytes hashed for a listing determine its entries, NUL being in no file name |
| `Answers.ConfineMeans` | `crates/lanekeep-core/src/files.rs:475-500` | A path is refused by its text exactly when it is absolute or climbs above the root; any other is followed down from the root to where its components lead |
| `Answers.ReadMeans` | `crates/lanekeep-core/src/files.rs:242-266` | In any run, over files that may change at every step, reading a path tells of the filesystem at the step that first recorded the path's key, or else of the present one: a text exactly when the in-root file's bytes are that text's UTF-8, `NotText` exactly when they are not UTF-8, `EscapesRoot` exactly when the path leads out, nothing exactly when no file is there; with no such record, a path ruled out by its text gets that refusal |
| `Answers.HashAndPresenceMean` | `crates/lanekeep-core/src/files.rs:268-311` | In any run, of the same filesystem: `hash_of` gives a text file's digest, nothing exactly where no readable text is and the path stays within the root, and `EscapesRoot` exactly where it leads out; `exists` is true exactly where a readable file is, text or not, false exactly where none is and the path stays within the root, and `EscapesRoot` exactly where it leads out |
| `Answers.ListMeans` | `crates/lanekeep-core/src/files.rs:331-352` | In any run, listing a path tells of the directory at the step that first listed its key, or else of the present one, or refuses the path by its text: `EscapesRoot` exactly when the way leads out, entries exactly when it leads to a directory that can be opened, neither way within `.lanekeep`, and then exactly the names of its children but `.lanekeep` at the root, each once, a directory's and a link's to one within the root with a slash, in byte order; nothing otherwise |
| `Answers.ListedUnder` | `crates/lanekeep-core/src/files.rs:331-342` | A listing is recorded under its path's key, the root's under `.`, and a path ruled out by its text under none |
| `Answers.RuledOutIsRefusedExactly` | `crates/lanekeep-core/src/files.rs:427-453` | A question of any of the four kinds about a path ruled out by its text gets that refusal if and only if nothing was recorded under its key before, or what was leads out of the root and the path climbs out of it |
| `Answers.AliasedRefusal` | `crates/lanekeep-core/src/files.rs:427-453` | So `../x`, asked for after a file named `..\x`, is answered from the memo: nothing is there |
| `Listings.ListingMeans` | `crates/lanekeep-core/src/files.rs:529-590` | A listing holds the name of each shown child as often as the directory does, marked with `/` exactly when it is a directory in the root, in byte order |
| `Listings.ListingIgnoresOrder` | `crates/lanekeep-core/src/files.rs:539-540` | Filesystems that give the children of directories in different orders are listed alike |
| `Listings.OwnDirectoryIsInvisibleExactly` | `crates/lanekeep-core/src/files.rs:546-550` | Two states of a project that differ only inside `.lanekeep` give equal listings for every path if and only if each path leads out of the root, or to a listable directory, in both or in neither, and each link a listing shows is a directory in the root in both or in neither |
| `Listings.OwnDirectoryIsInvisible` | `crates/lanekeep-core/src/files.rs:546-550` | They do whenever no path leads elsewhere by way of `.lanekeep` in one state than in the other, and in neither a link that a listing shows leads into it |
| `OwnWrites.WritesAreInvisibleExactly` | `crates/lanekeep-core/src/files.rs:546-550` | For any two well-formed states, the second with more written into `.lanekeep` so that paths lead where they led unless they led nowhere: no listing changes if and only if no shown link that led nowhere comes to lead out of the root or to a directory, and no such path that goes on from out of the root, from an unreadable directory or by way of `.lanekeep` comes to lead to what is listed |
| `OwnWrites.WritesAreInvisible` | `crates/lanekeep-core/src/files.rs:546-550` | So none changes if what is written holds no links and no unreadable directory, and shown links, and paths that go on from out of the root or from an unreadable directory, lead where they led |
| `FirstRuns.TreesWriteOwn` | `crates/lanekeep-core/src/files.rs:546-550` | Any project given by what stands where and where links and paths beyond the root lead, and the same one with any linkless directory written at `.lanekeep`, are such a pair, as long as what leads somewhere leads there still |
| `FirstRuns.FirstRunIsInvisible` | `crates/lanekeep-core/src/files.rs:546-550` | In such a pair no listing differs if links and paths beyond the root lead where they led, though `.lanekeep` is there to be found |
| `FirstRuns.LinkIntoOwnIsVisible` | `crates/lanekeep-core/src/files.rs:595-605` | With a link into `.lanekeep` at the root the root's listing does change once its target is written |
| `FirstRuns.LinkThroughOwnIsVisible` | `crates/lanekeep-core/src/files.rs:546-550` | With a link `.lanekeep/../src` at the root, listing the link gives nothing before and `src`, an empty directory, after |
| `FirstRuns.LinkFromOutsideIsVisible` | `crates/lanekeep-core/src/files.rs:546-550` | With a link `ext` out of the root, to a directory with a link `back` to `<root>/.lanekeep/../src`, listing `ext/back` does so too, though every link within the root leads where it led |
| `Replay.ReplaySoundness` | `crates/lanekeep-cache/src/lib.rs:46-98` | If the recorded dependencies hold of today's files, a fresh run of the rule there gets every answer and error of the recorded run and records the same dependencies, whatever happened to the files at each step of the recorded run |
| `Replay.ValidatesExactlyWhenRerunAgrees` | `crates/lanekeep-cache/src/lib.rs:56-98` | `validate` accepts if and only if a fresh run would record the very same dependency list |
| `Replay.UnchangedFilesValidate` | `crates/lanekeep-cache/src/lib.rs:46-98` | What a run recorded holds as long as the files do not change: nothing invalidates for nothing |
| `Replay.SameQuestionSameAnswer` | `crates/lanekeep-core/src/files.rs:16-21` | Within a run, over files that may change at every step, a question asked twice gets one answer if and only if its path is not ruled out by its text, or its key was known at the first asking or is not at the second, or what is recorded under it is a refusal told as its text's |
| `Replay.WithoutBackslashesRunsCleanly` | `crates/lanekeep-core/src/files.rs:622-627` | A rule that asks for no path with a backslash in a segment meets, over any files, the condition the run theorems ask for |
| `Replay.AskedAgain` | `crates/lanekeep-core/src/files.rs:413-436` | A memo, and any memo grown from it, records nothing more for a question asked again, and answers it as the first time under exactly that condition |
| `Answers.AnswerChanges` | `crates/lanekeep-core/src/files.rs:16-21` | A rule that reads `../x`, `..\x` and `../x` again in an unchanging empty project is refused at first and at last told that nothing is there |
| `Replay.FileStillTrue` | `crates/lanekeep-cache/src/lib.rs:113-135` | A file record that holds now pins down what a read finds now, text included |
| `Replay.ListingStillTrue` | `crates/lanekeep-cache/src/lib.rs:100-110` | A listing record that holds now pins down every entry; a refused listing is rechecked as a read |
| `Backslashes.ReplaySafeExactly` | `crates/lanekeep-core/src/files.rs:623-627` | For a single question of any kind, over all filesystems that are well formed, revalidation stands for asking again if and only if no backslash in a segment of an in-root path was rewritten (or a segment holds NUL, or a listing is of a path under `.lanekeep`) |
| `Backslashes.BackslashCounterexample` | `crates/lanekeep-core/src/files.rs:623-627` | Concretely, the key of a file named `a\b` is `a/b`; what an empty project recorded for it still holds once that file exists, where reading it answers otherwise |
| `Projects.LaneIsWellFormed` | `crates/lanekeep-core/src/files.rs:475-500` | A chain of directories down to a file, a directory or a link is a well-formed filesystem: the root is a directory, a path leads where the listed children it names lead, and what is led to stands there |
| `CacheHits.HitIsFreshResult` | `crates/lanekeep-cache/src/lib.rs:9-19` | From end to end: an entry saved with its cache, loaded, found under a later run's key and valid is the entry a fresh check would make; it is valid exactly when that check would depend on the same |
| `CacheHits.UnchangedProjectHits` | `crates/lanekeep-cache/src/lib.rs:9-19` | With the same inputs and unchanged files the saved entry is loaded back and is valid: the cache does hit |
| `CacheHits.SameKeySameInputs` | `crates/lanekeep-cache/src/key.rs:107-172` | Keys whose preimages the digest tells apart are equal exactly for equal inputs |
| `GoGlob.GlobMatches` | `go-rules/lanekeep/glob.go:34-76` | The Go port's scan over bytes, with its early exits and its search for terminators among decoded runes, answers as `Greedy` does for any bytes; for any two valid UTF-8 strings that is `Matches` on the texts they decode to |
| `GoGlob.BytesDecideTheRelation` | `go-rules/lanekeep/glob.go:8-76` | On the encodings of any two texts the byte scan decides the anchored relation of the texts |
| `GoGlob.OccursInEncoding` | `go-rules/lanekeep/glob.go:55` | The bytes of a text are found inside those of another only at a character's start, where the text itself stands |
| `GoGlob.SplitEncoded` | `go-rules/lanekeep/glob.go:46-48` | Splitting bytes at stars splits the text at its stars |
| `GoGlob.ByteStarSpans` | `go-rules/lanekeep/glob.go:9-11` | On encodings the byte scan has a star span a text if and only if it holds none of those four characters |
| `GoGlob.ByteStarExactly` | `go-rules/lanekeep/glob.go:57-66` | Whatever the bytes, UTF-8 or not, a star matches them if and only if none of the byte strings 0A, 0D, E2 80 A8 and E2 80 A9 occurs in them |
| `Glob.PythonGlobMatches` | `py-rules/lanekeep/glob.py:8-49` | The Python port's `find` and slices, on code points, decide `Matches` for every pattern and value |
| `Glob.MatchesIsFilling` | `go-rules/lanekeep/glob.go:17-26` | `Matches` holds exactly when terminator-free strings can be woven between the pattern's literals in order |
| `Glob.SegmentStep` | `go-rules/lanekeep/glob.go:55-66` | Between two stars, consuming the leftmost occurrence decides the match: one with a terminator before it rules out every later one, and a later one can always be moved left |
| `Glob.SlidCharacterIsClean` | `go-rules/lanekeep/glob.go:59-65` | The half the comment leaves out: if a later occurrence has a clean gap, the segment itself holds no terminator |
| `Glob.StarSpans` | `go-rules/lanekeep/glob.go:9-11` | Between any two literals a star spans a text if and only if the text holds no line feed, carriage return, U+2028 or U+2029 |
| `Glob.GreedyIsMatches` | `go-rules/lanekeep/glob.go:22-26` | Peeling the first literal, scanning and checking the suffix is the anchored regular expression |
| `Entries.RoundTrip` | `crates/lanekeep-cache/src/entry.rs:54-257` | `decode(encode(e)) == Some(e)` if and only if lengths and offsets fit 32 bits, used indices are in range, rule ids are valid and every path is a fixed point of `FilePath::new` |
| `Entries.RawExact` | `crates/lanekeep-cache/src/entry.rs:142-257` | With paths as they stand in the bytes, a byte string decodes to an entry exactly when it is that entry's encoding and the entry fits the format |
| `Entries.DecodingIsCanonical` | `crates/lanekeep-cache/src/entry.rs:142-257` | If the decoded bytes hold fixed paths only, decoding to `e` means being the encoding of `e`, so two such inputs never decode to one entry |
| `Entries.CanonicalExactly` | `crates/lanekeep-cache/src/entry.rs:142-257` | Bytes that decode to an entry are its encoding if and only if every path in them is a fixed point of `FilePath::new` |
| `Entries.TwoEncodings` | `crates/lanekeep-core/src/location.rs:29-33` | Two different byte strings, with `./x` and `x` for a path, decode to one entry |
| `Entries.TruncationIsRejected` | `crates/lanekeep-cache/src/entry.rs:142-257` | Every strict prefix of a fitting entry's encoding decodes to nothing |
| `Entries.ExtensionIsRejected` | `crates/lanekeep-cache/src/entry.rs:245-257` | Every non-empty extension decodes to nothing |
| `Entries.ReadsItsOwnBytes` | `crates/lanekeep-cache/src/entry.rs:142-257` | In front of any bytes, exactly the entry's own are consumed: the format is self-delimiting |
| `EntryDecoder.Decode` | `crates/lanekeep-cache/src/entry.rs:142-257` | The cursor's counted loops compute `Entries.Decode` and never read past the end; they run once at least for every item of the decoded lists, and no more often than there are input bytes |
| `EntryDecoder.Cursor.Take` | `crates/lanekeep-cache/src/entry.rs:271-276` | The next bytes if there are that many, and no movement otherwise |
| `EntryDecoder.Cursor.PeekLen` | `crates/lanekeep-cache/src/entry.rs:300-303` | The capacity hint is the smaller of 1024 and the count that follows, and nothing without one |
| `EntryDecoder.Cursor.NextText` | `crates/lanekeep-cache/src/entry.rs:305-308` | A length, that many bytes, and UTF-8, or nothing |
| `EntryEncoder.ByteBuffer.PutEntry` | `crates/lanekeep-cache/src/entry.rs:54-138` | Appending section by section appends exactly `Encode(e)` |
| `EntryEncoder.ByteBuffer.PutLen` | `crates/lanekeep-cache/src/entry.rs:315-319` | A length is written in four little-endian bytes, saturated |
| `Reports.FilePathFixed` | `crates/lanekeep-core/src/location.rs:29-33` | The fixed points of `FilePath::new`: no backslash, and no `./` in front |
| `Reports.FilePathOf` | `crates/lanekeep-core/src/location.rs:29-33` | `FilePath::new` drops one leading `./` or `.\`, and one only, and makes every other backslash a slash; without one it does just that |
| `Stores.RoundTrip` | `crates/lanekeep-cache/src/store.rs:120-181` | A cache file loads back as it was saved if and only if every entry fits the format with fixed paths |
| `Stores.FileExact` | `crates/lanekeep-cache/src/store.rs:120-181` | A byte string reads as a list of framed entries exactly when it is that list's encoding |
| `Stores.TruncationIsRejected` | `crates/lanekeep-cache/src/store.rs:141-181` | Every strict prefix of a cache file decodes to nothing |
| `Stores.ExtensionIsRejected` | `crates/lanekeep-cache/src/store.rs:163-180` | So does every extension |
| `Stores.EmptyFile` | `crates/lanekeep-cache/src/store.rs:120-139` | The file of an empty cache, byte for byte |
| `Stores.OneBadPayloadRejectsTheFile` | `crates/lanekeep-cache/src/store.rs:163-178` | One framed payload that does not decode discards the whole file, whatever stands around it |
| `Stores.CollectedLast` | `crates/lanekeep-cache/src/store.rs:162-178` | Of entries under one key, the last one read is kept |
| `Stores.DecodeFile` | `crates/lanekeep-cache/src/store.rs:141-181` | Reading offset by offset computes `Decode` |
| `Stores.Store.EncodeFile` | `crates/lanekeep-cache/src/store.rs:120-139` | The bytes written are a function of the map held, not of the order it was filled in |
| `Stores.KeysAreInOrder` | `crates/lanekeep-cache/src/store.rs:120-139` | The entries are written in the order of their keys' bytes, each key once |
| `Stores.Store.Insert` | `crates/lanekeep-cache/src/store.rs:64-68` | Inserting replaces one key's entry and nothing else |
| `CacheKeys.PreimageInjective` | `crates/lanekeep-cache/src/key.rs:107-172` | Two hashed byte strings are equal exactly when every version, digest, ruleset, config, grammar, path, content and date is; a dated preimage is never an undated one |
| `CacheKeys.PreimageStarts` | `crates/lanekeep-cache/src/key.rs:121-124` | Every preimage starts with `lanekeep-cache` and the format's version, each behind its length, byte for byte |
| `CacheKeys.RunKey.constructor` | `crates/lanekeep-cache/src/key.rs:107-142` | A run's inputs are absorbed field by field, once |
| `CacheKeys.RunKey.ForFile` | `crates/lanekeep-cache/src/key.rs:144-171` | A file's key continues from a copy of the run's prefix and leaves it as it was |
| `CacheKeys.Hasher.WriteField` | `crates/lanekeep-cache/src/key.rs:213-222` | A field is absorbed behind its length |
| `Fixes.Apply` | `crates/lanekeep-core/src/fix.rs:94-131` | Editing the chosen fixes in place, last first, gives the simultaneous left-to-right splice of those whose ends are character boundaries of the original; the result is valid UTF-8; chosen and skipped add up to the safe fixes that fit, so that suggestions alone leave the text as it is, with nothing applied or skipped; `applied` is the number of edits made if and only if both ends of every chosen fix are such boundaries |
| `Fixes.KeptAreAllExactly` | `crates/lanekeep-core/src/fix.rs:115-124` | Of any fixes, as many are edited in as there are if and only if both ends of each are character boundaries |
| `Fixes.DeclinedIsCounted` | `crates/lanekeep-core/src/fix.rs:115-124` | A fix starting inside a two-byte character is chosen, so counted as applied, and not edited in |
| `Fixes.Edit` | `crates/lanekeep-core/src/fix.rs:116-124` | The reverse loop over the buffer, its boundary tests made on the partly edited text, is the splice |
| `Fixes.BoundariesAgree` | `crates/lanekeep-core/src/fix.rs:116-123` | In the part still to be edited, boundary tests on the edited buffer agree with the original text |
| `Fixes.SpliceIsValid` | `crates/lanekeep-core/src/fix.rs:116-124` | Splicing at character boundaries leaves valid UTF-8 |
| `Fixes.SpliceKeepsTheRest` | `crates/lanekeep-core/src/fix.rs:94-131` | Every byte outside the edited ranges survives, in order, moved only by the edits before it |
| `Fixes.SplicePlacesReplacements` | `crates/lanekeep-core/src/fix.rs:94-131` | Every replacement stands where its range was, moved only by the edits before it |
| `Fixes.SelectedAreApart` | `crates/lanekeep-core/src/fix.rs:106-114` | Comparing with the last chosen fix alone keeps all chosen fixes apart, each ending no later than the next starts |
| `Fixes.LeftOutIsClaimed` | `crates/lanekeep-core/src/fix.rs:106-114` | A candidate is skipped only if a chosen fix overlaps it |
| `FixOrder.EarlierWinsUnlessClaimed` | `crates/lanekeep-core/src/fix.rs:90` | Of two overlapping candidates the later in order is chosen only if the earlier is itself claimed |
| `FixOrder.ChainOfOverlaps` | `crates/lanekeep-core/src/fix.rs:106-114` | Of three candidates, the first overlapping the second and the second the third but not the first the third, the first and the third are chosen |
| `FixOrder.ChainCounterexample` | `crates/lanekeep-core/src/fix.rs:90` | So of the bytes 0 to 5, 3 to 10 and 8 to 12 the last wins over the second, which starts earlier |
| `FixOrder.TwoChosen` | `crates/lanekeep-core/src/fix.rs:100-114` | Of two safe fixes in order of start and then of end, both are chosen if and only if they share no byte: fixes that touch, and insertions, do not overlap |
| `FixOrder.TiesKeepTheirOrder` | `crates/lanekeep-core/src/fix.rs:100-103` | Sorting keeps the safe fixes of one range in the order they are offered in |
| `Fixes.ChosenAndSkipped` | `crates/lanekeep-core/src/fix.rs:104-114` | Every candidate is chosen or skipped, counted with repetition |
| `Fixes.Choose` | `crates/lanekeep-core/src/fix.rs:106-114` | The loop chooses `Chosen` and counts the rest |
| `Fixes.Filter` | `crates/lanekeep-core/src/fix.rs:95-98` | The candidates are the safe fixes that fit, in the order offered |
| `Fixes.CandidatesExactly` | `crates/lanekeep-core/src/fix.rs:95-98` | A fix is a candidate if and only if it is offered, is safe, starts no later than it ends and ends within the text, and is one as often as it is offered |
| `Fixes.ChosenAreSafe` | `crates/lanekeep-core/src/fix.rs:75-98` | Every chosen fix is one of those offered, safe, with a range within the text: a suggestion is never applied |
| `FixOrder.OrderFreeExactly` | `crates/lanekeep-core/src/fix.rs:100-103` | The choice is independent of the order fixes are offered in if and only if no two different candidates have one range that the greedy scan over the candidates' sorted ranges takes |
| `FixOrder.DistinctRangesAreOrderFree` | `crates/lanekeep-core/src/fix.rs:100-103` | In particular if no two different safe fixes that fit have one range |
| `FixOrder.TieCounterexample` | `crates/lanekeep-core/src/fix.rs:100-103` | Two different safe fixes of one range: whichever comes first is chosen, contrary to the comment |
| `EditOrder.OutputFreeExactly` | `crates/lanekeep-core/src/fix.rs:90-92` | The edited text is independent of the order fixes are offered in if and only if any two candidates of a range that is taken and has both ends on character boundaries are the same, or insertions that read alike either way round |
| `EditOrder.TextCounterexample` | `crates/lanekeep-core/src/fix.rs:90-92` | Two replacements for one byte: the order decides which is written, contrary to the comment |
| `EditOrder.DeclinedRivalsAreHarmless` | `crates/lanekeep-core/src/fix.rs:116-124` | Two fixes for one range inside a character make the choice depend on the order, and not the text |
| `Calendar.DayRoundTrip` | `crates/lanekeep-core/src/suppression.rs:425-462` | `days_from_civil(from_unix_days(n)) == n` exactly for the days of years 0 to 65535, and those give real dates |
| `Calendar.DateRoundTrip` | `crates/lanekeep-core/src/suppression.rs:425-462` | `from_unix_days(days_from_civil(d)) == d` for every real date |
| `Calendar.NarrowLoses` | `crates/lanekeep-core/src/suppression.rs:457-461` | Outside the days of years 0 to 65535 the month and the day stand and the year becomes 1970 |
| `Calendar.DaysOfCivil` | `crates/lanekeep-core/src/suppression.rs:434-462` | Every day number names a date of the proleptic Gregorian calendar, and that date has that number |
| `Calendar.DaysOfNext` | `crates/lanekeep-core/src/suppression.rs:425-432` | The arithmetic follows the calendar: the day after has the next number, across months, leap days and centuries |
| `Calendar.OrderIsDayOrder` | `crates/lanekeep-core/src/suppression.rs:70-84` | Dates compare as their day numbers do |
| `Calendar.AddDaysAdds` | `crates/lanekeep-core/src/suppression.rs:113-121` | Adding days twice is adding their sum, while the first sum stays within year 65535 |
| `Calendar.AddDaysAddsExactly` | `crates/lanekeep-core/src/suppression.rs:113-121` | For a first number of days up to 366 short of `u32::MAX`, adding any second number to the first sum adds the total if and only if the first sum stays within year 65535 |
| `Calendar.HorizonWithinRange` | `crates/lanekeep-core/src/suppression.rs:113-121` | `expires > today.add_days(n)` means more than n days for all real expiries of four-digit years if and only if the horizon itself is a representable date |
| `Calendar.HorizonToleratesOneDay` | `crates/lanekeep-core/src/suppression.rs:101-106` | Among the impossible dates parsing accepts, the horizon check stays exact if and only if the day is at most one past the month's end |
| `Suppressions.Standalone` | `crates/lanekeep-core/src/suppression.rs:252-271` | The scan returns the least offset where the token has no word character before and no word character or hyphen after, or nothing exactly when there is none |
| `Suppressions.FirstStanding` | `crates/lanekeep-core/src/suppression.rs:252-271` | That least offset, characterized: it stands alone there, and nowhere before |
| `Suppressions.SkipToken` | `crates/lanekeep-core/src/suppression.rs:264-269` | Going on behind a rejected occurrence loses nothing, because no token begins inside another |
| `Suppressions.DateRoundTrip` | `crates/lanekeep-core/src/suppression.rs:86-128` | A date parses back from its display exactly when its month and day are plausible and its year has four digits |
| `Suppressions.DateExactly` | `crates/lanekeep-core/src/suppression.rs:86-111` | A text is a date if and only if it has ten characters, hyphens at the fifth and the eighth, numerals of that date between them, a plus sign in front of one or not, and the month and the day in range |
| `Suppressions.DateDisplayed` | `crates/lanekeep-core/src/suppression.rs:124-128` | Every date is displayed as its year in four digits or more, its month and its day in two or more, with no more zeros in front than that takes |
| `Directives.ParseRules` | `crates/lanekeep-core/src/suppression.rs:366-390` | The loop gives the ids in order, or the first token that is none |
| `Directives.ParseFile` | `crates/lanekeep-core/src/suppression.rs:206-234` | Line by line, each directive joins the valid or the malformed list in order, with its line number |
| `Directives.LineCommentRoundTrip` | `crates/lanekeep-core/src/suppression.rs:295-390` | A written line directive is read back whenever it is dated, `reason:`, `expires:` or `*/` in its reason or not; undated, if and only if the reason neither names `expires:` nor ends in `*/` |
| `Directives.BlockCommentRoundTrip` | `crates/lanekeep-core/src/suppression.rs:272-310` | In a block comment of its own, with any code behind it, it is read back if and only if the reason does not hold `*/` and, undated, does not name `expires:` |
| `Directives.DirectiveIsFound` | `crates/lanekeep-core/src/suppression.rs:236-250` | A token written behind a prefix is the one found, at its offset, if and only if no token stands alone in the prefix, the prefix ends in no word character, and what follows starts with no word character and no hyphen |
| `Directives.LinesOfText` | `crates/lanekeep-core/src/suppression.rs:209` | A text's lines are what stands between its line ends, without the one carriage return that belongs to an end; a last line without an end is one too, its carriage return kept, and nothing follows the last end |
| `Directives.FileRoundTrip` | `crates/lanekeep-core/src/suppression.rs:206-234` | A file of ordinary lines, lines that end in a directive and lines that hold one in a block comment with code behind it, each with a prefix and separators of its own, with either line ending, is read as exactly those directives, each on its own line, and nothing malformed |
| `Readings.ValidAreComplete` | `crates/lanekeep-core/src/suppression.rs:317-364` | Whatever the text, each directive read from it names at least one rule, valid ids only, has a trimmed reason that is not empty, and expires, if at all, in a four-digit year on a plausible month and day |
| `Readings.EachLineContributesOnce` | `crates/lanekeep-core/src/suppression.rs:206-234` | Each line numbered below `u32::MAX` in which a directive is found has exactly one entry, valid or malformed, under its number, and every other such line has none |
| `Readings.NothingIsDropped` | `crates/lanekeep-core/src/suppression.rs:206-234` | However many lines there are, as many directives are read or reported as there are lines in which one is found |
| `Readings.NoReasonIsMalformed` | `crates/lanekeep-core/src/suppression.rs:317-328` | Any directive of a line comment that holds no `reason:` is malformed for that, at its line and column |
| `Readings.BadIdIsMalformed` | `crates/lanekeep-core/src/suppression.rs:366-381` | One that names something that is no rule id is malformed for the first such name |
| `Readings.NoIdIsMalformed` | `crates/lanekeep-core/src/suppression.rs:383-388` | One that names nothing before `reason:` is malformed for that |
| `Readings.BlankReasonIsMalformed` | `crates/lanekeep-core/src/suppression.rs:348-354` | One with rule ids and `reason:` has an empty reason reported if and only if what follows is blank, or blank but for a readable expiry |
| `Readings.UnreadableExpiryIsMalformed` | `crates/lanekeep-core/src/suppression.rs:332-346` | One with rule ids, `reason:` and `expires:` has an unreadable expiry reported if and only if what follows the last `expires:`, trimmed, is no date, and with that text |
| `Readings.GoodLineIsValid` | `crates/lanekeep-core/src/suppression.rs:317-364` | Any other is read: its ids, its trimmed reason, its date |
| `Readings.SeparatorsExactly` | `crates/lanekeep-core/src/suppression.rs:370` | A character between two ids separates them if and only if it is a comma, a space or a tab |
| `Readings.WordCharacters` | `crates/lanekeep-core/src/suppression.rs:252-314` | A token with one character behind it is found if and only if that is no ASCII letter or digit, no underscore and no hyphen |
| `Readings.OpensBlockExactly` | `crates/lanekeep-core/src/suppression.rs:298-306` | The text before a token opens a block comment of its own if and only if it ends in `/*`, any number of stars and exclamation marks, and white space |
| `Readings.ClosingLineRoundTrip` | `crates/lanekeep-core/src/suppression.rs:309-310` | On the closing line of a block comment that was opened earlier, `*/` and white space behind the directive are not read as part of it |
| `Readings.WrittenOut` | `crates/lanekeep-core/src/suppression.rs:1-60` | The syntax itself, once for each scope: a directive written out is read as its rule, reason, expiry, line and column |
| `Baselines.Apply` | `crates/lanekeep-core/src/baseline.rs:176-218` | The filter computes `Filtered`: the uncovered violations, the covered count and the stale entries |
| `Baselines.Record` | `crates/lanekeep-core/src/baseline.rs:152-169` | Recording computes the sorted, saturated counts of the baselineable violations |
| `Baselines.CoversWhatItAllows` | `crates/lanekeep-core/src/baseline.rs:182-211` | Each key covers exactly the minimum of its saturated total and its occurrences |
| `Baselines.CoversTheEarliest` | `crates/lanekeep-core/src/baseline.rs:196-211` | Always the earliest ones: a covered violation's predecessors of the same key are covered |
| `Baselines.CoveredExactly` | `crates/lanekeep-core/src/baseline.rs:66-82` | Recording over one source of lines and applying over another with the same, injective digest covers a violation if and only if it is not one of `lanekeep/suppression` and fewer violations of its rule and file on lines of the same words come before it than were recorded, at most `u32::MAX` |
| `Baselines.ReportedExactly` | `crates/lanekeep-core/src/baseline.rs:196-211` | So the violations reported are exactly the others, in the order given |
| `Baselines.MovedLinesAreCovered` | `crates/lanekeep-core/src/baseline.rs:49-82` | Whatever the digest, if each violation stands on a line of the same words as one recorded, at any position of the same file, nothing is stale, and only what may not be baselined is reported if and only if no key occurs more than `u32::MAX` times |
| `Baselines.RecordedExactly` | `crates/lanekeep-core/src/baseline.rs:152-169` | What is recorded is the rule, the file and the digest of the line's words joined by single spaces of some violation not of `lanekeep/suppression`, with its saturated number of occurrences |
| `Baselines.EntriesAreInOrder` | `crates/lanekeep-core/src/baseline.rs:233-247` | Entries come in the order of their rules, then of the bytes of their files, then of those of their fingerprints, none twice |
| `Baselines.NothingIsLost` | `crates/lanekeep-core/src/baseline.rs:196-211` | New and covered add up to the violations given |
| `Baselines.StaleExactly` | `crates/lanekeep-core/src/baseline.rs:213-217` | An entry is reported stale, with the total minus what was covered, exactly when that is positive, its rule was not skipped and its file, if the run was restricted to some, is one of them |
| `Baselines.RecordedAllowance` | `crates/lanekeep-core/src/baseline.rs:152-194` | A recorded baseline allows each key its occurrences, saturated |
| `Baselines.RecordThenApply` | `crates/lanekeep-core/src/baseline.rs:146-218` | Recording and then applying leaves only what may not be baselined, and nothing stale, if and only if no key occurs more than `u32::MAX` times |
| `Baselines.NormalizeKeepsTheWords` | `crates/lanekeep-core/src/baseline.rs:49-55` | Two lines normalize alike exactly when their words are the same, and normalizing is idempotent |
| `Limits.RunsAgree` | `crates/lanekeep-core/src/limits.rs:471-567` | Over every legal run of ticks, arms, disarms, nested pauses, polls and trips taken, the enforcer gives exactly the answers of a stopwatch that adds up unpaused time |
| `Limits.PollAfterAnyRun` | `crates/lanekeep-core/src/limits.rs:541-558` | After any legal run a poll trips Run when the run budget is spent, else Rule exactly when unpaused time has reached the timeout; while paused only Run fires |
| `Limits.StepSimulates` | `crates/lanekeep-core/src/limits.rs:493-567` | Each operation keeps the invariant: the running deadline is what is left counted from now, and while paused only the outermost guard holds it |
| `Limits.InnerGuardRestoresNothing` | `crates/lanekeep-core/src/limits.rs:508-527` | Opening and dropping a nested guard leaves the outer pause as it was |
| `Limits.ZeroBudgetAtTheStart` | `crates/lanekeep-core/src/limits.rs:493-501` | A poll at the instant of arming trips as a stopwatch would, except for a zero timeout armed at clock zero before the run budget is spent; that one trips at the next nanosecond's poll |
| `Limits.Budget.Arm` | `crates/lanekeep-core/src/limits.rs:492-501` | Arming sets the saturated deadline, never zero, and clears the trip |
| `Limits.Budget.Disarm` | `crates/lanekeep-core/src/limits.rs:503-506` | Disarming clears the deadline alone |
| `Limits.Budget.Pause` | `crates/lanekeep-core/src/limits.rs:529-539` | Pausing disarms and hands what was left to the guard |
| `Limits.Budget.Resume` | `crates/lanekeep-core/src/limits.rs:240-252` | Dropping the guard re-arms with what was left, and only if it had been armed |
| `Limits.Budget.ShouldInterrupt` | `crates/lanekeep-core/src/limits.rs:543-558` | A poll records which bound it hit, the run's first |
| `Limits.Budget.TakeTrip` | `crates/lanekeep-core/src/limits.rs:560-567` | Taking the trip clears it |
| `RuleIds.ParseExact` | `crates/lanekeep-core/src/rule_id.rs:192-272` | A string parses to an id exactly when the id is valid and the string is its display |
| `RuleIds.KebabExactly` | `crates/lanekeep-core/src/rule_id.rs:192-223` | A namespace or a name is well formed if and only if it is non-empty words of ASCII lower-case letters and digits joined by single hyphens |
| `RuleIds.OneSlash` | `crates/lanekeep-core/src/rule_id.rs:225-262` | What is wrong with a text of one slash: no namespace, the first flaw of the namespace, no name, or the first flaw of the name, in this order |
| `RuleIds.OtherSlashes` | `crates/lanekeep-core/src/rule_id.rs:228-236` | Without a slash the namespace is missing; with two or more there are too many separators |
| `RuleIds.CompareIdsEqual` | `crates/lanekeep-core/src/rule_id.rs:274-281` | Ids compare Equal only when they are equal |
| `RuleIds.CompareIdsReverse` | `crates/lanekeep-core/src/rule_id.rs:274-281` | Comparing the other way round reverses the answer |
| `RuleIds.CompareIdsChains` | `crates/lanekeep-core/src/rule_id.rs:274-281` | The order is transitive, strictness included |
| `RuleIds.OrderIsRenderedOrder` | `crates/lanekeep-core/src/rule_id.rs:266-281` | The order agrees with byte order of the rendered ids if and only if neither namespace is the other followed by `-` |
| `RuleIds.HyphenCounterexample` | `crates/lanekeep-core/src/rule_id.rs:266-281` | `a/x` comes before `a-b/x` and is rendered after it |
| `Utf8.DecodeExact` | `crates/lanekeep-cache/src/entry.rs:305-308` | A byte string decodes to a text exactly when it is that text's encoding (RFC 3629, section 4) |
| `Utf8.SplitAtBoundary` | `crates/lanekeep-core/src/fix.rs:118-123` | Cutting a text at a character boundary leaves two texts |
| `Utf8.BoundaryExactly` | `crates/lanekeep-core/src/fix.rs:118-123` | An offset into a text is a character boundary if and only if what stands before it is a text |
| `Sorting.SortedElements` | `crates/lanekeep-core/src/baseline.rs:233-244` | Any enumeration of a set, once sorted, is its one ordered list: how the maps are iterated |
| `Sorting.DedupIsInOrder` | `crates/lanekeep-core/src/files.rs:395-400` | Sorting a list and dropping repetitions gives the set of its elements in order |
| `Sorting.CompareExactly` | `crates/lanekeep-core/src/files.rs:395-400` | Byte strings are ordered by the first byte they differ in, a strict prefix first |
| `Text.TrimExactly` | `crates/lanekeep-core/src/suppression.rs:332-347` | Trimming takes white space off both ends, and all of it |
| `Text.WhitespaceExactly` | `crates/lanekeep-core/src/baseline.rs:49-55` | White space is the twenty-five characters of the Unicode property `White_Space` |

## Left out

- blake3, the baseline fingerprint and the text of a source line are parameters; the digest of the bytes a key absorbs is left to the caller of `RunKey.ForFile`.
- The real filesystem, the clock, atomics, the memo's lock and poisoning: each method takes what it would read as an argument. `Store::load` and `save` are not modelled, only the bytes they exchange.
- Windows paths, file names that are not UTF-8, and the lossy rendering of both.
- `AnalysisBudget`, `Charge` and the run budget's growth with the number of files: arithmetic without state to keep.
- Error message texts: an error carries the values its message is made from.
- The Go port on strings that are not UTF-8: beyond a lone star (`GoGlob.ByteStarExactly`), `GoGlob.GlobMatches` says what it answers by `Greedy` alone. Python strings with lone surrogates.
- `Suppressions::covering`, severities, gates and everything that reads one branch to settle.
- Globset patterns, tree-sitter, the script and component engines, serde, the walk of the project and the change detection.
- Limits.RunsAgree: leaves out arming and disarming under an open guard, which the engines never do, and a clock within its last nanosecond, centuries away.
- Calendar.AddDaysAdds: asks that the first sum stay within year 65535, past which `add_days` falls back to 1970; `Calendar.AddDaysAddsExactly` says that this cannot be dropped.
- Directives.LineCommentRoundTrip: asks that no token stand alone in the text before the directive, without which it is not the directive found (`Directives.DirectiveIsFound`), and that this text not open a block comment; `Directives.BlockCommentRoundTrip` covers the opener.
- Listings.OwnDirectoryIsInvisibleExactly: supposes that no path leads to one place outside `.lanekeep` in the one state and to another in the other, as a link kept within `.lanekeep` could make it; lanekeep writes no links.
- FirstRuns.FirstRunIsInvisible: leaves out directories that cannot be read; `OwnWrites.WritesAreInvisible` has them.
- OwnWrites.WritesAreInvisibleExactly: leaves out removing what was in `.lanekeep`; `Listings.OwnDirectoryIsInvisibleExactly` has it.
- Calendar.AddDaysAddsExactly: leaves out first numbers of days within 366 of `u32::MAX`, some eleven million years, after which there are too few days left to add.
- Replay.FileStillTrue: asks that the path have no backslash in a segment, without which `Backslashes.ReplaySafeExactly` shows the record of another path to be checked.
- Replay.ListingStillTrue: asks the same.
- Replay.ReplaySoundness: asks that what the run recorded have no backslash in a segment; `Backslashes.ReplaySafeExactly` says for one question that this cannot be dropped. A question that was refused by its text, or is known already, may have any.
- Replay.ValidatesExactlyWhenRerunAgrees: asks the same of the second run, which may diverge from the first.
- Replay.UnchangedFilesValidate: asks the same of the run, for the same reason.
- CacheHits.HitIsFreshResult: asks the same of the check's runs.
- CacheHits.UnchangedProjectHits: asks the same of the check's run.
