/** What the cache is for: an entry found under a file's key, and still valid, is the entry a fresh check would make. */
module CacheHits {
  import opened Wrappers
  import opened Files
  import opened Replay
  import CacheKeys
  import Entries
  import Stores

  /** A deterministic check: what the key hashes decides what is asked, and with the answers decides what is
    * reported. */
  datatype Check = Check(
    rule: (CacheKeys.Run, CacheKeys.FileInput) -> Rule,
    report: (CacheKeys.Run, CacheKeys.FileInput, seq<Answer>) -> Entries.Entry)

  /** The entry a check makes: its report, and the dependencies its questions left. */
  ghost function Checked(check: Check, digest: Digest, run: CacheKeys.Run, file: CacheKeys.FileInput, fss: seq<Fs>):
    Entries.Entry
  {
    var outcome := RunOver(check.rule(run, file), digest, fss);
    check.report(run, file, outcome.answers).(dependencies := DependenciesOf(outcome.memo, digest))
  }

  function KeyOf(digest: Digest, run: CacheKeys.Run, file: CacheKeys.FileInput): CacheKeys.CacheKey {
    digest(CacheKeys.Preimage(run, file))
  }

  ghost predicate InMemory(run: CacheKeys.Run, file: CacheKeys.FileInput) {
    CacheKeys.RunInMemory(run) && CacheKeys.FileInMemory(file)
  }

  lemma SameKeySameInputs(
    digest: Digest, run: CacheKeys.Run, file: CacheKeys.FileInput, later: CacheKeys.Run, laterFile: CacheKeys.FileInput)
    requires InMemory(run, file) && InMemory(later, laterFile)
    requires Apart(digest, Some(CacheKeys.Preimage(run, file)), Some(CacheKeys.Preimage(later, laterFile)))
    ensures KeyOf(digest, run, file) == KeyOf(digest, later, laterFile) <==> run == later && file == laterFile
  {
    hide CacheKeys.Preimage, CacheKeys.RunInMemory, CacheKeys.FileInMemory;
    CacheKeys.PreimageInjective(run, file, later, laterFile);
  }

  /** What a cache holds for a key once it has been saved and loaded. */
  ghost function Loaded(cache: map<CacheKeys.CacheKey, Entries.Entry>, key: CacheKeys.CacheKey): Option<Entries.Entry> {
    match Stores.Decode(Stores.EncodeMap(cache))
    case None => None
    case Some(entries) => if key in entries then Some(entries[key]) else None
  }

  /** The entry is valid exactly when a fresh check depends on the same, and then it is the fresh check's entry. */
  ghost predicate StandsFor(entry: Entries.Entry, cold: Entries.Entry, digest: Digest, now: Fs) {
    && (Validate(entry.dependencies, now, digest) <==> cold.dependencies == entry.dependencies)
    && (Validate(entry.dependencies, now, digest) ==> entry == cold)
  }

  ghost predicate HitStandsFor(
    cache: map<CacheKeys.CacheKey, Entries.Entry>, key: CacheKeys.CacheKey, cold: Entries.Entry, digest: Digest,
      now: Fs)
  {
    Loaded(cache, key).Some? && StandsFor(Loaded(cache, key).value, cold, digest, now)
  }

  ghost predicate Holding(cache: map<CacheKeys.CacheKey, Entries.Entry>, key: CacheKeys.CacheKey,
    entry: Entries.Entry) {
    key in cache && cache[key] == entry && Stores.InMemory(cache) && Stores.Storable(cache)
  }

  ghost predicate NoCollisions(digest: Digest, fss: seq<Fs>, now: Fs) {
    forall i | 0 <= i < |fss| :: NoCollision(digest, fss[i], now)
  }

  /** A warm run reports what a cold run would. The entry was made while the files may have been changing, saved with
    * the rest of the cache, and loaded again; a later run looks it up under its own key, and finds it valid. */
  lemma HitIsFreshResult(
    check: Check, digest: Digest, run: CacheKeys.Run, file: CacheKeys.FileInput, fss: seq<Fs>,
    later: CacheKeys.Run, laterFile: CacheKeys.FileInput, now: Fs, cache: map<CacheKeys.CacheKey, Entries.Entry>)
    requires InMemory(run, file) && InMemory(later, laterFile)
    requires Apart(digest, Some(CacheKeys.Preimage(run, file)), Some(CacheKeys.Preimage(later, laterFile)))
    requires RanCleanly(check.rule(run, file), digest, fss)
        && RanCleanly(check.rule(run, file), digest, Still(now, |fss|))
    requires NoCollisions(digest, fss, now)
    requires Holding(cache, KeyOf(digest, run, file), Checked(check, digest, run, file, fss))
    requires KeyOf(digest, later, laterFile) == KeyOf(digest, run, file)
    ensures HitStandsFor(
      cache, KeyOf(digest, later, laterFile), Checked(check, digest, later, laterFile, Still(now, |fss|)), digest, now)
  {
    hide Validate, DependenciesOf, NoCollision, RunOver, Stores.Decode, Stores.EncodeMap, Stores.Storable, InMemory,
      KeyOf,
      RanCleanly, CacheKeys.Preimage, Stores.InMemory;
    SameKeySameInputs(digest, run, file, later, laterFile);
    Stores.RoundTrip(cache);
    var rule := check.rule(run, file);
    ValidatesExactlyWhenRerunAgrees(rule, digest, fss, now);
    if Validate(DependenciesOf(Recorded(rule, digest, fss), digest), now, digest) {
      ReplaySoundness(rule, digest, fss, now);
    }
  }

  /** And a warm run does hit: with the same inputs and the files as they were, the loaded entry is valid. */
  lemma UnchangedProjectHits(
    check: Check, digest: Digest, run: CacheKeys.Run, file: CacheKeys.FileInput, now: Fs, steps: nat,
    cache: map<CacheKeys.CacheKey, Entries.Entry>)
    requires RanCleanly(check.rule(run, file), digest, Still(now, steps))
    requires Holding(cache, KeyOf(digest, run, file), Checked(check, digest, run, file, Still(now, steps)))
    ensures Loaded(cache, KeyOf(digest, run, file)) == Some(Checked(check, digest, run, file, Still(now, steps)))
    ensures Validate(Checked(check, digest, run, file, Still(now, steps)).dependencies, now, digest)
  {
    hide Validate, DependenciesOf, RunOver, Stores.Decode, Stores.EncodeMap, Stores.Storable, KeyOf, RanCleanly,
      CacheKeys.Preimage, Stores.InMemory;
    Stores.RoundTrip(cache);
    UnchangedFilesValidate(check.rule(run, file), digest, now, steps);
  }
}
