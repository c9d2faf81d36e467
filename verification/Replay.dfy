/** Revalidating a cached result: re-asking what was recorded, and why that stands for running the rule again. */
module Replay {
  import opened Wrappers
  import opened Words
  import opened Sorting
  import opened Reports
  import opened Paths
  import opened Files
  import Text

  // ----- Validation -----

  /** `current`: what reading the recorded path would answer now. */
  function Current(fs: Fs, digest: Digest, path: string): ReadOutcome {
    match fs.resolve(Trail(path))
    case Missing => ReadOutcome.Absent
    case Outside => ReadOutcome.Refused
    case Inside(place) =>
      match fs.at(place)
      case FileNode(bytes) => Found(digest(bytes))
      case _ => ReadOutcome.Absent
  }

  /** `current_listing`. */
  function CurrentListing(fs: Fs, digest: Digest, path: string): ReadOutcome {
    match ListDirectory(fs, Normalize(Components(path)))
    case Listed(entries) => ReadOutcome.Listed(ListingHash(digest, entries))
    case Unlisted => ReadOutcome.Unlisted
    case Refused => ReadOutcome.Refused
  }

  /** The question the record answers, asked again, is answered the same. A refusal is asked again as a read. */
  predicate Holds(fs: Fs, digest: Digest, read: TrackedRead) {
    read.outcome ==
      if read.outcome.Listed? || read.outcome.Unlisted? then CurrentListing(fs, digest, read.path)
      else Current(fs, digest, read.path)
  }

  /** `validate`. */
  predicate Validate(dependencies: seq<TrackedRead>, fs: Fs, digest: Digest) {
    forall i | 0 <= i < |dependencies| :: Holds(fs, digest, dependencies[i])
  }

  // ----- Runs -----

  /** A deterministic rule: the question it asks after the answers so far, until it has no more. */
  type Rule = seq<Answer> -> Option<Question>

  datatype Run = Run(memo: Memo, answers: seq<Answer>)

  /** A run's first `|fss|` steps, the filesystem being `fss[i]` at step `i`: files may change while the rule runs. */
  function RunOver(rule: Rule, digest: Digest, fss: seq<Fs>): Run {
    if fss == [] then Run(EMPTY, []) else RunStep(rule, digest, RunOver(rule, digest, fss[..|fss| - 1]), fss[|fss| - 1])
  }

  function RunStep(rule: Rule, digest: Digest, run: Run, fs: Fs): Run {
    match rule(run.answers)
    case None => run
    case Some(question) =>
      var (memo, answer) := Ask(run.memo, fs, digest, question);
      Run(memo, run.answers + [answer])
  }

  /** A filesystem nothing happens to. */
  function Still(fs: Fs, steps: nat): (fss: seq<Fs>)
    ensures |fss| == steps
  {
    seq(steps, _ => fs)
  }

  function Recorded(rule: Rule, digest: Digest, fss: seq<Fs>): Memo {
    RunOver(rule, digest, fss).memo
  }

  // ----- What the theorems suppose -----

  /** The memo has an outcome for the question already. */
  predicate IsKnown(memo: Memo, question: Question) {
    if question.List? then ListingKey(question.path) in memo.listed else NormalizeKey(question.path) in memo.seen
  }

  /** What the question records leads back to where it looked: it records nothing, or no segment holds a backslash. */
  predicate LedBack(memo: Memo, question: Question) {
    IsKnown(memo, question) || match Confine(question.path) case Err(_) => true case Ok(n) => IsClean(n)
  }

  ghost predicate StepsCleanly(rule: Rule, run: Run) {
    rule(run.answers).Some? ==> LedBack(run.memo, rule(run.answers).value)
  }

  /** So does everything the run recorded. */
  ghost predicate RanCleanly(rule: Rule, digest: Digest, fss: seq<Fs>)
    decreases |fss|
  {
    fss == []
    || (RanCleanly(rule, digest, fss[..|fss| - 1]) && StepsCleanly(rule, RunOver(rule, digest, fss[..|fss| - 1])))
  }

  /** A rule that never asks for a path with a backslash in a segment runs cleanly over any files. */
  lemma {:induction false} WithoutBackslashesRunsCleanly(rule: Rule, digest: Digest, fss: seq<Fs>)
    requires forall answers :: rule(answers).Some? ==> LedBack(EMPTY, rule(answers).value)
    ensures RanCleanly(rule, digest, fss)
    decreases |fss|
  {
    hide Confine, NormalizeKey, ListingKey;
    if fss != [] {
      WithoutBackslashesRunsCleanly(rule, digest, fss[..|fss| - 1]);
    }
  }

  function FrameAt(fs: Fs, relative: seq<Component>): Option<Bytes> {
    match ListDirectory(fs, relative)
    case Listed(entries) => Some(Frame(entries))
    case _ => None
  }

  predicate Apart(digest: Digest, a: Option<Bytes>, b: Option<Bytes>) {
    a.Some? && b.Some? && digest(a.value) == digest(b.value) ==> a == b
  }

  /** The digest tells a path's contents in one filesystem from its contents in the other. */
  ghost predicate NoCollision(digest: Digest, fs: Fs, now: Fs) {
    forall relative :: Apart(digest, BytesAt(fs, relative), BytesAt(now, relative))
                    && Apart(digest, FrameAt(fs, relative), FrameAt(now, relative))
  }

  // ----- One record -----

  lemma FileStillTrue(fs: Fs, now: Fs, digest: Digest, path: string)
    requires Confine(path).Ok? && IsClean(Normalize(Components(path))) && NoCollision(digest, fs, now)
    requires Holds(now, digest, FileRecord(NormalizeKey(path), Look(fs, digest, Confine(path).value)))
    ensures Look(now, digest, Confine(path).value) == Look(fs, digest, Confine(path).value)
  {
    hide Normalize, NormalizeKey, Trail, FilePath;
    var n := Confine(path).value;
    KeyLeadsBack(path);
    assert Apart(digest, BytesAt(fs, n), BytesAt(now, n));
  }

  lemma ListingKeyLeadsBack(path: string)
    requires !HasRoot(path) && IsClean(Normalize(Components(path)))
    ensures var n, key := Normalize(Components(path)), ListingKey(path);
      Trail(key) == n && Normalize(Components(key)) == n && IsFilePath(key)
  {
    hide Normalize;
    KeyLeadsBack(path);
    if NormalizeKey(path) == "" {
      DotLeadsToRoot();
    }
  }

  lemma DotLeadsToRoot()
    ensures Trail("") == Trail(".") == []
    ensures Normalize(Components("")) == Normalize(Components(".")) == [] && IsFilePath(".")
  {
    assert Components("") == [];
    Text.SplitSlashNone(".");
    assert Components(".") == [CurDir];
    assert [CurDir][..0] == [];
    FilePathFixed(".");
  }

  lemma ListingStillTrue(fs: Fs, now: Fs, digest: Digest, path: string)
    requires Confine(path).Ok? && IsClean(Normalize(Components(path))) && NoCollision(digest, fs, now)
    requires Holds(now, digest, ListingRecord(digest, ListingKey(path), ListDirectory(fs, Confine(path).value)))
    ensures ListDirectory(now, Confine(path).value) == ListDirectory(fs, Confine(path).value)
  {
    hide Normalize, ListingKey, Trail, FilePath, EntryNames, Frame;
    var n := Confine(path).value;
    ListingKeyLeadsBack(path);
    var once, again := ListDirectory(fs, n), ListDirectory(now, n);
    if once.Listed? && again.Listed? {
      assert Apart(digest, FrameAt(fs, n), FrameAt(now, n));
      ListedHasNoNul(fs, n);
      ListedHasNoNul(now, n);
      FrameInjective(once.entries, again.entries);
    }
  }

  // ----- Memos only grow -----

  ghost predicate Extends(before: Memo, after: Memo) {
    && (forall key | key in before.seen :: key in after.seen && after.seen[key] == before.seen[key])
    && (forall key | key in before.listed :: key in after.listed && after.listed[key] == before.listed[key])
  }

  lemma AskExtends(memo: Memo, fs: Fs, digest: Digest, question: Question)
    ensures Extends(memo, Ask(memo, fs, digest, question).0)
  {
    hide NormalizeKey, ListingKey, Load, LoadListing;
  }

  /** What is recorded under the question's key is a refusal, told as its own text is refused. */
  predicate IsSameRefusal(memo: Memo, question: Question)
    requires IsKnown(memo, question)
  {
    && !HasRoot(question.path)
    && if question.List? then memo.listed[ListingKey(question.path)].Refused?
       else memo.seen[NormalizeKey(question.path)].Refused?
  }

  /** No other path came to be recorded under the key of one that is ruled out by its text, or one refused alike. */
  predicate KeepsItsAnswer(memo: Memo, later: Memo, question: Question) {
    Confine(question.path).Ok? || IsKnown(memo, question) || !IsKnown(later, question) || IsSameRefusal(later, question)
  }

  /** What a memo answers once, it and everything grown from it answers ever after, whatever became of the files;
    * but for a path that its text ruled out and that something has been recorded under since. */
  lemma AskedAgain(memo: Memo, fs: Fs, later: Memo, now: Fs, digest: Digest, question: Question)
    requires Extends(Ask(memo, fs, digest, question).0, later)
    ensures Ask(later, now, digest, question).0 == later
    ensures Ask(later, now, digest, question).1 == Ask(memo, fs, digest, question).1
       <==> KeepsItsAnswer(memo, later, question)
  {
    hide NormalizeKey, ListingKey, Look, ListDirectory;
  }

  // ----- Whole runs -----

  lemma RunExtends(rule: Rule, digest: Digest, run: Run, fs: Fs)
    ensures var next := RunStep(rule, digest, run, fs);
      Extends(run.memo, next.memo) && |run.answers| <= |next.answers| <= |run.answers| + 1
      && next.answers[..|run.answers|] == run.answers
  {
    hide Ask;
    if rule(run.answers).Some? {
      AskExtends(run.memo, fs, digest, rule(run.answers).value);
    }
  }

  /** A longer run begins as the shorter one did. */
  lemma {:induction false} RunGrows(rule: Rule, digest: Digest, fss: seq<Fs>, k: nat)
    requires k <= |fss|
    ensures var part, whole := RunOver(rule, digest, fss[..k]), RunOver(rule, digest, fss);
      Extends(part.memo, whole.memo) && |part.answers| <= |whole.answers|
      && whole.answers[..|part.answers|] == part.answers
  {
    hide RunStep;
    if k == |fss| {
      assert fss[..k] == fss;
    } else {
      var before := fss[..|fss| - 1];
      assert before[..k] == fss[..k];
      RunGrows(rule, digest, before, k);
      RunExtends(rule, digest, RunOver(rule, digest, before), fss[|fss| - 1]);
    }
  }

  ghost predicate AllHold(memo: Memo, digest: Digest, now: Fs) {
    forall read | read in Records(memo, digest) :: Holds(now, digest, read)
  }

  lemma ValidatesAllRecords(memo: Memo, digest: Digest, now: Fs)
    ensures Validate(DependenciesOf(memo, digest), now, digest) <==> AllHold(memo, digest, now)
  {
    hide Records, Holds, RecordLe;
    var dependencies := DependenciesOf(memo, digest);
    InOrderMembers(Records(memo, digest), RecordLe);
    if Validate(dependencies, now, digest) {
      forall read | read in Records(memo, digest)
        ensures Holds(now, digest, read)
      {
        var i :| 0 <= i < |dependencies| && dependencies[i] == read;
      }
    } else {
      var i :| 0 <= i < |dependencies| && !Holds(now, digest, dependencies[i]);
      assert dependencies[i] in dependencies;
    }
  }

  /** A question is answered from `now` as it was from `fs`, and leaves the same outcome, if what it left holds. */
  lemma SameAnswer(memo: Memo, fs: Fs, now: Fs, digest: Digest, question: Question, final: Memo)
    requires LedBack(memo, question) && NoCollision(digest, fs, now)
    requires Extends(Ask(memo, fs, digest, question).0, final) && AllHold(final, digest, now)
    ensures Ask(memo, now, digest, question) == Ask(memo, fs, digest, question)
  {
    hide NormalizeKey, ListingKey, Normalize, Look, ListDirectory, NoCollision, Holds, FileRecord, ListingRecord;
    var path := question.path;
    if Confine(path).Ok? {
      var n := Confine(path).value;
      if question.List? {
        if ListingKey(path) !in memo.listed {
          assert ListingRecord(digest, ListingKey(path), final.listed[ListingKey(path)]) in Records(final, digest);
          ListingStillTrue(fs, now, digest, path);
        }
      } else if NormalizeKey(path) !in memo.seen {
        assert FileRecord(NormalizeKey(path), final.seen[NormalizeKey(path)]) in Records(final, digest);
        FileStillTrue(fs, now, digest, path);
      }
    }
  }

  lemma {:induction false} SameRun(rule: Rule, digest: Digest, fss: seq<Fs>, now: Fs, final: Memo)
    requires RanCleanly(rule, digest, fss)
    requires forall i | 0 <= i < |fss| :: NoCollision(digest, fss[i], now)
    requires Extends(Recorded(rule, digest, fss), final) && AllHold(final, digest, now)
    ensures RunOver(rule, digest, fss) == RunOver(rule, digest, Still(now, |fss|))
    decreases |fss|
  {
    hide Ask, NoCollision, AllHold, LedBack;
    if fss != [] {
      var before, fs := fss[..|fss| - 1], fss[|fss| - 1];
      var run := RunOver(rule, digest, before);
      RunExtends(rule, digest, run, fs);
      SameRun(rule, digest, before, now, final);
      assert Still(now, |fss|)[..|fss| - 1] == Still(now, |before|);
      var next := rule(run.answers);
      if next.Some? {
        SameAnswer(run.memo, fs, now, digest, next.value, final);
      }
    }
  }

  /** Replay soundness. If the recorded dependencies hold of the filesystem as it is now, running the rule on it afresh
    * gives every answer and error the recorded run was given, and records the same dependencies; whatever happened to
    * the files while the recorded run was under way. */
  lemma ReplaySoundness(rule: Rule, digest: Digest, fss: seq<Fs>, now: Fs)
    requires RanCleanly(rule, digest, fss)
    requires forall i | 0 <= i < |fss| :: NoCollision(digest, fss[i], now)
    requires Validate(DependenciesOf(Recorded(rule, digest, fss), digest), now, digest)
    ensures var once, again := RunOver(rule, digest, fss), RunOver(rule, digest, Still(now, |fss|));
      && again.answers == once.answers
      && DependenciesOf(again.memo, digest) == DependenciesOf(once.memo, digest)
  {
    hide AllHold, Extends;
    ValidatesAllRecords(Recorded(rule, digest, fss), digest, now);
    ExtendsItself(Recorded(rule, digest, fss));
    SameRun(rule, digest, fss, now, Recorded(rule, digest, fss));
  }

  lemma ExtendsItself(memo: Memo)
    ensures Extends(memo, memo)
  {
  }

  // ----- Fresh runs -----

  /** Every outcome is what the filesystem gives where the key leads. */
  ghost predicate TrueOf(memo: Memo, digest: Digest, now: Fs) {
    && (forall key | key in memo.seen :: IsFilePath(key) && memo.seen[key] == Look(now, digest, Trail(key)))
    && (forall key | key in memo.listed ::
          IsFilePath(key) && Normalize(Components(key)) == Trail(key)
            && memo.listed[key] == ListDirectory(now, Trail(key)))
  }

  lemma AskKeepsTrue(memo: Memo, now: Fs, digest: Digest, question: Question)
    requires TrueOf(memo, digest, now) && LedBack(memo, question)
    ensures TrueOf(Ask(memo, now, digest, question).0, digest, now)
  {
    hide Normalize, NormalizeKey, ListingKey, Trail, Look, ListDirectory, IsFilePath, IsClean;
    if Confine(question.path).Ok? && !IsKnown(memo, question) {
      KeyLeadsBack(question.path);
      ListingKeyLeadsBack(question.path);
    }
  }

  lemma TrueRecordsHold(memo: Memo, digest: Digest, now: Fs)
    requires TrueOf(memo, digest, now)
    ensures AllHold(memo, digest, now)
  {
    hide Normalize, Trail, EntryNames, FilePath;
    forall read | read in FileRecords(memo.seen)
      ensures Holds(now, digest, read)
    {
      var key :| key in memo.seen && read == FileRecord(key, memo.seen[key]);
    }
    forall read | read in ListingRecords(digest, memo.listed)
      ensures Holds(now, digest, read)
    {
      var key :| key in memo.listed && read == ListingRecord(digest, key, memo.listed[key]);
    }
  }

  lemma {:induction false} FreshRunIsTrue(rule: Rule, digest: Digest, now: Fs, steps: nat)
    requires RanCleanly(rule, digest, Still(now, steps))
    ensures TrueOf(Recorded(rule, digest, Still(now, steps)), digest, now)
  {
    hide Ask, TrueOf, LedBack;
    if steps == 0 {
      NothingIsTrue(digest, now);
    } else {
      assert Still(now, steps)[..steps - 1] == Still(now, steps - 1);
      FreshRunIsTrue(rule, digest, now, steps - 1);
      var run := RunOver(rule, digest, Still(now, steps - 1));
      if rule(run.answers).Some? {
        AskKeepsTrue(run.memo, now, digest, rule(run.answers).value);
      }
    }
  }

  lemma NothingIsTrue(digest: Digest, now: Fs)
    ensures TrueOf(EMPTY, digest, now)
  {
  }

  /** Nothing invalidates while nothing changes. */
  lemma UnchangedFilesValidate(rule: Rule, digest: Digest, now: Fs, steps: nat)
    requires RanCleanly(rule, digest, Still(now, steps))
    ensures Validate(DependenciesOf(Recorded(rule, digest, Still(now, steps)), digest), now, digest)
  {
    hide AllHold, TrueOf;
    var memo := Recorded(rule, digest, Still(now, steps));
    FreshRunIsTrue(rule, digest, now, steps);
    TrueRecordsHold(memo, digest, now);
    ValidatesAllRecords(memo, digest, now);
  }

  /** Revalidating agrees with running again: the recorded dependencies hold exactly when a fresh run would record
    * them. */
  lemma ValidatesExactlyWhenRerunAgrees(rule: Rule, digest: Digest, fss: seq<Fs>, now: Fs)
    requires RanCleanly(rule, digest, fss) && RanCleanly(rule, digest, Still(now, |fss|))
    requires forall i | 0 <= i < |fss| :: NoCollision(digest, fss[i], now)
    ensures var once, again := Recorded(rule, digest, fss), Recorded(rule, digest, Still(now, |fss|));
      Validate(DependenciesOf(once, digest), now, digest)
      <==> DependenciesOf(again, digest) == DependenciesOf(once, digest)
  {
    hide LedBack, NoCollision, Validate, DependenciesOf;
    UnchangedFilesValidate(rule, digest, now, |fss|);
    var once := Recorded(rule, digest, fss);
    if Validate(DependenciesOf(once, digest), now, digest) {
      ReplaySoundness(rule, digest, fss, now);
    }
  }

  // ----- One question, one answer -----

  /** Within a run a question keeps the answer it was first given, even if the files changed in between; exactly but for
    * a path that its text ruled out and that something has been recorded under since. */
  lemma SameQuestionSameAnswer(rule: Rule, digest: Digest, fss: seq<Fs>, i: nat, j: nat, question: Question)
    requires i < j < |fss|
    requires rule(RunOver(rule, digest, fss[..i]).answers) == Some(question)
    requires rule(RunOver(rule, digest, fss[..j]).answers) == Some(question)
    ensures var first := RunOver(rule, digest, fss[..i + 1]).answers;
      var second := RunOver(rule, digest, fss[..j + 1]).answers;
      && first != [] && second != []
      && (first[|first| - 1] == second[|second| - 1]
          <==> KeepsItsAnswer(Recorded(rule, digest, fss[..i]), Recorded(rule, digest, fss[..j]), question))
  {
    hide Ask, Extends, KeepsItsAnswer, Confine;
    assert fss[..i + 1][..i] == fss[..i] && fss[..j + 1][..j] == fss[..j];
    var before, later := Recorded(rule, digest, fss[..i]), Recorded(rule, digest, fss[..j]);
    assert fss[..j][..i + 1] == fss[..i + 1];
    RunGrows(rule, digest, fss[..j], i + 1);
    AskedAgain(before, fss[i], later, fss[j], digest, question);
  }
}
