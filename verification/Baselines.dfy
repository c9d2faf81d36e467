/** Baselines: recording the violations a project has accepted, and filtering a run against them. */
module Baselines {
  import opened Wrappers
  import opened Words
  import opened RuleIds
  import opened Reports
  import opened Sorting
  import opened Text

  /** One accepted finding, `count` times over. */
  datatype Accepted = Accepted(rule: RuleId, file: string, fingerprint: string, count: u32)

  datatype Key = Key(rule: RuleId, file: string, fingerprint: string)

  /** What a run could have seen. */
  datatype RunScope = RunScope(files: Option<set<string>>, skippedRules: set<RuleId>) {
    predicate Covers(e: Accepted) {
      e.rule !in skippedRules && (files.Some? ==> e.file in files.value)
    }
  }

  datatype Applied = Applied(unaccepted: seq<Violation>, baselined: nat, stale: seq<Accepted>)

  /** The line texts a violation's file holds, and the digest of a rule, a file and a normalized line. */
  datatype Source = Source(line: (string, u32) -> string, digest: (RuleId, string, string) -> string)

  /** The words of a line, with one space between each and the next. */
  function Normalize(line: string): string {
    Join(SplitWords(line), " ")
  }

  /** Two lines are told apart by their words alone, whatever white space stands around them. */
  lemma NormalizeKeepsTheWords(a: string, b: string)
    ensures Normalize(a) == Normalize(b) <==> SplitWords(a) == SplitWords(b)
    ensures Normalize(Normalize(a)) == Normalize(a)
  {
    PiecesArePieces(a, IsWhitespace);
    PiecesArePieces(b, IsWhitespace);
    SplitJoined(SplitWords(a), " ", "", IsWhitespace);
    SplitJoined(SplitWords(b), " ", "", IsWhitespace);
    assert Normalize(a) + "" == Normalize(a) && Normalize(b) + "" == Normalize(b);
  }

  predicate IsBaselineable(rule: RuleId) {
    Show(rule) != "lanekeep/suppression"
  }

  function KeyOf(v: Violation, source: Source): Key {
    var text := source.line(v.location.file, v.location.line);
    Key(v.ruleId, v.location.file, source.digest(v.ruleId, v.location.file, Normalize(text)))
  }

  function KeyOfAccepted(e: Accepted): Key {
    Key(e.rule, e.file, e.fingerprint)
  }

  function Min(a: nat, b: nat): nat {
    if a < b then a else b
  }

  // ----- Ordered entries -----

  function CompareKeys(a: Key, b: Key): Ordering {
    CompareIds(a.rule, b.rule).Then(CompareText(a.file, b.file)).Then(CompareText(a.fingerprint, b.fingerprint))
  }

  predicate KeyLe(a: Key, b: Key) {
    !CompareKeys(a, b).Greater?
  }

  lemma CompareKeysLaws(a: Key, b: Key, c: Key)
    ensures CompareKeys(a, b).Equal? <==> a == b
    ensures CompareKeys(b, a) == CompareKeys(a, b).Reverse()
    ensures Chains(CompareKeys(a, b), CompareKeys(b, c), CompareKeys(a, c))
  {
    hide CompareIds, CompareText;
    CompareIdsEqual(a.rule, b.rule);
    CompareTextEqual(a.file, b.file);
    CompareTextEqual(a.fingerprint, b.fingerprint);
    CompareIdsReverse(a.rule, b.rule);
    CompareTextReverse(a.file, b.file);
    CompareTextReverse(a.fingerprint, b.fingerprint);
    CompareIdsChains(a.rule, b.rule, c.rule);
    CompareTextChains(a.file, b.file, c.file);
    CompareTextChains(a.fingerprint, b.fingerprint, c.fingerprint);
  }

  lemma KeyLeIsTotalOrder()
    ensures Preorder(KeyLe)
    ensures forall a, b :: KeyLe(a, b) && KeyLe(b, a) ==> a == b
  {
    hide CompareKeys;
    forall a, b, c
      ensures KeyLe(a, b) || KeyLe(b, a)
      ensures KeyLe(a, b) && KeyLe(b, a) ==> a == b
      ensures KeyLe(a, b) && KeyLe(b, c) ==> KeyLe(a, c)
    {
      CompareKeysLaws(a, b, c);
    }
  }

  function AcceptedOf(counts: map<Key, u32>, keys: seq<Key>): (r: seq<Accepted>)
    requires forall k | k in keys :: k in counts
    ensures forall e | e in r :: KeyOfAccepted(e) in keys && e.count == counts[KeyOfAccepted(e)] > 0
    ensures forall k | k in keys && counts[k] > 0 :: Accepted(k.rule, k.file, k.fingerprint, counts[k]) in r
  {
    if keys == [] then []
    else
      var rest := AcceptedOf(counts, keys[1..]);
      var k := keys[0];
      if counts[k] > 0 then [Accepted(k.rule, k.file, k.fingerprint, counts[k])] + rest else rest
  }

  ghost function OrderedKeys(counts: map<Key, u32>): (r: seq<Key>)
    ensures multiset(r) == multiset(counts.Keys)
    ensures forall k :: k in r <==> k in counts
  {
    var r := InOrder(counts.Keys, KeyLe);
    assert forall k :: k in r <==> k in multiset(r);
    r
  }

  /** `entries`: sorted, and only what is left to count. */
  ghost function Entries(counts: map<Key, u32>): seq<Accepted> {
    AcceptedOf(counts, OrderedKeys(counts))
  }

  // ----- Counting -----

  /** Does this violation use up one of the key's accepted findings? */
  predicate Uses(v: Violation, k: Key, source: Source) {
    IsBaselineable(v.ruleId) && KeyOf(v, source) == k
  }

  function Occurrences(violations: seq<Violation>, k: Key, source: Source): nat {
    if violations == [] then 0
    else
      Occurrences(violations[..|violations| - 1], k, source)
      + (if Uses(violations[|violations| - 1], k, source) then 1 else 0)
  }

  function Sum(entries: seq<Accepted>, k: Key): nat {
    if entries == [] then 0
    else
      var last := entries[|entries| - 1];
      Sum(entries[..|entries| - 1], k)
      + (if IsBaselineable(last.rule) && KeyOfAccepted(last) == k then last.count else 0)
  }

  /** What a baseline accepts of one key: its entries' counts, summed and saturated. */
  function Allowance(entries: seq<Accepted>, k: Key): u32 {
    Narrowed(Sum(entries, k))
  }

  /** The violation at `i` is covered when its key has findings left after all the earlier ones. */
  predicate Covered(entries: seq<Accepted>, violations: seq<Violation>, i: nat, source: Source)
    requires i < |violations|
  {
    var v := violations[i];
    IsBaselineable(v.ruleId)
    && Occurrences(violations[..i], KeyOf(v, source), source) < Allowance(entries, KeyOf(v, source))
  }

  /** The violations that are not covered, in the order given. */
  function Uncovered(entries: seq<Accepted>, violations: seq<Violation>, n: nat, source: Source): seq<Violation>
    requires n <= |violations|
  {
    if n == 0 then []
    else
      Uncovered(entries, violations, n - 1, source)
      + (if Covered(entries, violations, n - 1, source) then [] else [violations[n - 1]])
  }

  function CoveredCount(entries: seq<Accepted>, violations: seq<Violation>, n: nat, source: Source): nat
    requires n <= |violations|
  {
    if n == 0 then 0
    else
      CoveredCount(entries, violations, n - 1, source)
      + (if Covered(entries, violations, n - 1, source) then 1 else 0)
  }

  /** How many of the covered ones have this key. */
  function CoveredOf(entries: seq<Accepted>, violations: seq<Violation>, k: Key, n: nat, source: Source): nat
    requires n <= |violations|
  {
    if n == 0 then 0
    else
      CoveredOf(entries, violations, k, n - 1, source)
      + (if Covered(entries, violations, n - 1, source) && Uses(violations[n - 1], k, source) then 1 else 0)
  }

  // ----- Conservation -----

  lemma PrefixOfPrefix<T>(s: seq<T>, i: nat, j: nat)
    requires i <= j <= |s|
    ensures s[..j][..i] == s[..i]
  {
  }

  /** Each key covers as many of its occurrences as it allows, and no more. */
  lemma {:induction false} CoversWhatItAllows(
    entries: seq<Accepted>, violations: seq<Violation>, k: Key, n: nat, source: Source)
    requires n <= |violations|
    ensures CoveredOf(entries, violations, k, n, source)
            == Min(Allowance(entries, k), Occurrences(violations[..n], k, source))
  {
    if n > 0 {
      CoversWhatItAllows(entries, violations, k, n - 1, source);
      PrefixOfPrefix(violations, n - 1, n);
    }
  }

  /** And they are the earliest: a later one is covered only if every earlier one of its key is. */
  lemma CoversTheEarliest(entries: seq<Accepted>, violations: seq<Violation>, i: nat, j: nat, source: Source)
    requires i < j < |violations|
    requires KeyOf(violations[i], source) == KeyOf(violations[j], source)
    requires Covered(entries, violations, j, source)
    ensures Covered(entries, violations, i, source)
  {
    OccurrencesGrow(violations, KeyOf(violations[i], source), i, j, source);
  }

  lemma {:induction false} OccurrencesGrow(violations: seq<Violation>, k: Key, i: nat, j: nat, source: Source)
    requires i <= j <= |violations|
    ensures Occurrences(violations[..i], k, source) <= Occurrences(violations[..j], k, source)
    decreases j
  {
    if i < j {
      PrefixOfPrefix(violations, j - 1, j);
      OccurrencesGrow(violations, k, i, j - 1, source);
    }
  }

  /** Nothing is lost or invented: every violation is either reported or counted as covered. */
  lemma {:induction false} NothingIsLost(entries: seq<Accepted>, violations: seq<Violation>, n: nat, source: Source)
    requires n <= |violations|
    ensures |Uncovered(entries, violations, n, source)| + CoveredCount(entries, violations, n, source) == n
  {
    if n > 0 {
      NothingIsLost(entries, violations, n - 1, source);
    }
  }

  /** What is left of a key after a run: its allowance less what it covered. */
  function Leftover(entries: seq<Accepted>, violations: seq<Violation>, k: Key, source: Source): u32 {
    Allowance(entries, k) - Min(Allowance(entries, k), Occurrences(violations, k, source))
  }

  ghost function BaselineKeys(entries: seq<Accepted>): set<Key> {
    set e | e in entries && IsBaselineable(e.rule) :: KeyOfAccepted(e)
  }

  ghost function Leftovers(entries: seq<Accepted>, violations: seq<Violation>, source: Source): map<Key, u32> {
    map k | k in BaselineKeys(entries) :: Leftover(entries, violations, k, source)
  }

  function InScope(entries: seq<Accepted>, scope: RunScope): (r: seq<Accepted>)
    ensures forall e :: e in r <==> e in entries && scope.Covers(e)
  {
    if entries == [] then []
    else if scope.Covers(entries[0]) then [entries[0]] + InScope(entries[1..], scope)
    else InScope(entries[1..], scope)
  }

  /** What `apply` answers. */
  ghost function Filtered(entries: seq<Accepted>, violations: seq<Violation>, source: Source,
    scope: RunScope): Applied {
    Applied(
      Uncovered(entries, violations, |violations|, source),
      CoveredCount(entries, violations, |violations|, source),
      InScope(Entries(Leftovers(entries, violations, source)), scope))
  }

  /** An entry is stale exactly when the run could have seen it and its key has findings left. */
  lemma StaleExactly(entries: seq<Accepted>, violations: seq<Violation>, source: Source, scope: RunScope, e: Accepted)
    ensures e in Filtered(entries, violations, source, scope).stale <==>
            && e.rule !in scope.skippedRules && (scope.files.None? || e.file in scope.files.value)
            && KeyOfAccepted(e) in BaselineKeys(entries)
            && e.count == Leftover(entries, violations, KeyOfAccepted(e), source) > 0
  {
    var left := Leftovers(entries, violations, source);
    var k := KeyOfAccepted(e);
    assert e == Accepted(k.rule, k.file, k.fingerprint, e.count);
  }

  // ----- Recording, then applying -----

  ghost function RecordedKeys(violations: seq<Violation>, source: Source): set<Key> {
    set v | v in violations && IsBaselineable(v.ruleId) :: KeyOf(v, source)
  }

  ghost function Counts(violations: seq<Violation>, source: Source): map<Key, u32> {
    map k | k in RecordedKeys(violations, source) :: Narrowed(Occurrences(violations, k, source))
  }

  /** What `record` answers. */
  ghost function Recorded(violations: seq<Violation>, source: Source): seq<Accepted> {
    Entries(Counts(violations, source))
  }

  function Own(e: Accepted, k: Key): nat {
    if IsBaselineable(e.rule) && KeyOfAccepted(e) == k then e.count else 0
  }

  lemma {:induction false} SumCons(e: Accepted, rest: seq<Accepted>, k: Key)
    ensures Sum([e] + rest, k) == Own(e, k) + Sum(rest, k)
  {
    if rest == [] {
      assert [e] + rest == [e];
    } else {
      assert ([e] + rest)[..|rest|] == [e] + rest[..|rest| - 1];
      SumCons(e, rest[..|rest| - 1], k);
    }
  }

  lemma {:induction false} SumOfAccepted(counts: map<Key, u32>, keys: seq<Key>, k: Key)
    requires forall x | x in keys :: x in counts && IsBaselineable(x.rule)
    requires forall i, j | 0 <= i < j < |keys| :: keys[i] != keys[j]
    ensures Sum(AcceptedOf(counts, keys), k) == if k in keys then counts[k] else 0
  {
    if keys != [] {
      SumOfAccepted(counts, keys[1..], k);
      var x := keys[0];
      if counts[x] > 0 {
        SumCons(Accepted(x.rule, x.file, x.fingerprint, counts[x]), AcceptedOf(counts, keys[1..]), k);
      }
    }
  }

  lemma OrderedKeysAreDistinct(counts: map<Key, u32>, i: nat, j: nat)
    requires i < j < |OrderedKeys(counts)|
    ensures OrderedKeys(counts)[i] != OrderedKeys(counts)[j]
  {
    hide OrderedKeys;
    var keys := OrderedKeys(counts);
    assert multiset(keys)[keys[i]] <= 1;
    if keys[i] == keys[j] {
      AppearsTwice(keys, i, j);
    }
  }

  lemma {:induction false} NoOccurrences(violations: seq<Violation>, k: Key, source: Source)
    requires k !in RecordedKeys(violations, source)
    ensures Occurrences(violations, k, source) == 0
  {
    if violations != [] {
      var n := |violations| - 1;
      assert violations[n] in violations;
      NoOccurrences(violations[..n], k, source);
    }
  }

  /** What a recorded baseline allows is what was seen when it was recorded. */
  lemma RecordedAllowance(violations: seq<Violation>, k: Key, source: Source)
    ensures Allowance(Recorded(violations, source), k) == Narrowed(Occurrences(violations, k, source))
  {
    hide OrderedKeys;
    var counts := Counts(violations, source);
    var keys := OrderedKeys(counts);
    forall i, j | 0 <= i < j < |keys|
      ensures keys[i] != keys[j]
    {
      OrderedKeysAreDistinct(counts, i, j);
    }
    SumOfAccepted(counts, keys, k);
    if k !in counts {
      NoOccurrences(violations, k, source);
    }
  }

  function NotBaselineable(violations: seq<Violation>, n: nat): (r: seq<Violation>)
    requires n <= |violations|
    ensures forall v | v in r :: !IsBaselineable(v.ruleId)
  {
    if n == 0 then []
    else
      NotBaselineable(violations, n - 1)
      + (if IsBaselineable(violations[n - 1].ruleId) then [] else [violations[n - 1]])
  }

  lemma OccursOnceMore(violations: seq<Violation>, i: nat, source: Source)
    requires i < |violations| && IsBaselineable(violations[i].ruleId)
    ensures var k := KeyOf(violations[i], source);
            Occurrences(violations[..i], k, source) < Occurrences(violations, k, source)
  {
    var k := KeyOf(violations[i], source);
    PrefixOfPrefix(violations, i, i + 1);
    OccurrencesGrow(violations, k, i + 1, |violations|, source);
    assert violations[..|violations|] == violations;
  }

  lemma {:induction false} AllCovered(violations: seq<Violation>, n: nat, source: Source)
    requires n <= |violations|
    requires forall k :: Occurrences(violations, k, source) <= U32_MAX
    ensures Uncovered(Recorded(violations, source), violations, n, source) == NotBaselineable(violations, n)
  {
    hide Recorded, Allowance;
    if n > 0 {
      AllCovered(violations, n - 1, source);
      if IsBaselineable(violations[n - 1].ruleId) {
        OccursOnceMore(violations, n - 1, source);
        RecordedAllowance(violations, KeyOf(violations[n - 1], source), source);
      }
    }
  }

  /** The occurrence of a key that has exactly `m` before it. */
  lemma {:induction false} NthOccurrence(violations: seq<Violation>, k: Key, m: nat, source: Source) returns (i: nat)
    requires m < Occurrences(violations, k, source)
    ensures i < |violations| && Uses(violations[i], k, source) && Occurrences(violations[..i], k, source) == m
  {
    var n := |violations| - 1;
    if m < Occurrences(violations[..n], k, source) {
      i := NthOccurrence(violations[..n], k, m, source);
      PrefixOfPrefix(violations, i, n);
    } else {
      i := n;
    }
  }

  lemma {:induction false} UncoveredHolds(entries: seq<Accepted>, violations: seq<Violation>, n: nat, i: nat,
    source: Source)
    requires i < n <= |violations| && !Covered(entries, violations, i, source)
    ensures violations[i] in Uncovered(entries, violations, n, source)
  {
    if i < n - 1 {
      UncoveredHolds(entries, violations, n - 1, i, source);
    }
  }

  /**
    Recording a run and applying the record to it leaves only what may not be baselined, and
    nothing stale, exactly when no finding occurs more often than a count can say.
  */
  lemma RecordThenApply(violations: seq<Violation>, source: Source, scope: RunScope)
    ensures var applied := Filtered(Recorded(violations, source), violations, source, scope);
            && (applied.unaccepted == NotBaselineable(violations, |violations|)
                <==> forall k :: Occurrences(violations, k, source) <= U32_MAX)
            && applied.stale == []
  {
    hide Recorded, Allowance, Occurrences;
    var entries := Recorded(violations, source);
    if forall k :: Occurrences(violations, k, source) <= U32_MAX {
      AllCovered(violations, |violations|, source);
    } else {
      var k :| Occurrences(violations, k, source) > U32_MAX;
      RecordedAllowance(violations, k, source);
      var i := NthOccurrence(violations, k, U32_MAX, source);
      UncoveredHolds(entries, violations, |violations|, i, source);
    }
    NothingStale(violations, source, scope);
  }

  lemma NothingStale(violations: seq<Violation>, source: Source, scope: RunScope)
    ensures Filtered(Recorded(violations, source), violations, source, scope).stale == []
  {
    hide Recorded, Allowance, Occurrences;
    var entries := Recorded(violations, source);
    var stale := Filtered(entries, violations, source, scope).stale;
    if stale != [] {
      StaleExactly(entries, violations, source, scope, stale[0]);
      RecordedAllowance(violations, KeyOfAccepted(stale[0]), source);
    }
  }

  // ----- What a baseline goes by: the rule, the file and the words of the line -----

  const SUPPRESSION_RULE: string := "lanekeep/suppression"

  /** The words of the line a violation is reported on. */
  function WordsOf(v: Violation, source: Source): seq<string> {
    SplitWords(source.line(v.location.file, v.location.line))
  }

  /** Of one rule, in one file, on lines of the same words. */
  predicate Alike(v: Violation, source: Source, w: Violation, now: Source) {
    v.ruleId == w.ruleId && v.location.file == w.location.file && WordsOf(v, source) == WordsOf(w, now)
  }

  /** How many violations are like `w`. */
  function HowMany(violations: seq<Violation>, source: Source, w: Violation, now: Source): nat {
    if violations == [] then 0
    else
      var n := |violations| - 1;
      HowMany(violations[..n], source, w, now) + if Alike(violations[n], source, w, now) then 1 else 0
  }

  /** The digest tells a file's lines apart for a rule, as far as their words differ. */
  ghost predicate TellsApart(digest: (RuleId, string, string) -> string) {
    forall rule, file, a, b :: digest(rule, file, a) == digest(rule, file, b) ==> a == b
  }

  lemma AlikeIsSameKey(v: Violation, source: Source, w: Violation, now: Source)
    requires source.digest == now.digest
    ensures Alike(v, source, w, now) ==> KeyOf(v, source) == KeyOf(w, now)
    ensures TellsApart(now.digest) && KeyOf(v, source) == KeyOf(w, now) ==> Alike(v, source, w, now)
  {
    hide Normalize, SplitWords;
    NormalizeKeepsTheWords(
      source.line(v.location.file, v.location.line), now.line(w.location.file, w.location.line));
  }

  lemma {:induction false} OccurrencesAreAlike(violations: seq<Violation>, source: Source, w: Violation, now: Source)
    requires source.digest == now.digest && TellsApart(now.digest) && Show(w.ruleId) != SUPPRESSION_RULE
    ensures Occurrences(violations, KeyOf(w, now), source) == HowMany(violations, source, w, now)
  {
    hide KeyOf, Alike, TellsApart;
    if violations != [] {
      var n := |violations| - 1;
      OccurrencesAreAlike(violations[..n], source, w, now);
      AlikeIsSameKey(violations[n], source, w, now);
      KeyHasRule(violations[n], source);
      KeyHasRule(w, now);
    }
  }

  lemma KeyHasRule(v: Violation, source: Source)
    ensures KeyOf(v, source).rule == v.ruleId
  {
  }

  /** A violation is covered exactly when it may be, and fewer like it came before it than were recorded, wherever in
    * the file they stood and however their lines were spaced. */
  lemma CoveredExactly(seen: seq<Violation>, past: Source, violations: seq<Violation>, now: Source, i: nat)
    requires past.digest == now.digest && TellsApart(now.digest) && i < |violations|
    ensures var v := violations[i];
      Covered(Recorded(seen, past), violations, i, now)
      <==> Show(v.ruleId) != SUPPRESSION_RULE
           && HowMany(violations[..i], now, v, now) < Min(HowMany(seen, past, v, now), U32_MAX)
  {
    hide KeyOf, Recorded, Allowance, Occurrences, HowMany, TellsApart;
    var v := violations[i];
    if Show(v.ruleId) != SUPPRESSION_RULE {
      OccurrencesAreAlike(violations[..i], now, v, now);
      OccurrencesAreAlike(seen, past, v, now);
      RecordedAllowance(seen, KeyOf(v, now), past);
    }
  }

  /** The violations a record does not cover: those that may not be, and those like it beyond the number recorded. */
  function Beyond(seen: seq<Violation>, past: Source, violations: seq<Violation>, now: Source, n: nat): seq<Violation>
    requires n <= |violations|
  {
    if n == 0 then []
    else
      var v := violations[n - 1];
      var covered := Show(v.ruleId) != SUPPRESSION_RULE
        && HowMany(violations[..n - 1], now, v, now) < Min(HowMany(seen, past, v, now), U32_MAX);
      Beyond(seen, past, violations, now, n - 1) + if covered then [] else [v]
  }

  lemma {:induction false} UncoveredAreBeyond(
    seen: seq<Violation>, past: Source, violations: seq<Violation>, now: Source, n: nat)
    requires past.digest == now.digest && TellsApart(now.digest) && n <= |violations|
    ensures Uncovered(Recorded(seen, past), violations, n, now) == Beyond(seen, past, violations, now, n)
  {
    hide Covered, Recorded, HowMany, TellsApart;
    if n > 0 {
      UncoveredAreBeyond(seen, past, violations, now, n - 1);
      CoveredExactly(seen, past, violations, now, n - 1);
    }
  }

  /** Recording one run and applying the record to another reports exactly those, in the order given. */
  lemma ReportedExactly(
    seen: seq<Violation>, past: Source, violations: seq<Violation>, now: Source, scope: RunScope)
    requires past.digest == now.digest && TellsApart(now.digest)
    ensures Filtered(Recorded(seen, past), violations, now, scope).unaccepted
         == Beyond(seen, past, violations, now, |violations|)
  {
    hide Recorded, TellsApart, Uncovered, Beyond;
    UncoveredAreBeyond(seen, past, violations, now, |violations|);
  }

  /** Once lines have moved, or been spaced otherwise, recording and then applying still leaves nothing stale, whatever
    * the digest; and only what may not be baselined, exactly if no key occurs more often than can be counted. */
  lemma MovedLinesAreCovered(
    seen: seq<Violation>, past: Source, violations: seq<Violation>, now: Source, scope: RunScope)
    requires past.digest == now.digest && |seen| == |violations|
    requires forall i | 0 <= i < |seen| :: Alike(seen[i], past, violations[i], now)
    ensures var applied := Filtered(Recorded(seen, past), violations, now, scope);
      && applied.stale == []
      && (applied.unaccepted == NotBaselineable(violations, |violations|)
          <==> forall k :: Occurrences(violations, k, now) <= U32_MAX)
      && ((forall k :: Occurrences(violations, k, now) <= U32_MAX)
          ==> forall v | v in applied.unaccepted :: Show(v.ruleId) == SUPPRESSION_RULE)
  {
    hide Recorded, Filtered, Alike, Occurrences, NotBaselineable;
    SameKeysThroughout(seen, past, violations, now);
    SameRecord(seen, past, violations, now);
    RecordThenApply(violations, now, scope);
  }

  ghost predicate SameKeys(seen: seq<Violation>, past: Source, violations: seq<Violation>, now: Source) {
    && |seen| == |violations|
    && forall i | 0 <= i < |seen| :: KeyOf(seen[i], past) == KeyOf(violations[i], now)
                                     && seen[i].ruleId == violations[i].ruleId
  }

  lemma SameKeysThroughout(seen: seq<Violation>, past: Source, violations: seq<Violation>, now: Source)
    requires past.digest == now.digest && |seen| == |violations|
    requires forall i | 0 <= i < |seen| :: Alike(seen[i], past, violations[i], now)
    ensures SameKeys(seen, past, violations, now)
  {
    hide KeyOf;
    forall i | 0 <= i < |seen|
      ensures KeyOf(seen[i], past) == KeyOf(violations[i], now) && seen[i].ruleId == violations[i].ruleId
    {
      AlikeIsSameKey(seen[i], past, violations[i], now);
    }
  }

  lemma {:induction false} SameOccurrences(
    seen: seq<Violation>, past: Source, violations: seq<Violation>, now: Source, k: Key)
    requires SameKeys(seen, past, violations, now)
    ensures Occurrences(seen, k, past) == Occurrences(violations, k, now)
  {
    hide KeyOf;
    if seen != [] {
      var n := |seen| - 1;
      SameOccurrences(seen[..n], past, violations[..n], now, k);
    }
  }

  lemma SameRecord(seen: seq<Violation>, past: Source, violations: seq<Violation>, now: Source)
    requires SameKeys(seen, past, violations, now)
    ensures Recorded(seen, past) == Recorded(violations, now)
  {
    hide KeyOf, Occurrences, Entries, IsBaselineable;
    assert RecordedKeys(seen, past) == RecordedKeys(violations, now) by {
      RecordedAlike(seen, past, violations, now);
      RecordedAlike(violations, now, seen, past);
    }
    forall k
      ensures Occurrences(seen, k, past) == Occurrences(violations, k, now)
    {
      SameOccurrences(seen, past, violations, now, k);
    }
    assert Counts(seen, past) == Counts(violations, now);
  }

  lemma RecordedAlike(seen: seq<Violation>, past: Source, violations: seq<Violation>, now: Source)
    requires SameKeys(seen, past, violations, now)
    ensures RecordedKeys(seen, past) <= RecordedKeys(violations, now)
  {
    hide KeyOf, IsBaselineable;
    forall k | k in RecordedKeys(seen, past)
      ensures k in RecordedKeys(violations, now)
    {
      var v :| v in seen && IsBaselineable(v.ruleId) && KeyOf(v, past) == k;
      var i :| 0 <= i < |seen| && seen[i] == v;
      assert violations[i] in violations;
    }
  }

  /** Recorded for a violation. */
  ghost predicate Records(e: Accepted, v: Violation, violations: seq<Violation>, source: Source) {
    && Show(v.ruleId) != SUPPRESSION_RULE && e.rule == v.ruleId && e.file == v.location.file
    && e.fingerprint == source.digest(v.ruleId, v.location.file, Join(WordsOf(v, source), " "))
    && e.count == Narrowed(Occurrences(violations, KeyOfAccepted(e), source))
  }

  /** What is recorded: the rule, the file and the digest of the line's words, and how often they were seen. */
  lemma RecordedExactly(violations: seq<Violation>, source: Source, e: Accepted)
    ensures e in Recorded(violations, source) <==> exists v | v in violations :: Records(e, v, violations, source)
  {
    hide Occurrences, OrderedKeys;
    var counts, k := Counts(violations, source), KeyOfAccepted(e);
    assert e == Accepted(k.rule, k.file, k.fingerprint, e.count);
    if e in Recorded(violations, source) {
      var v :| v in violations && IsBaselineable(v.ruleId) && KeyOf(v, source) == k;
      assert Records(e, v, violations, source);
    }
    if v :| v in violations && Records(e, v, violations, source) {
      var i :| 0 <= i < |violations| && violations[i] == v;
      OccursOnceMore(violations, i, source);
      assert KeyOf(v, source) == k;
    }
  }

  ghost predicate EntriesOrdered(entries: seq<Accepted>) {
    forall i, j | 0 <= i < j < |entries| :: KeyBefore(KeyOfAccepted(entries[i]), KeyOfAccepted(entries[j]))
  }

  ghost predicate KeyBefore(a: Key, b: Key) {
    KeyLe(a, b) && a != b
  }

  lemma OrderedCons(e: Accepted, rest: seq<Accepted>)
    requires EntriesOrdered(rest)
    requires forall x | x in rest :: KeyBefore(KeyOfAccepted(e), KeyOfAccepted(x))
    ensures EntriesOrdered([e] + rest)
  {
    hide KeyBefore, KeyOfAccepted;
    forall i, j | 0 <= i < j < |[e] + rest|
      ensures KeyBefore(KeyOfAccepted(([e] + rest)[i]), KeyOfAccepted(([e] + rest)[j]))
    {
      assert rest[j - 1] in rest;
    }
  }

  lemma {:induction false} AcceptedOrdered(counts: map<Key, u32>, keys: seq<Key>)
    requires forall k | k in keys :: k in counts
    requires StrictlyOrdered(keys)
    ensures EntriesOrdered(AcceptedOf(counts, keys))
  {
    hide KeyBefore, EntriesOrdered;
    if keys == [] {
      NothingOrdered();
    } else {
      var k, rest := keys[0], AcceptedOf(counts, keys[1..]);
      TailOrdered(keys);
      AcceptedOrdered(counts, keys[1..]);
      if counts[k] > 0 {
        forall x | x in rest
          ensures KeyBefore(k, KeyOfAccepted(x))
        {
          FirstIsBefore(keys, KeyOfAccepted(x));
        }
        OrderedCons(Accepted(k.rule, k.file, k.fingerprint, counts[k]), rest);
      }
    }
  }

  lemma NothingOrdered()
    ensures EntriesOrdered([])
  {
  }

  lemma TailOrdered(keys: seq<Key>)
    requires StrictlyOrdered(keys) && keys != []
    ensures StrictlyOrdered(keys[1..])
  {
  }

  lemma FirstIsBefore(keys: seq<Key>, k: Key)
    requires StrictlyOrdered(keys) && keys != [] && k in keys[1..]
    ensures KeyBefore(keys[0], k)
  {
    hide KeyLe;
    var p :| 0 <= p < |keys[1..]| && keys[1..][p] == k;
    assert keys[p + 1] == k;
  }

  ghost predicate StrictlyOrdered(keys: seq<Key>) {
    forall p, q | 0 <= p < q < |keys| :: KeyLe(keys[p], keys[q]) && keys[p] != keys[q]
  }

  /** Entries are in the order of their rules, then of their files, then of their fingerprints. */
  lemma EntriesAreInOrder(counts: map<Key, u32>, i: nat, j: nat)
    requires i < j < |Entries(counts)|
    ensures var a, b := Entries(counts)[i], Entries(counts)[j];
      || CompareIds(a.rule, b.rule).Less?
      || (a.rule == b.rule && CompareText(a.file, b.file).Less?)
      || (a.rule == b.rule && a.file == b.file && CompareText(a.fingerprint, b.fingerprint).Less?)
  {
    hide CompareIds, CompareText, OrderedKeys, AcceptedOf;
    OrderedKeysAreOrdered(counts);
    AcceptedOrdered(counts, OrderedKeys(counts));
    assert KeyBefore(KeyOfAccepted(Entries(counts)[i]), KeyOfAccepted(Entries(counts)[j]));
    var a, b := KeyOfAccepted(Entries(counts)[i]), KeyOfAccepted(Entries(counts)[j]);
    CompareKeysLaws(a, b, b);
    CompareIdsEqual(a.rule, b.rule);
    CompareTextEqual(a.file, b.file);
  }

  lemma OrderedKeysAreOrdered(counts: map<Key, u32>)
    ensures StrictlyOrdered(OrderedKeys(counts))
  {
    KeyLeIsTotalOrder();
    SortBySorted(Elements(counts.Keys), KeyLe);
    InOrderIsDistinct(counts.Keys, KeyLe);
  }

  // ----- The two operations -----

  /** Sorted, non-empty entries from counts. */
  method ToEntries(counts: map<Key, u32>) returns (entries: seq<Accepted>)
    ensures entries == Entries(counts)
  {
    KeyLeIsTotalOrder();
    var keys := SortedElements(counts.Keys, KeyLe);
    assert keys == OrderedKeys(counts);
    entries := AcceptedOf(counts, keys);
  }

  lemma KeysStep(before: seq<Violation>, v: Violation, source: Source)
    ensures RecordedKeys(before + [v], source)
            == RecordedKeys(before, source) + (if IsBaselineable(v.ruleId) then {KeyOf(v, source)} else {})
  {
  }

  lemma OccursStep(before: seq<Violation>, v: Violation, k: Key, source: Source)
    ensures Occurrences(before + [v], k, source)
        == Occurrences(before, k, source) + (if Uses(v, k, source) then 1 else 0)
  {
    assert (before + [v])[..|before|] == before;
  }

  lemma CountsStep(before: seq<Violation>, v: Violation, source: Source)
    ensures var was, k := Counts(before, source), KeyOf(v, source);
            Counts(before + [v], source)
            == if IsBaselineable(v.ruleId) then was[k := SaturatingAdd32(if k in was then was[k] else 0, 1)] else was
  {
    hide KeyOf, RecordedKeys, Occurrences, IsBaselineable;
    KeysStep(before, v, source);
    forall x
      ensures Occurrences(before + [v], x, source)
          == Occurrences(before, x, source) + (if Uses(v, x, source) then 1 else 0)
      ensures x !in RecordedKeys(before, source) ==> Occurrences(before, x, source) == 0
    {
      OccursStep(before, v, x, source);
      if x !in RecordedKeys(before, source) {
        NoOccurrences(before, x, source);
      }
    }
  }

  /** `record`. */
  method Record(violations: seq<Violation>, source: Source) returns (entries: seq<Accepted>)
    ensures entries == Recorded(violations, source)
  {
    hide Counts;
    var counts: map<Key, u32> := map[];
    assert Counts(violations[..0], source) == map[] by {
      NothingCounted(violations[..0], source);
    }
    for i := 0 to |violations|
      invariant counts == Counts(violations[..i], source)
    {
      var v := violations[i];
      CountsStep(violations[..i], v, source);
      assert violations[..i + 1] == violations[..i] + [v];
      if !IsBaselineable(v.ruleId) {
        continue;
      }
      var key := KeyOf(v, source);
      var count := if key in counts then counts[key] else 0;
      counts := counts[key := SaturatingAdd32(count, 1)];
    }
    assert violations[..|violations|] == violations;
    entries := ToEntries(counts);
  }

  lemma NothingCounted(violations: seq<Violation>, source: Source)
    requires violations == []
    ensures Counts(violations, source) == map[]
  {
  }

  /** The first loop of `apply`: duplicate entries sum. */
  method Allow(entries: seq<Accepted>) returns (remaining: map<Key, u32>)
    ensures remaining.Keys == BaselineKeys(entries)
    ensures forall k | k in remaining :: remaining[k] == Allowance(entries, k)
  {
    remaining := map[];
    for i := 0 to |entries|
      invariant remaining.Keys == BaselineKeys(entries[..i])
      invariant forall k | k in remaining :: remaining[k] == Allowance(entries[..i], k)
    {
      var e := entries[i];
      assert entries[..i + 1][..i] == entries[..i] && entries[..i + 1] == entries[..i] + [e];
      AllowStep(entries, i);
      if !IsBaselineable(e.rule) {
        continue;
      }
      var key := KeyOfAccepted(e);
      var count := if key in remaining then remaining[key] else 0;
      remaining := remaining[key := SaturatingAdd32(count, e.count)];
    }
    assert entries[..|entries|] == entries;
  }

  lemma AllowStep(entries: seq<Accepted>, i: nat)
    requires i < |entries|
    ensures var e, k := entries[i], KeyOfAccepted(entries[i]);
            && BaselineKeys(entries[..i + 1])
              == BaselineKeys(entries[..i]) + (if IsBaselineable(e.rule) then {k} else {})
            && (forall x :: Allowance(entries[..i + 1], x)
                  == if IsBaselineable(e.rule) && x == k then SaturatingAdd32(Allowance(entries[..i], k), e.count)
                     else Allowance(entries[..i], x))
            && (k !in BaselineKeys(entries[..i]) && IsBaselineable(e.rule) ==> Allowance(entries[..i], k) == 0)
  {
    var before, after := entries[..i], entries[..i + 1];
    assert after[..i] == before && after == before + [entries[i]];
    var k := KeyOfAccepted(entries[i]);
    if k !in BaselineKeys(before) {
      NoSum(before, k);
    }
  }

  lemma {:induction false} NoSum(entries: seq<Accepted>, k: Key)
    requires k !in BaselineKeys(entries)
    ensures Sum(entries, k) == 0
  {
    if entries != [] {
      var n := |entries| - 1;
      assert entries[n] in entries;
      NoSum(entries[..n], k);
    }
  }

  /** `apply`. */
  method Apply(entries: seq<Accepted>, violations: seq<Violation>, source: Source, scope: RunScope)
    returns (applied: Applied)
    ensures applied == Filtered(entries, violations, source, scope)
  {
    var remaining := Allow(entries);
    var unaccepted, baselined;
    unaccepted, baselined, remaining := Split(entries, remaining, violations, source);
    var stale := ToEntries(remaining);
    applied := Applied(unaccepted, baselined, InScope(stale, scope));
  }

  /** What is left of a key after one more violation. */
  lemma LeftoverStep(entries: seq<Accepted>, violations: seq<Violation>, i: nat, k: Key, source: Source)
    requires i < |violations|
    ensures var left := Leftover(entries, violations[..i], k, source);
      Leftover(entries, violations[..i + 1], k, source)
      == if Uses(violations[i], k, source) && left > 0 then left - 1 else left
  {
    hide KeyOf, Allowance;
    assert violations[..i + 1][..i] == violations[..i];
  }

  lemma CoveredByLeftover(entries: seq<Accepted>, violations: seq<Violation>, i: nat, source: Source)
    requires i < |violations|
    ensures Covered(entries, violations, i, source) <==>
      IsBaselineable(violations[i].ruleId)
        && Leftover(entries, violations[..i], KeyOf(violations[i], source), source) > 0
  {
    hide KeyOf, Allowance, Occurrences;
  }

  /** The walk over the violations, using up what remains of each key. */
  method Split(ghost entries: seq<Accepted>, allowed: map<Key, u32>, violations: seq<Violation>, source: Source)
    returns (unaccepted: seq<Violation>, baselined: nat, remaining: map<Key, u32>)
    requires allowed.Keys == BaselineKeys(entries)
    requires forall k | k in allowed :: allowed[k] == Allowance(entries, k)
    ensures unaccepted == Uncovered(entries, violations, |violations|, source)
    ensures baselined == CoveredCount(entries, violations, |violations|, source)
    ensures remaining == Leftovers(entries, violations, source)
  {
    hide Allowance, KeyOf, Leftover, Covered, Occurrences;
    forall k | k in allowed
      ensures Leftover(entries, violations[..0], k, source) == allowed[k]
    {
      AllLeft(entries, k, source);
      assert violations[..0] == [];
    }
    unaccepted, baselined, remaining := [], 0, allowed;
    for i := 0 to |violations|
      invariant unaccepted == Uncovered(entries, violations, i, source)
      invariant baselined == CoveredCount(entries, violations, i, source)
      invariant remaining.Keys == BaselineKeys(entries)
      invariant forall k | k in remaining :: remaining[k] == Leftover(entries, violations[..i], k, source)
    {
      var v := violations[i];
      var key := KeyOf(v, source);
      CoveredByLeftover(entries, violations, i, source);
      forall k | k in remaining
        ensures Leftover(entries, violations[..i + 1], k, source)
             == if Uses(v, k, source) && remaining[k] > 0 then remaining[k] - 1 else remaining[k]
      {
        LeftoverStep(entries, violations, i, k, source);
      }
      if key !in remaining {
        NotAllowed(entries, key);
        NothingLeft(entries, violations[..i], key, source);
      }
      var covered := IsBaselineable(v.ruleId) && key in remaining && remaining[key] > 0;
      if covered {
        remaining := remaining[key := remaining[key] - 1];
        baselined := baselined + 1;
      } else {
        unaccepted := unaccepted + [v];
      }
    }
    assert violations[..|violations|] == violations;
  }

  lemma NothingLeft(entries: seq<Accepted>, violations: seq<Violation>, k: Key, source: Source)
    requires Allowance(entries, k) == 0
    ensures Leftover(entries, violations, k, source) == 0
  {
  }

  lemma AllLeft(entries: seq<Accepted>, k: Key, source: Source)
    ensures Leftover(entries, [], k, source) == Allowance(entries, k)
  {
  }

  lemma NotAllowed(entries: seq<Accepted>, k: Key)
    requires k !in BaselineKeys(entries)
    ensures Allowance(entries, k) == 0
  {
    NoSum(entries, k);
  }
}
