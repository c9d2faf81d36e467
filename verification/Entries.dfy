/**
  A cache entry and its encoding. Decoding is first described on the path strings as they stand
  in the bytes; `FilePath::new` then normalizes them, which is the one lossy step of the format.
*/
module Entries {
  import opened Wrappers
  import opened Words
  import opened RuleIds
  import opened Calendar
  import opened Fixes
  import opened Reports
  import opened Wire
  import Utf8

  datatype Entry = Entry(
    violations: seq<Violation>, facts: seq<Fact>, dependencies: seq<TrackedRead>,
    suppressions: seq<Suppression>, usedSuppressions: seq<u32>)

  // ----- One-byte codes -----

  function SeverityCode(s: Severity): u8 {
    match s
    case Off => 0
    case Warn => 1
    case Error => 2
  }

  function SeverityFrom(code: u8): Option<Severity> {
    if code == 0 then Some(Off) else if code == 1 then Some(Warn) else if code == 2 then Some(Error) else None
  }

  function BoolCode(b: bool): u8 {
    if b then 1 else 0
  }

  function BoolFrom(code: u8): Option<bool> {
    if code == 0 then Some(false) else if code == 1 then Some(true) else None
  }

  function ScopeCode(s: Scope): u8 {
    match s
    case NextLine => 0
    case File => 1
  }

  function ScopeFrom(code: u8): Option<Scope> {
    if code == 0 then Some(NextLine) else if code == 1 then Some(File) else None
  }

  const SEVERITY: Codec<Severity> := Code(SeverityCode, SeverityFrom)
  const BOOL: Codec<bool> := Code(BoolCode, BoolFrom)
  const SCOPE: Codec<Scope> := Code(ScopeCode, ScopeFrom)

  lemma CodesExact()
    ensures Exact(SEVERITY) && Exact(BOOL) && Exact(SCOPE)
  {
    CodeExact(SeverityCode, SeverityFrom);
    CodeExact(BoolCode, BoolFrom);
    CodeExact(ScopeCode, ScopeFrom);
  }

  // ----- Violations -----

  function FixOf(t: (nat, (nat, (string, bool)))): Fix {
    Fix(t.0, t.1.0, t.1.1.0, t.1.1.1)
  }

  function FixParts(f: Fix): (nat, (nat, (string, bool))) {
    (f.start, (f.end, (f.replacement, f.safe)))
  }

  const FIX: Codec<Fix> := As(Pair(LEN, Pair(LEN, Pair(TEXT, BOOL))), FixOf, FixParts)

  lemma FixesExact()
    ensures Exact(FIX)
  {
    WordsExact();
    TextsExact();
    CodesExact();
    PairExact(TEXT, BOOL);
    PairExact(LEN, Pair(TEXT, BOOL));
    PairExact(LEN, Pair(LEN, Pair(TEXT, BOOL)));
    AsExact(Pair(LEN, Pair(LEN, Pair(TEXT, BOOL))), FixOf, FixParts);
  }

  type Finding = (string, (string, (Severity, Option<Fix>)))

  const FINDING: Codec<Finding> := Pair(TEXT, Pair(TEXT, Pair(SEVERITY, Optional(FIX))))

  lemma FindingsExact()
    ensures Exact(FINDING)
  {
    TextsExact();
    CodesExact();
    FixesExact();
    OptionalExact(FIX);
    PairExact(SEVERITY, Optional(FIX));
    PairExact(TEXT, Pair(SEVERITY, Optional(FIX)));
    PairExact(TEXT, Pair(TEXT, Pair(SEVERITY, Optional(FIX))));
  }

  type ViolationParts = (RuleId, (string, (u32, (u32, Finding))))

  function ViolationOf(t: ViolationParts): Violation {
    var f := t.1.1.1.1;
    Violation(t.0, Location(t.1.0, t.1.1.0, t.1.1.1.0), f.0, f.1.0, f.1.1.0, f.1.1.1)
  }

  function PartsOfViolation(v: Violation): ViolationParts {
    (v.ruleId, (v.location.file, (v.location.line, (v.location.column,
      (v.message, (v.remediation, (v.severity, v.fix)))))))
  }

  const VIOLATION_PARTS: Codec<ViolationParts> := Pair(RULE, Pair(TEXT, Pair(U32, Pair(U32, FINDING))))
  const VIOLATION: Codec<Violation> := As(VIOLATION_PARTS, ViolationOf, PartsOfViolation)

  lemma ViolationsExact()
    ensures Exact(VIOLATION)
  {
    WordsExact();
    TextsExact();
    FindingsExact();
    PairExact(U32, FINDING);
    PairExact(U32, Pair(U32, FINDING));
    PairExact(TEXT, Pair(U32, Pair(U32, FINDING)));
    PairExact(RULE, Pair(TEXT, Pair(U32, Pair(U32, FINDING))));
    AsExact(VIOLATION_PARTS, ViolationOf, PartsOfViolation);
  }

  // ----- Facts -----

  type FactParts = (RuleId, (string, (string, (string, u32))))

  function FactOf(t: FactParts): Fact {
    Fact(t.0, t.1.0, t.1.1.0, t.1.1.1.0, t.1.1.1.1)
  }

  function PartsOfFact(f: Fact): FactParts {
    (f.ruleId, (f.file, (f.kind, (f.data, f.sequence))))
  }

  const FACT_PARTS: Codec<FactParts> := Pair(RULE, Pair(TEXT, Pair(TEXT, Pair(TEXT, U32))))
  const FACT: Codec<Fact> := As(FACT_PARTS, FactOf, PartsOfFact)

  lemma FactsExact()
    ensures Exact(FACT)
  {
    WordsExact();
    TextsExact();
    PairExact(TEXT, U32);
    PairExact(TEXT, Pair(TEXT, U32));
    PairExact(TEXT, Pair(TEXT, Pair(TEXT, U32)));
    PairExact(RULE, Pair(TEXT, Pair(TEXT, Pair(TEXT, U32))));
    AsExact(FACT_PARTS, FactOf, PartsOfFact);
  }

  // ----- Suppressions -----

  function DateOf(t: (u16, (u8, u8))): Date {
    Date(t.0, t.1.0, t.1.1)
  }

  function PartsOfDate(d: Date): (u16, (u8, u8)) {
    (d.year, (d.month, d.day))
  }

  const DATE: Codec<Date> := As(Pair(U16, Pair(U8, U8)), DateOf, PartsOfDate)

  type SuppressionParts = (Scope, (u32, (u32, (string, (seq<RuleId>, Option<Date>)))))

  function SuppressionOf(t: SuppressionParts): Suppression {
    var r := t.1.1.1;
    Suppression(t.0, r.1.0, r.0, r.1.1, t.1.0, t.1.1.0)
  }

  function PartsOfSuppression(s: Suppression): SuppressionParts {
    (s.scope, (s.line, (s.column, (s.reason, (s.rules, s.expires)))))
  }

  const SUPPRESSION_PARTS: Codec<SuppressionParts> :=
    Pair(SCOPE, Pair(U32, Pair(U32, Pair(TEXT, Pair(List(RULE), Optional(DATE))))))
  const SUPPRESSION: Codec<Suppression> := As(SUPPRESSION_PARTS, SuppressionOf, PartsOfSuppression)

  lemma DatesExact()
    ensures Exact(DATE)
  {
    WordsExact();
    PairExact(U8, U8);
    PairExact(U16, Pair(U8, U8));
    AsExact(Pair(U16, Pair(U8, U8)), DateOf, PartsOfDate);
  }

  lemma SuppressionsExact()
    ensures Exact(SUPPRESSION)
  {
    WordsExact();
    TextsExact();
    CodesExact();
    DatesExact();
    ListExact(RULE);
    OptionalExact(DATE);
    PairExact(List(RULE), Optional(DATE));
    PairExact(TEXT, Pair(List(RULE), Optional(DATE)));
    PairExact(U32, Pair(TEXT, Pair(List(RULE), Optional(DATE))));
    PairExact(U32, Pair(U32, Pair(TEXT, Pair(List(RULE), Optional(DATE)))));
    PairExact(SCOPE, Pair(U32, Pair(U32, Pair(TEXT, Pair(List(RULE), Optional(DATE))))));
    AsExact(SUPPRESSION_PARTS, SuppressionOf, PartsOfSuppression);
  }

  // ----- Dependencies -----

  function ReadHash(b: Bytes, at: nat): Option<(ContentHash, nat)> {
    var (bytes, next) :- Take(b, at, 32);
    Some((bytes, next))
  }

  function WriteOutcome(o: ReadOutcome): Bytes {
    match o
    case Absent => [0]
    case Found(hash) => [1] + hash
    case Refused => [2]
    case Listed(hash) => [3] + hash
    case Unlisted => [4]
  }

  function ReadTrackedOutcome(b: Bytes, at: nat): Option<(ReadOutcome, nat)> {
    var (tag, next) :- ReadU8(b, at);
    if tag == 0 then Some((Absent, next))
    else if tag == 1 then
      var (hash, end) :- ReadHash(b, next);
      Some((Found(hash), end))
    else if tag == 2 then Some((Refused, next))
    else if tag == 3 then
      var (hash, end) :- ReadHash(b, next);
      Some((Listed(hash), end))
    else if tag == 4 then Some((Unlisted, next))
    else None
  }

  const OUTCOME: Codec<ReadOutcome> := Codec(WriteOutcome, ReadTrackedOutcome, (v: ReadOutcome) => true)

  function ReadOf(t: (string, ReadOutcome)): TrackedRead {
    TrackedRead(t.0, t.1)
  }

  function PartsOfRead(r: TrackedRead): (string, ReadOutcome) {
    (r.path, r.outcome)
  }

  const READ: Codec<TrackedRead> := As(Pair(TEXT, OUTCOME), ReadOf, PartsOfRead)

  lemma OutcomesExact()
    ensures Exact(OUTCOME)
  {
    forall b: Bytes, at: nat, v: ReadOutcome, n: nat | at <= |b|
      ensures ExactAt(OUTCOME, b, at, v, n)
    {
      if at < |b| {
        U8Exact(b, at, b[at], at + 1);
      }
      match v
      case Found(hash) => HasAtConcat(b, at, [1], hash);
      case Listed(hash) => HasAtConcat(b, at, [3], hash);
      case _ =>
    }
  }

  lemma ReadsExact()
    ensures Exact(READ)
  {
    TextsExact();
    OutcomesExact();
    PairExact(TEXT, OUTCOME);
    AsExact(Pair(TEXT, OUTCOME), ReadOf, PartsOfRead);
  }

  // ----- Entries -----

  type EntryParts = (seq<Violation>, (seq<Fact>, (seq<Suppression>, (seq<u32>, seq<TrackedRead>))))

  function EntryOf(t: EntryParts): Entry {
    Entry(t.0, t.1.0, t.1.1.1.1, t.1.1.0, t.1.1.1.0)
  }

  function PartsOfEntry(e: Entry): EntryParts {
    (e.violations, (e.facts, (e.suppressions, (e.usedSuppressions, e.dependencies))))
  }

  predicate UsedInRange(e: Entry) {
    forall i | 0 <= i < |e.usedSuppressions| :: e.usedSuppressions[i] < |e.suppressions|
  }

  const ENTRY_PARTS: Codec<EntryParts> :=
    Pair(List(VIOLATION), Pair(List(FACT), Pair(List(SUPPRESSION), Pair(List(U32), List(READ)))))
  const ENTRY: Codec<Entry> := Only(As(ENTRY_PARTS, EntryOf, PartsOfEntry), UsedInRange)

  lemma EntriesExact()
    ensures Exact(ENTRY)
  {
    WordsExact();
    ViolationsExact();
    FactsExact();
    SuppressionsExact();
    ReadsExact();
    ListExact(VIOLATION);
    ListExact(FACT);
    ListExact(SUPPRESSION);
    ListExact(U32);
    ListExact(READ);
    PairExact(List(U32), List(READ));
    PairExact(List(SUPPRESSION), Pair(List(U32), List(READ)));
    PairExact(List(FACT), Pair(List(SUPPRESSION), Pair(List(U32), List(READ))));
    PairExact(List(VIOLATION), Pair(List(FACT), Pair(List(SUPPRESSION), Pair(List(U32), List(READ)))));
    AsExact(ENTRY_PARTS, EntryOf, PartsOfEntry);
    OnlyExact(As(ENTRY_PARTS, EntryOf, PartsOfEntry), UsedInRange);
  }

  /** `Entry::encode`. */
  function Encode(e: Entry): Bytes {
    ENTRY.write(e)
  }

  /** Decoding, with the paths as they stand in the bytes. */
  function DecodeRaw(b: Bytes): Option<Entry> {
    match ENTRY.read(b, 0)
    case None => None
    case Some((e, end)) => if end == |b| then Some(e) else None
  }

  function Mapped<T>(f: T -> T, items: seq<T>): (r: seq<T>)
    ensures |r| == |items|
    ensures forall i | 0 <= i < |items| :: r[i] == f(items[i])
  {
    seq(|items|, i requires 0 <= i < |items| => f(items[i]))
  }

  /** `FilePath::new` on every path of an entry. */
  function WithFilePaths(e: Entry): Entry {
    e.(violations := Mapped(ViolationWithFilePath, e.violations),
       facts := Mapped(FactWithFilePath, e.facts),
       dependencies := Mapped(ReadWithFilePath, e.dependencies))
  }

  function ViolationWithFilePath(v: Violation): Violation {
    v.(location := v.location.(file := FilePath(v.location.file)))
  }

  function FactWithFilePath(f: Fact): Fact {
    f.(file := FilePath(f.file))
  }

  function ReadWithFilePath(r: TrackedRead): TrackedRead {
    r.(path := FilePath(r.path))
  }

  /** `Entry::decode`. */
  function Decode(b: Bytes): Option<Entry> {
    match DecodeRaw(b)
    case None => None
    case Some(e) => Some(WithFilePaths(e))
  }

  // ----- What can be stored -----

  predicate FixFits(f: Fix) {
    f.start <= U32_MAX && f.end <= U32_MAX && TextFits(f.replacement)
  }

  predicate ViolationFits(v: Violation) {
    && RuleFits(v.ruleId) && TextFits(v.location.file) && TextFits(v.message) && TextFits(v.remediation)
    && (v.fix.Some? ==> FixFits(v.fix.value))
  }

  predicate FactFits(f: Fact) {
    RuleFits(f.ruleId) && TextFits(f.file) && TextFits(f.kind) && TextFits(f.data)
  }

  predicate SuppressionFits(s: Suppression) {
    && TextFits(s.reason)
    && |s.rules| <= U32_MAX && (forall i | 0 <= i < |s.rules| :: RuleFits(s.rules[i]))
  }

  /** Valid rule ids, every length and fix offset within 32 bits, every used index in range. */
  predicate Fits(e: Entry) {
    && |e.violations| <= U32_MAX && (forall i | 0 <= i < |e.violations| :: ViolationFits(e.violations[i]))
    && |e.facts| <= U32_MAX && (forall i | 0 <= i < |e.facts| :: FactFits(e.facts[i]))
    && |e.suppressions| <= U32_MAX && (forall i | 0 <= i < |e.suppressions| :: SuppressionFits(e.suppressions[i]))
    && |e.usedSuppressions| <= U32_MAX && UsedInRange(e)
    && |e.dependencies| <= U32_MAX && (forall i | 0 <= i < |e.dependencies| :: TextFits(e.dependencies[i].path))
  }

  lemma FindingFits(f: Finding)
    ensures FINDING.fits(f)
            <==> TextFits(f.0) && TextFits(f.1.0) && (f.1.1.1.Some? ==> FixFits(f.1.1.1.value))
  {
    var rest := Pair(SEVERITY, Optional(FIX));
    PairFits(TEXT, Pair(TEXT, rest), f);
    PairFits(TEXT, rest, f.1);
    PairFits(SEVERITY, Optional(FIX), f.1.1);
    if f.1.1.1.Some? {
      var parts := FixParts(f.1.1.1.value);
      assert FIX.fits(f.1.1.1.value) == Pair(LEN, Pair(LEN, Pair(TEXT, BOOL))).fits(parts);
      PairFits(LEN, Pair(LEN, Pair(TEXT, BOOL)), parts);
      PairFits(LEN, Pair(TEXT, BOOL), parts.1);
      PairFits(TEXT, BOOL, parts.1.1);
    }
  }

  lemma ViolationCodecFits(v: Violation)
    ensures VIOLATION.fits(v) <==> ViolationFits(v)
  {
    var parts := PartsOfViolation(v);
    assert VIOLATION.fits(v) == VIOLATION_PARTS.fits(parts);
    PairFits(RULE, Pair(TEXT, Pair(U32, Pair(U32, FINDING))), parts);
    PairFits(TEXT, Pair(U32, Pair(U32, FINDING)), parts.1);
    PairFits(U32, Pair(U32, FINDING), parts.1.1);
    PairFits(U32, FINDING, parts.1.1.1);
    FindingFits(parts.1.1.1.1);
  }

  lemma FactCodecFits(f: Fact)
    ensures FACT.fits(f) <==> FactFits(f)
  {
    var parts := PartsOfFact(f);
    assert FACT.fits(f) == FACT_PARTS.fits(parts);
    PairFits(RULE, Pair(TEXT, Pair(TEXT, Pair(TEXT, U32))), parts);
    PairFits(TEXT, Pair(TEXT, Pair(TEXT, U32)), parts.1);
    PairFits(TEXT, Pair(TEXT, U32), parts.1.1);
    PairFits(TEXT, U32, parts.1.1.1);
  }

  lemma SuppressionCodecFits(s: Suppression)
    ensures SUPPRESSION.fits(s) <==> SuppressionFits(s)
  {
    var parts := PartsOfSuppression(s);
    var tail := Pair(List(RULE), Optional(DATE));
    assert SUPPRESSION.fits(s) == SUPPRESSION_PARTS.fits(parts);
    PairFits(SCOPE, Pair(U32, Pair(U32, Pair(TEXT, tail))), parts);
    PairFits(U32, Pair(U32, Pair(TEXT, tail)), parts.1);
    PairFits(U32, Pair(TEXT, tail), parts.1.1);
    PairFits(TEXT, tail, parts.1.1.1);
    PairFits(List(RULE), Optional(DATE), parts.1.1.1.1);
    if s.expires.Some? {
      var date := PartsOfDate(s.expires.value);
      assert DATE.fits(s.expires.value) == Pair(U16, Pair(U8, U8)).fits(date);
      PairFits(U16, Pair(U8, U8), date);
      PairFits(U8, U8, date.1);
    }
  }

  lemma EntryCodecFits(e: Entry)
    ensures ENTRY.fits(e) <==> Fits(e)
  {
    var parts := PartsOfEntry(e);
    var c0 := Pair(List(U32), List(READ));
    var c1 := Pair(List(SUPPRESSION), c0);
    assert ENTRY.fits(e) == (ENTRY_PARTS.fits(parts) && UsedInRange(e));
    PairFits(List(VIOLATION), Pair(List(FACT), c1), parts);
    PairFits(List(FACT), c1, parts.1);
    PairFits(List(SUPPRESSION), c0, parts.1.1);
    PairFits(List(U32), List(READ), parts.1.1.1);
    ListCodecsFit(e);
  }

  lemma ListCodecsFit(e: Entry)
    ensures List(VIOLATION).fits(e.violations) <==>
            |e.violations| <= U32_MAX && forall i | 0 <= i < |e.violations| :: ViolationFits(e.violations[i])
    ensures List(FACT).fits(e.facts) <==>
            |e.facts| <= U32_MAX && forall i | 0 <= i < |e.facts| :: FactFits(e.facts[i])
    ensures List(SUPPRESSION).fits(e.suppressions) <==>
            |e.suppressions| <= U32_MAX && forall i | 0 <= i < |e.suppressions| :: SuppressionFits(e.suppressions[i])
    ensures List(U32).fits(e.usedSuppressions) <==> |e.usedSuppressions| <= U32_MAX
    ensures List(READ).fits(e.dependencies) <==>
            |e.dependencies| <= U32_MAX && forall i | 0 <= i < |e.dependencies| :: TextFits(e.dependencies[i].path)
  {
    forall i | 0 <= i < |e.violations|
      ensures VIOLATION.fits(e.violations[i]) <==> ViolationFits(e.violations[i])
    {
      ViolationCodecFits(e.violations[i]);
    }
    forall i | 0 <= i < |e.facts|
      ensures FACT.fits(e.facts[i]) <==> FactFits(e.facts[i])
    {
      FactCodecFits(e.facts[i]);
    }
    forall i | 0 <= i < |e.suppressions|
      ensures SUPPRESSION.fits(e.suppressions[i]) <==> SuppressionFits(e.suppressions[i])
    {
      SuppressionCodecFits(e.suppressions[i]);
    }
    forall i | 0 <= i < |e.dependencies|
      ensures READ.fits(e.dependencies[i]) <==> TextFits(e.dependencies[i].path)
    {
      assert READ.fits(e.dependencies[i]) == Pair(TEXT, OUTCOME).fits(PartsOfRead(e.dependencies[i]));
    }
  }

  // ----- The laws of the format -----

  /** The bytes that decode to an entry, before paths are normalized, are its encoding and no others. */
  lemma RawExact(b: Bytes, e: Entry)
    ensures DecodeRaw(b) == Some(e) <==> Fits(e) && b == Encode(e)
  {
    EntriesExact();
    EntryCodecFits(e);
    assert ExactAt(ENTRY, b, 0, e, |b|);
    assert b[0..|b|] == b;
  }

  /** Reading stops where the encoding does, whatever comes after it. */
  lemma ReadsItsOwnBytes(e: Entry, b: Bytes)
    requires Fits(e) && Encode(e) <= b
    ensures ENTRY.read(b, 0) == Some((e, |Encode(e)|))
  {
    EntriesExact();
    EntryCodecFits(e);
    assert ExactAt(ENTRY, b, 0, e, |Encode(e)|);
    assert b[0..|Encode(e)|] == Encode(e);
  }

  /** A torn write: no strict prefix of an encoded entry decodes to anything. */
  lemma TruncationIsRejected(e: Entry, p: Bytes)
    requires Fits(e) && p < Encode(e)
    ensures Decode(p).None?
  {
    hide Encode, WithFilePaths;
    ReadsItsOwnBytes(e, Encode(e));
    if DecodeRaw(p).Some? {
      RawExact(p, DecodeRaw(p).value);
      ReadsItsOwnBytes(DecodeRaw(p).value, Encode(e));
    }
  }

  /** Trailing bytes: no non-empty extension does either. */
  lemma ExtensionIsRejected(e: Entry, b: Bytes)
    requires Fits(e) && Encode(e) < b
    ensures Decode(b).None?
  {
    ReadsItsOwnBytes(e, b);
  }

  lemma {:induction false} ShorterPathFits(path: string)
    requires TextFits(path)
    ensures TextFits(FilePath(path))
  {
    var raw := ForwardSlashes(path);
    SlashesKeepLength(path);
    if "./" <= raw {
      assert raw == "./" + raw[2..];
      Utf8.EncodeConcat("./", raw[2..]);
    }
  }

  lemma {:induction false} SlashesKeepLength(path: string)
    ensures |Utf8.Encode(ForwardSlashes(path))| == |Utf8.Encode(path)|
  {
    if path != "" {
      assert ForwardSlashes(path)[1..] == ForwardSlashes(path[1..]);
      SlashesKeepLength(path[1..]);
    }
  }

  lemma FilePathsFit(e: Entry)
    requires Fits(e)
    ensures Fits(WithFilePaths(e))
  {
    forall i | 0 <= i < |e.violations|
      ensures TextFits(FilePath(e.violations[i].location.file))
    {
      ShorterPathFits(e.violations[i].location.file);
    }
    forall i | 0 <= i < |e.facts|
      ensures TextFits(FilePath(e.facts[i].file))
    {
      ShorterPathFits(e.facts[i].file);
    }
    forall i | 0 <= i < |e.dependencies|
      ensures TextFits(FilePath(e.dependencies[i].path))
    {
      ShorterPathFits(e.dependencies[i].path);
    }
  }

  /** Every path is one `FilePath::new` leaves alone. */
  predicate PathsAreFixed(e: Entry) {
    && (forall i | 0 <= i < |e.violations| :: IsFilePath(e.violations[i].location.file))
    && (forall i | 0 <= i < |e.facts| :: IsFilePath(e.facts[i].file))
    && (forall i | 0 <= i < |e.dependencies| :: IsFilePath(e.dependencies[i].path))
  }

  lemma FixedPathsStay(e: Entry)
    ensures PathsAreFixed(e) <==> WithFilePaths(e) == e
  {
    var w := WithFilePaths(e);
    if PathsAreFixed(e) {
      assert w.violations == e.violations && w.facts == e.facts && w.dependencies == e.dependencies;
    }
    if w == e {
      forall i | 0 <= i < |e.violations|
        ensures IsFilePath(e.violations[i].location.file)
      {
        assert w.violations[i] == e.violations[i];
      }
      forall i | 0 <= i < |e.facts|
        ensures IsFilePath(e.facts[i].file)
      {
        assert w.facts[i] == e.facts[i];
      }
      forall i | 0 <= i < |e.dependencies|
        ensures IsFilePath(e.dependencies[i].path)
      {
        assert w.dependencies[i] == e.dependencies[i];
      }
    }
  }

  /** An entry comes back from the cache exactly when it fits the format and its paths are fixed. */
  lemma RoundTrip(e: Entry)
    ensures Decode(Encode(e)) == Some(e) <==> Fits(e) && PathsAreFixed(e)
  {
    RawExact(Encode(e), e);
    FixedPathsStay(e);
    if Decode(Encode(e)) == Some(e) {
      var raw := DecodeRaw(Encode(e)).value;
      RawExact(Encode(e), raw);
      FilePathsFit(raw);
    }
  }

  /** Decoding is canonical: with fixed paths in the bytes, the entry encodes to those very bytes. */
  lemma DecodingIsCanonical(b: Bytes, e: Entry)
    requires DecodeRaw(b).Some? && PathsAreFixed(DecodeRaw(b).value)
    ensures Decode(b) == Some(e) <==> Fits(e) && PathsAreFixed(e) && Encode(e) == b
  {
    var raw := DecodeRaw(b).value;
    RawExact(b, raw);
    FixedPathsStay(raw);
    if Fits(e) && PathsAreFixed(e) && Encode(e) == b {
      RoundTrip(e);
    }
  }

  /** Of the byte strings that decode at all, exactly those with fixed paths are canonical. */
  lemma CanonicalExactly(b: Bytes, e: Entry)
    requires Decode(b) == Some(e)
    ensures Encode(e) == b <==> PathsAreFixed(DecodeRaw(b).value)
  {
    hide WithFilePaths, Fits, PathsAreFixed, Encode, DecodeRaw;
    var raw := DecodeRaw(b).value;
    RawExact(b, raw);
    FilePathsFit(raw);
    FixedPathsStay(raw);
    RawExact(b, e);
  }

  function OneRead(path: string): Entry {
    Entry([], [], [TrackedRead(path, Absent)], [], [])
  }

  lemma OneReadFits(path: string)
    requires |Utf8.Encode(path)| <= U32_MAX
    ensures Fits(OneRead(path))
    ensures WithFilePaths(OneRead(path)) == OneRead(FilePath(path))
  {
    var w := WithFilePaths(OneRead(path));
    assert w.violations == [] && w.facts == [] && w.dependencies == [TrackedRead(FilePath(path), Absent)];
  }

  /** Two different byte strings decode to one entry: `FilePath::new` takes the `./` off the first. */
  lemma TwoEncodings()
    ensures Encode(OneRead("./x")) != Encode(OneRead("x"))
    ensures Decode(Encode(OneRead("./x"))) == Decode(Encode(OneRead("x"))) == Some(OneRead("x"))
  {
    hide Fits, Encode, DecodeRaw, WithFilePaths;
    assert |Utf8.Encode("./x")| <= 12 && |Utf8.Encode("x")| <= 4 by { ShortTexts(); }
    OneReadFits("./x");
    OneReadFits("x");
    assert ForwardSlashes("./x") == "./x" && ForwardSlashes("x") == "x";
    assert "./x"[2..] == "x" && "./" <= "./x";
    assert FilePath("./x") == "x" && FilePath("x") == "x";
    RawExact(Encode(OneRead("./x")), OneRead("./x"));
    RawExact(Encode(OneRead("x")), OneRead("x"));
    assert "./x" != "x";
  }

  lemma ShortTexts()
    ensures |Utf8.Encode("./x")| <= 12 && |Utf8.Encode("x")| <= 4
  {
    assert "./x"[1..] == "/x" && "/x"[1..] == "x" && "x"[1..] == "";
    assert Utf8.Encode("x") == Utf8.EncodeChar('x') + Utf8.Encode("");
    assert Utf8.Encode("/x") == Utf8.EncodeChar('/') + Utf8.Encode("x");
    assert Utf8.Encode("./x") == Utf8.EncodeChar('.') + Utf8.Encode("/x");
  }
}
