/** The cursor that decodes an entry, as the source moves it: through the bytes, one field after another. */
module EntryDecoder {
  import opened Wrappers
  import opened Words
  import opened RuleIds
  import opened Calendar
  import opened Fixes
  import opened Reports
  import opened Wire
  import opened Entries
  import Utf8

  // ----- What a read did, against what the format says -----

  /** The cursor answered `r` and stands at `at`, as the format reads here. */
  ghost predicate Follows<T>(spec: Option<(T, nat)>, r: Option<T>, at: nat) {
    match spec
    case None => r.None?
    case Some((v, end)) => r == Some(v) && at == end
  }

  /** The same, for a value whose paths were normalized on the way. */
  ghost predicate FollowsWith<T>(spec: Option<(T, nat)>, f: T -> T, r: Option<T>, at: nat) {
    match spec
    case None => r.None?
    case Some((v, end)) => r == Some(f(v)) && at == end
  }

  ghost predicate FollowsAll<T>(spec: Option<(seq<T>, nat)>, f: T -> T, r: Option<seq<T>>, at: nat) {
    match spec
    case None => r.None?
    case Some((items, end)) => r == Some(Mapped(f, items)) && at == end
  }

  /** A list of indices, refused as a whole when one of them is out of range. */
  function OnlyBelow(spec: Option<(seq<u32>, nat)>, limit: nat): Option<(seq<u32>, nat)> {
    match spec
    case None => None
    case Some((items, end)) => if forall i | 0 <= i < |items| :: items[i] < limit then Some((items, end)) else None
  }

  function ReadFix(b: Bytes, at: nat): Option<(Fix, nat)> {
    var (start, at0) :- ReadLen(b, at);
    var (end, at1) :- ReadLen(b, at0);
    var (replacement, at2) :- ReadText(b, at1);
    var (safe, at3) :- ReadCode(BoolFrom, b, at2);
    Some((Fix(start, end, replacement, safe), at3))
  }

  function ReadFinding(b: Bytes, at: nat): Option<(Finding, nat)> {
    var (message, at0) :- ReadText(b, at);
    var (remediation, at1) :- ReadText(b, at0);
    var (severity, at2) :- ReadCode(SeverityFrom, b, at1);
    var (fix, at3) :- ReadOption(FIX, b, at2);
    Some(((message, (remediation, (severity, fix))), at3))
  }

  function ReadViolation(b: Bytes, at: nat): Option<(Violation, nat)> {
    var (ruleId, at0) :- ReadRule(b, at);
    var (file, at1) :- ReadText(b, at0);
    var (line, at2) :- ReadU32(b, at1);
    var (column, at3) :- ReadU32(b, at2);
    var (f, at4) :- ReadFinding(b, at3);
    Some((Violation(ruleId, Location(file, line, column), f.0, f.1.0, f.1.1.0, f.1.1.1), at4))
  }

  function ReadFact(b: Bytes, at: nat): Option<(Fact, nat)> {
    var (ruleId, at0) :- ReadRule(b, at);
    var (file, at1) :- ReadText(b, at0);
    var (kind, at2) :- ReadText(b, at1);
    var (data, at3) :- ReadText(b, at2);
    var (sequence, at4) :- ReadU32(b, at3);
    Some((Fact(ruleId, file, kind, data, sequence), at4))
  }

  function ReadDate(b: Bytes, at: nat): Option<(Date, nat)> {
    var (year, at0) :- ReadU16(b, at);
    var (month, at1) :- ReadU8(b, at0);
    var (day, at2) :- ReadU8(b, at1);
    Some((Date(year, month, day), at2))
  }

  type DirectiveBody = (string, (seq<RuleId>, Option<Date>))

  const BODY: Codec<DirectiveBody> := Pair(TEXT, Pair(List(RULE), Optional(DATE)))

  function ReadBody(b: Bytes, at: nat): Option<(DirectiveBody, nat)> {
    var (reason, at0) :- ReadText(b, at);
    var (rules, at1) :- ReadList(RULE, b, at0);
    var (expires, at2) :- ReadOption(DATE, b, at1);
    Some(((reason, (rules, expires)), at2))
  }

  function ReadSuppression(b: Bytes, at: nat): Option<(Suppression, nat)> {
    var (scope, at0) :- ReadCode(ScopeFrom, b, at);
    var (line, at1) :- ReadU32(b, at0);
    var (column, at2) :- ReadU32(b, at1);
    var (body, at3) :- ReadBody(b, at2);
    Some((Suppression(scope, body.1.0, body.0, body.1.1, line, column), at3))
  }

  function ReadRead(b: Bytes, at: nat): Option<(TrackedRead, nat)> {
    var (path, at0) :- ReadText(b, at);
    var (outcome, at1) :- ReadTrackedOutcome(b, at0);
    Some((TrackedRead(path, outcome), at1))
  }

  lemma FixReads(b: Bytes, at: nat)
    ensures FIX.read(b, at) == ReadFix(b, at)
  {
    assert FIX.read(b, at) == ReadAs(Pair(LEN, Pair(LEN, Pair(TEXT, BOOL))), FixOf, b, at);
  }

  lemma FindingReads(b: Bytes, at: nat)
    ensures FINDING.read(b, at) == ReadFinding(b, at)
  {
    assert FINDING.read(b, at) == ReadPair(TEXT, Pair(TEXT, Pair(SEVERITY, Optional(FIX))), b, at);
  }

  lemma ViolationReads(b: Bytes, at: nat)
    ensures VIOLATION.read(b, at) == ReadViolation(b, at)
  {
    hide ReadFinding, ReadText, ReadU32;
    forall p: nat
      ensures FINDING.read(b, p) == ReadFinding(b, p)
    {
      FindingReads(b, p);
    }
    assert VIOLATION.read(b, at) == ReadAs(VIOLATION_PARTS, ViolationOf, b, at);
  }

  lemma FactReads(b: Bytes, at: nat)
    ensures FACT.read(b, at) == ReadFact(b, at)
  {
    hide ReadText, ReadU32;
    assert FACT.read(b, at) == ReadAs(FACT_PARTS, FactOf, b, at);
  }

  lemma DateReads(b: Bytes, at: nat)
    ensures DATE.read(b, at) == ReadDate(b, at)
  {
    assert DATE.read(b, at) == ReadAs(Pair(U16, Pair(U8, U8)), DateOf, b, at);
  }

  lemma BodyReads(b: Bytes, at: nat)
    ensures BODY.read(b, at) == ReadBody(b, at)
  {
    assert BODY.read(b, at) == ReadPair(TEXT, Pair(List(RULE), Optional(DATE)), b, at);
  }

  lemma SuppressionReads(b: Bytes, at: nat)
    ensures SUPPRESSION.read(b, at) == ReadSuppression(b, at)
  {
    forall p: nat
      ensures BODY.read(b, p) == ReadBody(b, p)
    {
      BodyReads(b, p);
    }
    assert SUPPRESSION_PARTS == Pair(SCOPE, Pair(U32, Pair(U32, BODY)));
    assert SUPPRESSION.read(b, at) == ReadAs(SUPPRESSION_PARTS, SuppressionOf, b, at);
  }

  lemma ReadReads(b: Bytes, at: nat)
    ensures READ.read(b, at) == ReadRead(b, at)
  {
    assert READ.read(b, at) == ReadAs(Pair(TEXT, OUTCOME), ReadOf, b, at);
  }

  lemma OutOfRange(done: seq<u32>, bad: u32, rest: Option<(seq<u32>, nat)>, limit: nat)
    requires bad >= limit
    ensures OnlyBelow(Prepend(done + [bad], rest), limit).None?
  {
    if rest.Some? {
      assert (done + [bad] + rest.value.0)[|done|] == bad;
    }
  }

  /** The entry as its five sections, one behind the other. */
  function ReadEntry(b: Bytes): Option<Entry> {
    var (violations, at0) :- ReadList(VIOLATION, b, 0);
    var (facts, at1) :- ReadList(FACT, b, at0);
    var (suppressions, at2) :- ReadList(SUPPRESSION, b, at1);
    var (used, at3) :- OnlyBelow(ReadList(U32, b, at2), |suppressions|);
    var (dependencies, at4) :- ReadList(READ, b, at3);
    if at4 == |b| then Some(Entry(violations, facts, dependencies, suppressions, used)) else None
  }

  lemma EntryReads(b: Bytes)
    ensures DecodeRaw(b) == ReadEntry(b)
  {
    hide ReadList;
    assert ENTRY.read(b, 0) == ReadOnly(As(ENTRY_PARTS, EntryOf, PartsOfEntry), UsedInRange, b, 0);
    assert As(ENTRY_PARTS, EntryOf, PartsOfEntry).read(b, 0) == ReadAs(ENTRY_PARTS, EntryOf, b, 0);
  }

  // ----- The cursor -----

  /** A byte string and how far into it decoding has come. */
  class Cursor {
    const bytes: Bytes
    var at: nat
    /** Loop iterations completed so far: each must have been paid for by a byte. */
    ghost var iterations: nat

    ghost predicate Valid()
      reads this
    {
      iterations <= at <= |bytes|
    }

    /** A list read means an iteration completed for each of its elements. */
    ghost predicate Counted<T>(before: nat, r: Option<seq<T>>)
      reads this
    {
      before + (if r.Some? then |r.value| else 0) <= iterations
    }

    /** Bytes read and not yet spent on an iteration. */
    ghost function Slack(): int
      reads this
    {
      at - iterations
    }

    constructor (bytes: Bytes)
      ensures Valid() && this.bytes == bytes && at == 0 && iterations == 0
    {
      this.bytes := bytes;
      at, iterations := 0, 0;
    }

    method Take(count: nat) returns (r: Option<Bytes>)
      requires Valid()
      modifies this`at
      ensures Valid() && old(at) <= at
      ensures Follows(Wire.Take(bytes, old(at), count), r, at)
    {
      var end := at + count;
      if end > |bytes| {
        return None;
      }
      r := Some(bytes[at..end]);
      at := end;
    }

    method NextU8() returns (r: Option<u8>)
      requires Valid()
      modifies this`at
      ensures Valid() && old(at) <= at && (r.Some? ==> old(at) < at)
      ensures Follows(ReadU8(bytes, old(at)), r, at)
    {
      var taken := Take(1);
      if taken.None? {
        return None;
      }
      return Some(taken.value[0]);
    }

    method NextU16() returns (r: Option<u16>)
      requires Valid()
      modifies this`at
      ensures Valid() && old(at) <= at
      ensures Follows(ReadU16(bytes, old(at)), r, at)
    {
      var taken := Take(2);
      if taken.None? {
        return None;
      }
      return Some(Word16(taken.value));
    }

    method NextU32() returns (r: Option<u32>)
      requires Valid()
      modifies this`at
      ensures Valid() && old(at) <= at && (r.Some? ==> old(at) < at)
      ensures Follows(ReadU32(bytes, old(at)), r, at)
    {
      var taken := Take(4);
      if taken.None? {
        return None;
      }
      return Some(Word32(taken.value));
    }

    method NextHash() returns (r: Option<ContentHash>)
      requires Valid()
      modifies this`at
      ensures Valid() && old(at) <= at
      ensures Follows(ReadHash(bytes, old(at)), r, at)
    {
      var taken := Take(32);
      if taken.None? {
        return None;
      }
      return Some(taken.value);
    }

    /** The next length, clamped and not consumed, for sizing a vector before the loop. */
    method PeekLen() returns (r: Option<nat>)
      requires Valid()
      ensures r == match ReadU32(bytes, at)
        case None => None
        case Some((n, _)) => Some(if n < 1024 then n else 1024)
    {
      if at + 4 > |bytes| {
        return None;
      }
      var n := Word32(bytes[at..at + 4]);
      return Some(if n < 1024 then n else 1024);
    }

    /** Sizing the vector, then reading the count it was sized by. */
    method NextCount() returns (r: Option<u32>)
      requires Valid()
      modifies this`at
      ensures Valid() && old(at) <= at
      ensures Follows(ReadU32(bytes, old(at)), r, at)
    {
      var capacity := PeekLen();
      if capacity.None? {
        return None;
      }
      r := NextU32();
    }

    method NextText() returns (r: Option<string>)
      requires Valid()
      modifies this`at
      ensures Valid() && old(at) <= at && (r.Some? ==> old(at) < at)
      ensures Follows(ReadText(bytes, old(at)), r, at)
    {
      var len := NextU32();
      if len.None? {
        return None;
      }
      var taken := Take(len.value);
      if taken.None? {
        return None;
      }
      return Utf8.Decode(taken.value);
    }

    method NextRule() returns (r: Option<RuleId>)
      requires Valid()
      modifies this`at
      ensures Valid() && old(at) <= at && (r.Some? ==> old(at) < at)
      ensures Follows(ReadRule(bytes, old(at)), r, at)
    {
      var text := NextText();
      if text.None? {
        return None;
      }
      match Parse(text.value)
      case Ok(id) => return Some(id);
      case Err(_) => return None;
    }

    method NextFix() returns (r: Option<Option<Fix>>)
      requires Valid()
      modifies this`at
      ensures Valid() && old(at) <= at
      ensures Follows(ReadOption(FIX, bytes, old(at)), r, at)
    {
      var tag := NextU8();
      if tag.None? {
        return None;
      }
      if tag.value == 0 {
        return Some(None);
      }
      if tag.value != 1 {
        return None;
      }
      FixReads(bytes, at);
      var start := NextU32();
      if start.None? {
        return None;
      }
      var end := NextU32();
      if end.None? {
        return None;
      }
      var replacement := NextText();
      if replacement.None? {
        return None;
      }
      var safe := NextU8();
      if safe.None? || safe.value > 1 {
        return None;
      }
      return Some(Some(Fix(start.value, end.value, replacement.value, safe.value == 1)));
    }

    method NextFinding() returns (r: Option<Finding>)
      requires Valid()
      modifies this`at
      ensures Valid() && old(at) <= at
      ensures Follows(ReadFinding(bytes, old(at)), r, at)
    {
      var message := NextText();
      if message.None? {
        return None;
      }
      var remediation := NextText();
      if remediation.None? {
        return None;
      }
      var code := NextU8();
      if code.None? || SeverityFrom(code.value).None? {
        return None;
      }
      var fix := NextFix();
      if fix.None? {
        return None;
      }
      return Some((message.value, (remediation.value, (SeverityFrom(code.value).value, fix.value))));
    }

    method NextViolation() returns (r: Option<Violation>)
      requires Valid()
      modifies this`at
      ensures Valid() && old(at) <= at && (r.Some? ==> old(at) < at)
      ensures FollowsWith(VIOLATION.read(bytes, old(at)), ViolationWithFilePath, r, at)
    {
      ViolationReads(bytes, at);
      var ruleId := NextRule();
      if ruleId.None? {
        return None;
      }
      var file := NextText();
      if file.None? {
        return None;
      }
      var line := NextU32();
      if line.None? {
        return None;
      }
      var column := NextU32();
      if column.None? {
        return None;
      }
      var finding := NextFinding();
      if finding.None? {
        return None;
      }
      var (message, (remediation, (severity, fix))) := finding.value;
      return Some(Violation(ruleId.value, Location(FilePath(file.value), line.value, column.value),
                            message, remediation, severity, fix));
    }

    method NextFact() returns (r: Option<Fact>)
      requires Valid()
      modifies this`at
      ensures Valid() && old(at) <= at && (r.Some? ==> old(at) < at)
      ensures FollowsWith(FACT.read(bytes, old(at)), FactWithFilePath, r, at)
    {
      FactReads(bytes, at);
      var ruleId := NextRule();
      if ruleId.None? {
        return None;
      }
      var file := NextText();
      if file.None? {
        return None;
      }
      var kind := NextText();
      if kind.None? {
        return None;
      }
      var data := NextText();
      if data.None? {
        return None;
      }
      var sequence := NextU32();
      if sequence.None? {
        return None;
      }
      return Some(Fact(ruleId.value, FilePath(file.value), kind.value, data.value, sequence.value));
    }

    method NextDate() returns (r: Option<Option<Date>>)
      requires Valid()
      modifies this`at
      ensures Valid() && old(at) <= at
      ensures Follows(ReadOption(DATE, bytes, old(at)), r, at)
    {
      var tag := NextU8();
      if tag.None? {
        return None;
      }
      if tag.value == 0 {
        return Some(None);
      }
      if tag.value != 1 {
        return None;
      }
      DateReads(bytes, at);
      var year := NextU16();
      if year.None? {
        return None;
      }
      var month := NextU8();
      if month.None? {
        return None;
      }
      var day := NextU8();
      if day.None? {
        return None;
      }
      return Some(Some(Date(year.value, month.value, day.value)));
    }

    method NextRules() returns (r: Option<seq<RuleId>>)
      requires Valid()
      modifies this
      ensures Valid() && old(Slack()) <= Slack()
      ensures Follows(ReadList(RULE, bytes, old(at)), r, at)
      ensures Counted(old(iterations), r)
    {
      hide ReadRule;
      var count := NextCount();
      if count.None? {
        return None;
      }
      ghost var start, left: nat := at, count.value;
      var rules: seq<RuleId> := [];
      PrependNothing(ReadMany(RULE, bytes, at, count.value));
      for i := 0 to count.value
        invariant Valid() && old(Slack()) <= Slack()
        invariant old(iterations) + |rules| <= iterations
        invariant left == count.value - i
        invariant ReadMany(RULE, bytes, start, count.value) == Prepend(rules, ReadMany(RULE, bytes, at, left))
      {
        PrependStep(RULE, rules, bytes, at, left);
        var rule := NextRule();
        if rule.None? {
          return None;
        }
        rules := rules + [rule.value];
        left := left - 1;
        iterations := iterations + 1;
      }
      PrependDone(RULE, rules, bytes, at);
      return Some(rules);
    }

    method NextSuppression() returns (r: Option<Suppression>)
      requires Valid()
      modifies this
      ensures Valid() && old(Slack()) <= Slack() && (r.Some? ==> old(Slack()) < Slack())
      ensures Follows(SUPPRESSION.read(bytes, old(at)), r, at)
      ensures old(iterations) <= iterations
    {
      SuppressionReads(bytes, at);
      var scope := NextU8();
      if scope.None? || ScopeFrom(scope.value).None? {
        return None;
      }
      var line := NextU32();
      if line.None? {
        return None;
      }
      var column := NextU32();
      if column.None? {
        return None;
      }
      var reason := NextText();
      if reason.None? {
        return None;
      }
      var rules := NextRules();
      if rules.None? {
        return None;
      }
      var expires := NextDate();
      if expires.None? {
        return None;
      }
      return Some(Suppression(ScopeFrom(scope.value).value, rules.value, reason.value, expires.value,
                              line.value, column.value));
    }

    method NextRead() returns (r: Option<TrackedRead>)
      requires Valid()
      modifies this`at
      ensures Valid() && old(at) <= at && (r.Some? ==> old(at) < at)
      ensures FollowsWith(READ.read(bytes, old(at)), ReadWithFilePath, r, at)
    {
      ReadReads(bytes, at);
      var path := NextText();
      if path.None? {
        return None;
      }
      var outcome := NextOutcome();
      if outcome.None? {
        return None;
      }
      return Some(TrackedRead(FilePath(path.value), outcome.value));
    }

    method NextOutcome() returns (r: Option<ReadOutcome>)
      requires Valid()
      modifies this`at
      ensures Valid() && old(at) <= at
      ensures Follows(ReadTrackedOutcome(bytes, old(at)), r, at)
    {
      var tag := NextU8();
      if tag.None? {
        return None;
      }
      match tag.value
      case 0 => return Some(Absent);
      case 1 =>
        var hash := NextHash();
        if hash.None? {
          return None;
        }
        return Some(Found(hash.value));
      case 2 => return Some(Refused);
      case 3 =>
        var hash := NextHash();
        if hash.None? {
          return None;
        }
        return Some(Listed(hash.value));
      case 4 => return Some(Unlisted);
      case _ => return None;
    }

    method NextViolations() returns (r: Option<seq<Violation>>)
      requires Valid()
      modifies this
      ensures Valid()
      ensures FollowsAll(ReadList(VIOLATION, bytes, old(at)), ViolationWithFilePath, r, at)
      ensures Counted(old(iterations), r)
    {
      hide ReadAs, ReadMany, Prepend, ViolationWithFilePath, FactWithFilePath;
      var count := NextCount();
      if count.None? {
        return None;
      }
      ghost var start, left: nat := at, count.value;
      ghost var raw: seq<Violation> := [];
      var violations: seq<Violation> := [];
      PrependNothing(ReadMany(VIOLATION, bytes, at, count.value));
      for i := 0 to count.value
        invariant Valid()
        invariant old(iterations) + |violations| <= iterations
        invariant left == count.value - i
        invariant violations == Mapped(ViolationWithFilePath, raw)
        invariant ReadMany(VIOLATION, bytes, start, count.value) == Prepend(raw, ReadMany(VIOLATION, bytes, at, left))
      {
        PrependStep(VIOLATION, raw, bytes, at, left);
        ghost var before := at;
        var violation := NextViolation();
        if violation.None? {
          return None;
        }
        raw := raw + [VIOLATION.read(bytes, before).value.0];
        violations := violations + [violation.value];
        left := left - 1;
        iterations := iterations + 1;
      }
      PrependDone(VIOLATION, raw, bytes, at);
      return Some(violations);
    }

    method NextFacts() returns (r: Option<seq<Fact>>)
      requires Valid()
      modifies this
      ensures Valid()
      ensures FollowsAll(ReadList(FACT, bytes, old(at)), FactWithFilePath, r, at)
      ensures Counted(old(iterations), r)
    {
      hide ReadAs, ReadMany, Prepend, ViolationWithFilePath, FactWithFilePath;
      var count := NextCount();
      if count.None? {
        return None;
      }
      ghost var start, left: nat := at, count.value;
      ghost var raw: seq<Fact> := [];
      var facts: seq<Fact> := [];
      PrependNothing(ReadMany(FACT, bytes, at, count.value));
      for i := 0 to count.value
        invariant Valid()
        invariant old(iterations) + |facts| <= iterations
        invariant left == count.value - i
        invariant facts == Mapped(FactWithFilePath, raw)
        invariant ReadMany(FACT, bytes, start, count.value) == Prepend(raw, ReadMany(FACT, bytes, at, left))
      {
        PrependStep(FACT, raw, bytes, at, left);
        ghost var before := at;
        var fact := NextFact();
        if fact.None? {
          return None;
        }
        raw := raw + [FACT.read(bytes, before).value.0];
        facts := facts + [fact.value];
        left := left - 1;
        iterations := iterations + 1;
      }
      PrependDone(FACT, raw, bytes, at);
      return Some(facts);
    }

    method NextReads() returns (r: Option<seq<TrackedRead>>)
      requires Valid()
      modifies this
      ensures Valid()
      ensures FollowsAll(ReadList(READ, bytes, old(at)), ReadWithFilePath, r, at)
      ensures Counted(old(iterations), r)
    {
      hide ReadAs, ReadMany, Prepend, ViolationWithFilePath, FactWithFilePath;
      var count := NextCount();
      if count.None? {
        return None;
      }
      ghost var start, left: nat := at, count.value;
      ghost var raw: seq<TrackedRead> := [];
      var dependencies: seq<TrackedRead> := [];
      PrependNothing(ReadMany(READ, bytes, at, count.value));
      for i := 0 to count.value
        invariant Valid()
        invariant old(iterations) + |dependencies| <= iterations
        invariant left == count.value - i
        invariant dependencies == Mapped(ReadWithFilePath, raw)
        invariant ReadMany(READ, bytes, start, count.value) == Prepend(raw, ReadMany(READ, bytes, at, left))
      {
        PrependStep(READ, raw, bytes, at, left);
        ghost var before := at;
        var read := NextRead();
        if read.None? {
          return None;
        }
        raw := raw + [READ.read(bytes, before).value.0];
        dependencies := dependencies + [read.value];
        left := left - 1;
        iterations := iterations + 1;
      }
      PrependDone(READ, raw, bytes, at);
      return Some(dependencies);
    }

    method NextSuppressions() returns (r: Option<seq<Suppression>>)
      requires Valid()
      modifies this
      ensures Valid()
      ensures Follows(ReadList(SUPPRESSION, bytes, old(at)), r, at)
      ensures Counted(old(iterations), r)
    {
      hide ReadAs, ReadMany, Prepend, ViolationWithFilePath, FactWithFilePath;
      var count := NextCount();
      if count.None? {
        return None;
      }
      ghost var start, left: nat := at, count.value;
      var suppressions: seq<Suppression> := [];
      PrependNothing(ReadMany(SUPPRESSION, bytes, at, count.value));
      for i := 0 to count.value
        invariant Valid()
        invariant old(iterations) + |suppressions| <= iterations
        invariant left == count.value - i
        invariant ReadMany(SUPPRESSION, bytes, start, count.value)
                  == Prepend(suppressions, ReadMany(SUPPRESSION, bytes, at, left))
      {
        PrependStep(SUPPRESSION, suppressions, bytes, at, left);
        var suppression := NextSuppression();
        if suppression.None? {
          return None;
        }
        suppressions := suppressions + [suppression.value];
        left := left - 1;
        iterations := iterations + 1;
      }
      PrependDone(SUPPRESSION, suppressions, bytes, at);
      return Some(suppressions);
    }

    /** An index past the end would claim a directive that is not there. */
    method NextUsed(directives: nat) returns (r: Option<seq<u32>>)
      requires Valid()
      modifies this
      ensures Valid()
      ensures Follows(OnlyBelow(ReadList(U32, bytes, old(at)), directives), r, at)
      ensures Counted(old(iterations), r)
    {
      var count := NextCount();
      if count.None? {
        return None;
      }
      ghost var start, left: nat := at, count.value;
      var used: seq<u32> := [];
      PrependNothing(ReadMany(U32, bytes, at, count.value));
      for i := 0 to count.value
        invariant Valid()
        invariant old(iterations) + |used| <= iterations
        invariant left == count.value - i
        invariant forall k | 0 <= k < |used| :: used[k] < directives
        invariant ReadMany(U32, bytes, start, count.value) == Prepend(used, ReadMany(U32, bytes, at, left))
      {
        PrependStep(U32, used, bytes, at, left);
        var index := NextU32();
        if index.None? {
          return None;
        }
        if index.value >= directives {
          OutOfRange(used, index.value, ReadMany(U32, bytes, at, left - 1), directives);
          return None;
        }
        used := used + [index.value];
        left := left - 1;
        iterations := iterations + 1;
      }
      PrependDone(U32, used, bytes, at);
      return Some(used);
    }
  }

  /** `Entry::decode`: five sections, and nothing after them. */
  method Decode(bytes: Bytes) returns (r: Option<Entry>, ghost iterations: nat)
    ensures r == Entries.Decode(bytes)
    ensures iterations <= |bytes|
    ensures r.Some? ==> |r.value.violations| + |r.value.facts| + |r.value.suppressions| + |r.value.usedSuppressions|
                        + |r.value.dependencies| <= iterations
  {
    var cursor := new Cursor(bytes);
    iterations := 0;
    EntryReads(bytes);
    var violations := cursor.NextViolations();
    iterations := cursor.iterations;
    if violations.None? {
      return None, iterations;
    }
    var facts := cursor.NextFacts();
    iterations := cursor.iterations;
    if facts.None? {
      return None, iterations;
    }
    var suppressions := cursor.NextSuppressions();
    iterations := cursor.iterations;
    if suppressions.None? {
      return None, iterations;
    }
    var used := cursor.NextUsed(|suppressions.value|);
    iterations := cursor.iterations;
    if used.None? {
      return None, iterations;
    }
    var dependencies := cursor.NextReads();
    iterations := cursor.iterations;
    if dependencies.None? || cursor.at != |bytes| {
      return None, iterations;
    }
    return Some(Entry(violations.value, facts.value, dependencies.value, suppressions.value, used.value)), iterations;
  }
}
