/** `Entry::encode`: appending an entry to a byte buffer, one field after another. */
module EntryEncoder {
  import opened Wrappers
  import opened Words
  import opened RuleIds
  import opened Calendar
  import opened Fixes
  import opened Reports
  import opened Wire
  import opened Entries
  import Utf8

  lemma ViolationBytes(v: Violation)
    ensures VIOLATION.write(v)
            == WriteRule(v.ruleId)
               + (WriteText(v.location.file) + (Le(v.location.line, 4) + (Le(v.location.column, 4) + FindingBytes(v))))
  {
    assert VIOLATION.write(v) == VIOLATION_PARTS.write(PartsOfViolation(v));
    FindingIsWritten(v);
  }

  function FindingBytes(v: Violation): Bytes {
    WriteText(v.message) + (WriteText(v.remediation) + ([SeverityCode(v.severity)] + FixBytes(v.fix)))
  }

  function FixBytes(fix: Option<Fix>): Bytes {
    match fix
    case None => [0]
    case Some(f) => [1] + (WriteLen(f.start) + (WriteLen(f.end) + (WriteText(f.replacement) + [BoolCode(f.safe)])))
  }

  lemma FindingIsWritten(v: Violation)
    ensures FINDING.write((v.message, (v.remediation, (v.severity, v.fix)))) == FindingBytes(v)
  {
    if v.fix.Some? {
      assert FIX.write(v.fix.value) == Pair(LEN, Pair(LEN, Pair(TEXT, BOOL))).write(FixParts(v.fix.value));
    }
    assert WriteOption(FIX, v.fix) == FixBytes(v.fix);
  }

  lemma FactBytes(f: Fact)
    ensures FACT.write(f)
            == WriteRule(f.ruleId) + (WriteText(f.file) + (WriteText(f.kind) + (WriteText(f.data) + Le(f.sequence, 4))))
  {
    assert FACT.write(f) == FACT_PARTS.write(PartsOfFact(f));
  }

  function DateBytes(expires: Option<Date>): Bytes {
    match expires
    case None => [0]
    case Some(d) => [1] + (Le(d.year, 2) + ([d.month] + [d.day]))
  }

  lemma SuppressionBytes(s: Suppression)
    ensures SUPPRESSION.write(s)
            == [ScopeCode(s.scope)] + (Le(s.line, 4) + (Le(s.column, 4) + (WriteText(s.reason)
               + (WriteList(RULE, s.rules) + DateBytes(s.expires)))))
  {
    assert SUPPRESSION.write(s) == SUPPRESSION_PARTS.write(PartsOfSuppression(s));
    if s.expires.Some? {
      assert DATE.write(s.expires.value) == Pair(U16, Pair(U8, U8)).write(PartsOfDate(s.expires.value));
    }
    assert WriteOption(DATE, s.expires) == DateBytes(s.expires);
  }

  lemma EntryBytes(e: Entry)
    ensures Encode(e)
            == WriteList(VIOLATION, e.violations) + (WriteList(FACT, e.facts) + (WriteList(SUPPRESSION, e.suppressions)
               + (WriteList(U32, e.usedSuppressions) + WriteList(READ, e.dependencies))))
  {
    hide WriteList;
    assert ENTRY.write(e) == As(ENTRY_PARTS, EntryOf, PartsOfEntry).write(e);
    assert As(ENTRY_PARTS, EntryOf, PartsOfEntry).write(e) == ENTRY_PARTS.write(PartsOfEntry(e));
  }

  /** A growing vector of bytes. */
  class ByteBuffer {
    var data: Bytes

    constructor ()
      ensures data == []
    {
      data := [];
    }

    method Clear()
      modifies this
      ensures data == []
    {
      data := [];
    }

    method Push(b: u8)
      modifies this
      ensures data == old(data) + [b]
    {
      data := data + [b];
    }

    method Extend(bytes: Bytes)
      modifies this
      ensures data == old(data) + bytes
    {
      data := data + bytes;
    }

    method PutLen(n: nat)
      modifies this
      ensures data == old(data) + WriteLen(n)
    {
      Extend(Le(Narrowed(n), 4));
    }

    method PutText(text: string)
      modifies this
      ensures data == old(data) + WriteText(text)
    {
      var bytes := Utf8.Encode(text);
      PutLen(|bytes|);
      Extend(bytes);
    }

    method PutFix(fix: Option<Fix>)
      modifies this
      ensures data == old(data) + FixBytes(fix)
    {
      match fix
      case None => Push(0);
      case Some(f) =>
        hide WriteLen, WriteText;
        ghost var safe := [BoolCode(f.safe)];
        ghost var text := WriteText(f.replacement);
        Regrouped(data, [1], WriteLen(f.start) + (WriteLen(f.end) + (text + safe)));
        Push(1);
        Regrouped(data, WriteLen(f.start), WriteLen(f.end) + (text + safe));
        PutLen(f.start);
        Regrouped(data, WriteLen(f.end), text + safe);
        PutLen(f.end);
        Regrouped(data, text, safe);
        PutText(f.replacement);
        Push(if f.safe then 1 else 0);
    }

    method PutFinding(v: Violation)
      modifies this
      ensures data == old(data) + FindingBytes(v)
    {
      ghost var code := [SeverityCode(v.severity)];
      PutText(v.message);
      Regrouped(old(data), WriteText(v.message), WriteText(v.remediation) + (code + FixBytes(v.fix)));
      Regrouped(data, WriteText(v.remediation), code + FixBytes(v.fix));
      PutText(v.remediation);
      Regrouped(data, code, FixBytes(v.fix));
      Push(match v.severity case Off => 0 case Warn => 1 case Error => 2);
      PutFix(v.fix);
    }

    method PutViolation(v: Violation)
      modifies this
      ensures data == old(data) + VIOLATION.write(v)
    {
      hide FindingBytes, WriteText, WriteRule;
      ViolationBytes(v);
      ghost var line, column := Le(v.location.line, 4), Le(v.location.column, 4);
      Regrouped(data, WriteRule(v.ruleId), WriteText(v.location.file) + (line + (column + FindingBytes(v))));
      PutRule(v.ruleId);
      Regrouped(data, WriteText(v.location.file), line + (column + FindingBytes(v)));
      PutText(v.location.file);
      Regrouped(data, line, column + FindingBytes(v));
      Extend(Le(v.location.line, 4));
      Regrouped(data, column, FindingBytes(v));
      Extend(Le(v.location.column, 4));
      PutFinding(v);
    }

    method PutRule(id: RuleId)
      modifies this
      ensures data == old(data) + WriteRule(id)
    {
      PutText(Show(id));
    }

    method PutFact(f: Fact)
      modifies this
      ensures data == old(data) + FACT.write(f)
    {
      hide WriteText, WriteRule;
      FactBytes(f);
      ghost var sequence := Le(f.sequence, 4);
      Regrouped(data, WriteRule(f.ruleId), WriteText(f.file) + (WriteText(f.kind) + (WriteText(f.data) + sequence)));
      PutRule(f.ruleId);
      Regrouped(data, WriteText(f.file), WriteText(f.kind) + (WriteText(f.data) + sequence));
      PutText(f.file);
      Regrouped(data, WriteText(f.kind), WriteText(f.data) + sequence);
      PutText(f.kind);
      Regrouped(data, WriteText(f.data), sequence);
      PutText(f.data);
      Extend(Le(f.sequence, 4));
    }

    method PutDate(expires: Option<Date>)
      modifies this
      ensures data == old(data) + DateBytes(expires)
    {
      match expires
      case None => Push(0);
      case Some(d) =>
        Push(1);
        Extend(Le(d.year, 2));
        Push(d.month);
        Push(d.day);
    }

    method PutRules(rules: seq<RuleId>)
      modifies this
      ensures data == old(data) + WriteList(RULE, rules)
    {
      hide WriteRule;
      Regrouped(data, WriteLen(|rules|), WriteMany(RULE, rules));
      PutLen(|rules|);
      ghost var was := data;
      assert rules[0..] == rules;
      for i := 0 to |rules|
        invariant was + WriteMany(RULE, rules) == data + WriteMany(RULE, rules[i..])
      {
        Regrouped(data, WriteRule(rules[i]), WriteMany(RULE, rules[i + 1..]));
        assert rules[i..][1..] == rules[i + 1..];
        PutRule(rules[i]);
      }
      assert data + [] == data;
    }

    method PutSuppression(s: Suppression)
      modifies this
      ensures data == old(data) + SUPPRESSION.write(s)
    {
      hide WriteText, WriteList, DateBytes;
      SuppressionBytes(s);
      ghost var line, column, tail := Le(s.line, 4), Le(s.column, 4), WriteList(RULE, s.rules) + DateBytes(s.expires);
      Regrouped(data, [ScopeCode(s.scope)], line + (column + (WriteText(s.reason) + tail)));
      Push(match s.scope case NextLine => 0 case File => 1);
      Regrouped(data, line, column + (WriteText(s.reason) + tail));
      Extend(Le(s.line, 4));
      Regrouped(data, column, WriteText(s.reason) + tail);
      Extend(Le(s.column, 4));
      Regrouped(data, WriteText(s.reason), tail);
      PutText(s.reason);
      Regrouped(data, WriteList(RULE, s.rules), DateBytes(s.expires));
      PutRules(s.rules);
      PutDate(s.expires);
    }

    method PutRead(r: TrackedRead)
      modifies this
      ensures data == old(data) + READ.write(r)
    {
      hide WriteText;
      assert READ.write(r) == Pair(TEXT, OUTCOME).write(PartsOfRead(r));
      Regrouped(data, WriteText(r.path), WriteOutcome(r.outcome));
      PutText(r.path);
      match r.outcome
      case Absent => Push(0);
      case Found(hash) =>
        Regrouped(data, [1], hash);
        Push(1);
        Extend(hash);
      case Refused => Push(2);
      case Listed(hash) =>
        Regrouped(data, [3], hash);
        Push(3);
        Extend(hash);
      case Unlisted => Push(4);
    }

    method PutViolations(violations: seq<Violation>)
      modifies this
      ensures data == old(data) + WriteList(VIOLATION, violations)
    {
      hide As;
      Regrouped(data, WriteLen(|violations|), WriteMany(VIOLATION, violations));
      PutLen(|violations|);
      ghost var was := data;
      assert violations[0..] == violations;
      for i := 0 to |violations|
        invariant was + WriteMany(VIOLATION, violations) == data + WriteMany(VIOLATION, violations[i..])
      {
        Regrouped(data, VIOLATION.write(violations[i]), WriteMany(VIOLATION, violations[i + 1..]));
        assert violations[i..][1..] == violations[i + 1..];
        PutViolation(violations[i]);
      }
      assert data + [] == data;
    }

    method PutFacts(facts: seq<Fact>)
      modifies this
      ensures data == old(data) + WriteList(FACT, facts)
    {
      hide As;
      Regrouped(data, WriteLen(|facts|), WriteMany(FACT, facts));
      PutLen(|facts|);
      ghost var was := data;
      assert facts[0..] == facts;
      for i := 0 to |facts|
        invariant was + WriteMany(FACT, facts) == data + WriteMany(FACT, facts[i..])
      {
        Regrouped(data, FACT.write(facts[i]), WriteMany(FACT, facts[i + 1..]));
        assert facts[i..][1..] == facts[i + 1..];
        PutFact(facts[i]);
      }
      assert data + [] == data;
    }

    method PutSuppressions(suppressions: seq<Suppression>)
      modifies this
      ensures data == old(data) + WriteList(SUPPRESSION, suppressions)
    {
      hide As;
      Regrouped(data, WriteLen(|suppressions|), WriteMany(SUPPRESSION, suppressions));
      PutLen(|suppressions|);
      ghost var was := data;
      assert suppressions[0..] == suppressions;
      for i := 0 to |suppressions|
        invariant was + WriteMany(SUPPRESSION, suppressions) == data + WriteMany(SUPPRESSION, suppressions[i..])
      {
        Regrouped(data, SUPPRESSION.write(suppressions[i]), WriteMany(SUPPRESSION, suppressions[i + 1..]));
        assert suppressions[i..][1..] == suppressions[i + 1..];
        PutSuppression(suppressions[i]);
      }
      assert data + [] == data;
    }

    method PutReads(dependencies: seq<TrackedRead>)
      modifies this
      ensures data == old(data) + WriteList(READ, dependencies)
    {
      hide As;
      Regrouped(data, WriteLen(|dependencies|), WriteMany(READ, dependencies));
      PutLen(|dependencies|);
      ghost var was := data;
      assert dependencies[0..] == dependencies;
      for i := 0 to |dependencies|
        invariant was + WriteMany(READ, dependencies) == data + WriteMany(READ, dependencies[i..])
      {
        Regrouped(data, READ.write(dependencies[i]), WriteMany(READ, dependencies[i + 1..]));
        assert dependencies[i..][1..] == dependencies[i + 1..];
        PutRead(dependencies[i]);
      }
      assert data + [] == data;
    }

    method PutUsed(used: seq<u32>)
      modifies this
      ensures data == old(data) + WriteList(U32, used)
    {
      Regrouped(data, WriteLen(|used|), WriteMany(U32, used));
      PutLen(|used|);
      ghost var was := data;
      assert used[0..] == used;
      for i := 0 to |used|
        invariant was + WriteMany(U32, used) == data + WriteMany(U32, used[i..])
      {
        Regrouped(data, U32.write(used[i]), WriteMany(U32, used[i + 1..]));
        assert used[i..][1..] == used[i + 1..];
        Extend(Le(used[i], 4));
      }
      assert data + [] == data;
    }

    /** `Entry::encode`. */
    method PutEntry(e: Entry)
      modifies this
      ensures data == old(data) + Encode(e)
    {
      hide WriteList, Encode;
      EntryBytes(e);
      ghost var c := WriteList(U32, e.usedSuppressions) + WriteList(READ, e.dependencies);
      ghost var b := WriteList(SUPPRESSION, e.suppressions) + c;
      Regrouped(data, WriteList(VIOLATION, e.violations), WriteList(FACT, e.facts) + b);
      PutViolations(e.violations);
      Regrouped(data, WriteList(FACT, e.facts), b);
      PutFacts(e.facts);
      Regrouped(data, WriteList(SUPPRESSION, e.suppressions), c);
      PutSuppressions(e.suppressions);
      Regrouped(data, WriteList(U32, e.usedSuppressions), WriteList(READ, e.dependencies));
      PutUsed(e.usedSuppressions);
      PutReads(e.dependencies);
    }
  }
}
