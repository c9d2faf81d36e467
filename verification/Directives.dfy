/** Reading a suppression directive off a line, and a file's directives off its text. */
module Directives {
  import opened Wrappers
  import opened Words
  import opened RuleIds
  import opened Reports
  import opened Calendar
  import opened Text
  import opened Suppressions
  import Utf8

  const REASON: string := "reason:"
  const EXPIRES: string := "expires:"

  predicate IsSeparator(c: char) {
    c == ',' || c == ' ' || c == '\t'
  }

  /** The ids the tokens spell, or the first token that spells none. */
  function IdsOf(tokens: seq<string>): Result<seq<RuleId>, Problem> {
    if tokens == [] then Ok([])
    else
      match Parse(tokens[0])
      case Err(_) => Err(NotARuleId(tokens[0]))
      case Ok(id) =>
        match IdsOf(tokens[1..])
        case Err(problem) => Err(problem)
        case Ok(ids) => Ok([id] + ids)
  }

  function RulesIn(text: string): Result<seq<RuleId>, Problem> {
    var ids := IdsOf(SplitBy(text, IsSeparator));
    if ids == Ok([]) then Err(NoRules) else ids
  }

  /** `parse_rules`. */
  method ParseRules(text: string) returns (r: Result<seq<RuleId>, Problem>)
    ensures r == RulesIn(text)
  {
    var tokens := SplitBy(text, IsSeparator);
    var rules: seq<RuleId> := [];
    assert tokens[0..] == tokens;
    PrefixedByNone(IdsOf(tokens));
    for i := 0 to |tokens|
      invariant IdsOf(tokens) == Prefixed(rules, IdsOf(tokens[i..]))
    {
      match Parse(tokens[i])
      case Err(_) => return Err(NotARuleId(tokens[i]));
      case Ok(id) =>
        assert tokens[i..][1..] == tokens[i + 1..];
        PrefixedMore(rules, id, IdsOf(tokens[i + 1..]));
        rules := rules + [id];
    }
    assert rules + [] == rules;
    if rules == [] {
      return Err(NoRules);
    }
    return Ok(rules);
  }

  ghost function Prefixed(rules: seq<RuleId>, rest: Result<seq<RuleId>, Problem>): Result<seq<RuleId>, Problem> {
    match rest
    case Err(problem) => Err(problem)
    case Ok(ids) => Ok(rules + ids)
  }

  lemma PrefixedByNone(rest: Result<seq<RuleId>, Problem>)
    ensures Prefixed([], rest) == rest
  {
    if rest.Ok? {
      assert [] + rest.value == rest.value;
    }
  }

  lemma PrefixedMore(rules: seq<RuleId>, id: RuleId, rest: Result<seq<RuleId>, Problem>)
    ensures Prefixed(rules, Prefixed([id], rest)) == Prefixed(rules + [id], rest)
  {
    if rest.Ok? {
      assert rules + ([id] + rest.value) == rules + [id] + rest.value;
    }
  }

  /** What follows `reason:`: a date is taken from its end, and what stands in front of that is the reason. */
  function ParseTail(scope: Scope, rules: seq<RuleId>, tail: string, line: u32, column: u32):
    Result<Suppression, Problem>
  {
    match FindLast(tail, EXPIRES)
    case Some(at) =>
      var text := Trim(tail[at + |EXPIRES|..]);
      (match ParseDate(text)
       case None => Err(UnreadableExpiry(text))
       case Some(date) => Finished(scope, rules, Trim(tail[..at]), Some(date), line, column))
    case None => Finished(scope, rules, Trim(tail), None, line, column)
  }

  function Finished(scope: Scope, rules: seq<RuleId>, reason: string, expires: Option<Date>, line: u32, column: u32):
    Result<Suppression, Problem>
  {
    if reason == "" then Err(EmptyReason(scope)) else Ok(Suppression(scope, rules, reason, expires, line, column))
  }

  /** `parse_body`. */
  function ParseBody(scope: Scope, rest: string, line: u32, column: u32): Result<Suppression, Problem> {
    match Find(rest, REASON)
    case None => Err(NoReason(scope))
    case Some(at) =>
      match RulesIn(rest[..at])
      case Err(problem) => Err(problem)
      case Ok(rules) => ParseTail(scope, rules, rest[at + |REASON|..], line, column)
  }

  /** One-based, in bytes. */
  function Column(text: string, at: nat): u32
    requires at <= |text|
  {
    Narrowed(|Utf8.Encode(text[..at])| + 1)
  }

  /** What one line of the file contributes. */
  function ParseLine(text: string, line: u32): Option<Result<Suppression, Malformed>> {
    match FindDirective(text)
    case None => None
    case Some((scope, at)) =>
      var column := Column(text, at);
      match ParseBody(scope, BodyOf(text, at, |TokenFor(scope)|), line, column)
      case Ok(suppression) => Some(Ok(suppression))
      case Err(problem) => Some(Err(Malformed(line, column, problem)))
  }

  // ----- Whole files -----

  function StripReturn(line: string): string {
    if EndsWith(line, "\r") then line[..|line| - 1] else line
  }

  /** `str::lines`: a carriage return goes with the newline behind it, and a final newline opens no further line. */
  function Lines(source: string): seq<string>
    decreases |source|
  {
    if source == "" then []
    else
      match Find(source, "\n")
      case None => [source]
      case Some(end) => [StripReturn(source[..end])] + Lines(source[end + 1..])
  }

  /** The directives of lines numbered from `index + 1`. */
  function Collected(lines: seq<string>, index: nat): Suppressions.Found {
    if lines == [] then Suppressions.Found([], [])
    else
      var rest := Collected(lines[1..], index + 1);
      match ParseLine(lines[0], Narrowed(index + 1))
      case None => rest
      case Some(Ok(suppression)) => Suppressions.Found([suppression] + rest.valid, rest.malformed)
      case Some(Err(malformed)) => Suppressions.Found(rest.valid, [malformed] + rest.malformed)
  }

  function Added(found: Suppressions.Found, reading: Option<Result<Suppression, Malformed>>): Suppressions.Found {
    match reading
    case None => found
    case Some(Ok(suppression)) => found.(valid := found.valid + [suppression])
    case Some(Err(malformed)) => found.(malformed := found.malformed + [malformed])
  }

  /** `parse`. */
  method ParseFile(source: string) returns (found: Suppressions.Found)
    ensures found == Collected(Lines(source), 0)
  {
    hide ParseLine, Collected;
    var lines := Lines(source);
    found := Suppressions.Found([], []);
    assert lines[0..] == lines;
    BehindNone(Collected(lines, 0));
    for index := 0 to |lines|
      invariant Collected(lines, 0) == Behind(found, Collected(lines[index..], index))
    {
      NextReading(found, lines, index);
      match ParseLine(lines[index], Narrowed(index + 1))
      case None =>
      case Some(Ok(suppression)) => found := found.(valid := found.valid + [suppression]);
      case Some(Err(malformed)) => found := found.(malformed := found.malformed + [malformed]);
    }
    assert lines[|lines|..] == [];
    NothingBehind(found, |lines|);
  }

  ghost function Behind(found: Suppressions.Found, rest: Suppressions.Found): Suppressions.Found {
    Suppressions.Found(found.valid + rest.valid, found.malformed + rest.malformed)
  }

  lemma BehindNone(rest: Suppressions.Found)
    ensures Behind(Suppressions.Found([], []), rest) == rest
  {
    assert [] + rest.valid == rest.valid && [] + rest.malformed == rest.malformed;
  }

  lemma NothingBehind(found: Suppressions.Found, index: nat)
    ensures Behind(found, Collected([], index)) == found
  {
    assert found.valid + [] == found.valid && found.malformed + [] == found.malformed;
  }

  lemma NextReading(found: Suppressions.Found, lines: seq<string>, index: nat)
    requires index < |lines|
    ensures Behind(found, Collected(lines[index..], index))
         == Behind(Added(found, ParseLine(lines[index], Narrowed(index + 1))), Collected(lines[index + 1..], index + 1))
  {
    hide ParseLine;
    var rest := Collected(lines[index + 1..], index + 1);
    assert lines[index..][1..] == lines[index + 1..];
    match ParseLine(lines[index], Narrowed(index + 1))
    case None =>
    case Some(Ok(suppression)) =>
      assert found.valid + ([suppression] + rest.valid) == found.valid + [suppression] + rest.valid;
    case Some(Err(malformed)) =>
      assert found.malformed + ([malformed] + rest.malformed) == found.malformed + [malformed] + rest.malformed;
  }

  // ----- The documented form -----

  function Shown(rules: seq<RuleId>): (r: seq<string>)
    ensures |r| == |rules|
    ensures forall i | 0 <= i < |r| :: r[i] == Show(rules[i])
  {
    seq(|rules|, i requires 0 <= i < |rules| => Show(rules[i]))
  }

  function ShownExpiry(expires: Option<Date>): string {
    match expires
    case None => ""
    case Some(date) => " " + EXPIRES + " " + ShowDate(date)
  }

  function ShownTail(d: Suppression): string {
    " " + d.reason + ShownExpiry(d.expires)
  }

  function ShownIds(d: Suppression, sep: string): string {
    " " + Join(Shown(d.rules), sep) + " "
  }

  /** `<ids> reason: <reason>`, and `expires: <date>` behind it if there is one. */
  function Body(d: Suppression, sep: string): string {
    ShownIds(d, sep) + REASON + ShownTail(d)
  }

  /** A directive that can be written down: some rules, a trimmed reason, a four-digit year. */
  ghost predicate Writable(d: Suppression) {
    && d.rules != []
    && (forall i | 0 <= i < |d.rules| :: RuleIds.Valid(d.rules[i]))
    && d.reason != "" && IsTrimmed(d.reason)
    && (d.expires.Some? ==> InRange(Wide(d.expires.value)) && d.expires.value.year <= 9999)
  }

  predicate Contains(s: string, sub: string) {
    exists k | 0 <= k <= |s| :: OccursAt(s, sub, k)
  }

  lemma {:induction false} IdsOfShown(rules: seq<RuleId>)
    requires forall i | 0 <= i < |rules| :: RuleIds.Valid(rules[i])
    ensures IdsOf(Shown(rules)) == Ok(rules)
  {
    if rules != [] {
      ParseExact(Show(rules[0]), rules[0]);
      assert Shown(rules)[1..] == Shown(rules[1..]);
      IdsOfShown(rules[1..]);
      assert [rules[0]] + rules[1..] == rules;
    }
  }

  predicate IsIdChar(c: char) {
    IsLower(c) || IsDigit(c) || c == '-' || c == '/'
  }

  lemma ShownIsPiece(id: RuleId)
    requires RuleIds.Valid(id)
    ensures forall k | 0 <= k < |Show(id)| :: IsIdChar(Show(id)[k])
    ensures IsPiece(Show(id), IsSeparator)
  {
  }

  lemma RulesInShown(d: Suppression, sep: string)
    requires Writable(d) && sep != "" && AllSeparators(sep, IsSeparator)
    ensures RulesIn(ShownIds(d, sep)) == Ok(d.rules)
  {
    var pieces := Shown(d.rules);
    forall i | 0 <= i < |pieces|
      ensures IsPiece(pieces[i], IsSeparator)
    {
      ShownIsPiece(d.rules[i]);
    }
    SplitJoined(pieces, sep, " ", IsSeparator);
    SkipSeparators(" ", Join(pieces, sep) + " ", IsSeparator);
    assert ShownIds(d, sep) == " " + (Join(pieces, sep) + " ");
    IdsOfShown(d.rules);
  }

  lemma {:induction false} JoinAvoids(pieces: seq<string>, sep: string, c: char)
    requires forall i | 0 <= i < |pieces| :: c !in pieces[i]
    requires c !in sep
    ensures c !in Join(pieces, sep)
  {
    if |pieces| > 1 {
      JoinAvoids(pieces[1..], sep, c);
    }
  }

  lemma ShownIdsAvoid(d: Suppression, sep: string, c: char)
    requires Writable(d) && AllSeparators(sep, IsSeparator)
    requires !IsSeparator(c) && !IsIdChar(c)
    ensures c !in ShownIds(d, sep)
  {
    var pieces := Shown(d.rules);
    forall i | 0 <= i < |pieces|
      ensures c !in pieces[i]
    {
      ShownIsPiece(d.rules[i]);
    }
    JoinAvoids(pieces, sep, c);
  }

  /** The keyword's first occurrence is the written one: no earlier one can have its colon. */
  lemma ReasonIsFound(ids: string, tail: string)
    requires ':' !in ids
    ensures Find(ids + REASON + tail, REASON) == Some(|ids|)
  {
    var text := ids + REASON + tail;
    assert OccursAt(text, REASON, |ids|);
    forall k | 0 <= k < |ids|
      ensures !OccursAt(text, REASON, k)
    {
      if k + 7 <= |text| {
        assert text[k..k + 7][6] == text[k + 6] == (ids + REASON)[k + 6] != ':';
      }
    }
  }

  /** So is the other keyword's last one, the date behind it having no colon. */
  lemma ExpiresIsFound(before: string, after: string)
    requires ':' !in after
    ensures FindLast(before + EXPIRES + after, EXPIRES) == Some(|before|)
  {
    var text := before + EXPIRES + after;
    assert OccursAt(text, EXPIRES, |before|);
    forall k | |before| < k
      ensures !OccursAt(text, EXPIRES, k)
    {
      if k + 8 <= |text| {
        assert text[k..k + 8][7] == text[k + 7] == after[k + 7 - |before| - 8];
      }
    }
  }

  lemma BodyReachesTail(d: Suppression, sep: string, tail: string)
    requires Writable(d) && sep != "" && AllSeparators(sep, IsSeparator)
    ensures ParseBody(d.scope, ShownIds(d, sep) + REASON + tail, d.line, d.column)
         == ParseTail(d.scope, d.rules, tail, d.line, d.column)
  {
    hide ParseTail, Find, RulesIn, ShownIds;
    var ids := ShownIds(d, sep);
    ShownIdsAvoid(d, sep, ':');
    ReasonIsFound(ids, tail);
    RulesInShown(d, sep);
    var rest := ids + REASON + tail;
    assert rest[..|ids|] == ids && rest[|ids| + 7..] == tail;
  }

  lemma DateShape(d: Date)
    ensures forall c | c in ShowDate(d) :: IsDigit(c) || c == '-'
    ensures IsTrimmed(ShowDate(d))
    ensures |ShowDate(d)| > 0 && IsDigit(ShowDate(d)[|ShowDate(d)| - 1])
  {
    var y, m, n := Digits(d.year, if d.year < 10000 then 4 else 5), Digits(d.month, if d.month < 100 then 2 else 3),
      Digits(d.day, if d.day < 100 then 2 else 3);
    assert ShowDate(d) == y + "-" + m + "-" + n;
    assert ShowDate(d)[0] == y[0];
    assert ShowDate(d)[|ShowDate(d)| - 1] == n[|n| - 1];
  }

  /** With a date, the tail is read back whatever the reason holds, white space behind it or not. */
  lemma DatedTail(d: Suppression, blank: string)
    requires Writable(d) && d.expires.Some? && IsBlank(blank) && ':' !in blank
    ensures ParseTail(d.scope, d.rules, ShownTail(d) + blank, d.line, d.column) == Ok(d)
  {
    hide ParseDate, ShowDate, FindLast;
    var date := d.expires.value;
    var before, after := " " + d.reason + " ", " " + ShowDate(date) + blank;
    var tail := ShownTail(d) + blank;
    DateShape(date);
    assert tail == before + EXPIRES + after;
    ExpiresIsFound(before, after);
    assert tail[|before| + 8..] == after && tail[..|before|] == before;
    TrimPadded(" ", ShowDate(date), blank);
    TrimPadded(" ", d.reason, " ");
    Suppressions.DateRoundTrip(date);
  }

  lemma KeywordInReason(reason: string, blank: string)
    requires IsBlank(blank)
    ensures FindLast(" " + reason + blank, EXPIRES).None? <==> !Contains(reason, EXPIRES)
  {
    var tail := " " + reason + blank;
    if Contains(reason, EXPIRES) {
      var k :| 0 <= k <= |reason| && OccursAt(reason, EXPIRES, k);
      assert tail[k + 1..k + 1 + 8] == reason[k..k + 8];
      assert OccursAt(tail, EXPIRES, k + 1);
    } else {
      forall k
        ensures !OccursAt(tail, EXPIRES, k)
      {
        if 0 <= k && k + 8 <= |tail| {
          if k == 0 {
            assert tail[0..8][0] == ' ';
          } else if k + 8 <= 1 + |reason| {
            assert tail[k..k + 8] == reason[k - 1..k + 7];
            assert !OccursAt(reason, EXPIRES, k - 1);
          } else {
            assert tail[k..k + 8][7] == tail[k + 7] == blank[k + 6 - |reason|];
            assert IsWhitespace(blank[k + 6 - |reason|]) && !IsWhitespace(EXPIRES[7]);
          }
        }
      }
    }
  }

  /** Without one, exactly when the reason does not mention the keyword. */
  lemma UndatedTail(d: Suppression, blank: string)
    requires Writable(d) && d.expires.None? && IsBlank(blank)
    ensures ParseTail(d.scope, d.rules, ShownTail(d) + blank, d.line, d.column) == Ok(d)
       <==> !Contains(d.reason, EXPIRES)
  {
    hide ParseDate, FindLast;
    assert ShownTail(d) + blank == " " + d.reason + blank;
    KeywordInReason(d.reason, blank);
    TrimPadded(" ", d.reason, blank);
  }

  // ----- Where the directive stands -----

  /** In front of a directive: no token stands alone in it, and one stands alone after it. */
  ghost predicate OpensComment(prefix: string) {
    && (forall s: Scope, k :: !StandsAt(prefix, TokenFor(s), k))
    && (prefix != "" ==> !IsWordChar(prefix[|prefix| - 1]))
  }

  /** Of two occurrences, neither begins inside the other: both tokens clash with themselves and with each other. */
  lemma NothingAcross(text: string, a: string, b: string, k: nat, at: nat)
    requires OccursAt(text, b, at) && NoOverlap(a, b) && k < at < k + |a|
    ensures !OccursAt(text, a, k)
  {
    assert Clashes(a, b, at - k);
    var j := if Differ(a, b, at - k, 0) then 0 else 1;
    assert text[at..at + |b|][j] == text[at + j];
    if k + |a| <= |text| {
      assert text[k..k + |a|][at - k + j] == text[at + j];
    }
  }

  lemma TokensEndInWords(s: Scope)
    ensures |TokenFor(s)| > 0 && IsWordChar(TokenFor(s)[|TokenFor(s)| - 1])
  {
  }

  /** In front of the written token, a token stands alone in the line where it does in the prefix. */
  lemma StandsBefore(prefix: string, own: Scope, rest: string, other: Scope, k: nat)
    requires k < |prefix| && (prefix != "" ==> !IsWordChar(prefix[|prefix| - 1]))
    ensures StandsAt(prefix + TokenFor(own) + rest, TokenFor(other), k) <==> StandsAt(prefix, TokenFor(other), k)
  {
    hide TokenFor, IsWordChar;
    var text, token := prefix + TokenFor(own) + rest, TokenFor(other);
    assert text[|prefix|..|prefix| + |TokenFor(own)|] == TokenFor(own);
    TokensEndInWords(other);
    if k + |token| <= |prefix| {
      assert text[k..k + |token|] == prefix[k..k + |token|];
      if k + |token| == |prefix| {
        assert prefix[k..k + |token|][|token| - 1] == prefix[|prefix| - 1];
      }
    } else {
      TokensDoNotOverlap(other, own);
      NothingAcross(text, token, TokenFor(own), k, |prefix|);
    }
  }

  lemma NeitherIsPrefix(prefix: string, own: Scope, rest: string, other: Scope)
    requires own != other
    ensures !OccursAt(prefix + TokenFor(own) + rest, TokenFor(other), |prefix|)
  {
    var text, token := prefix + TokenFor(own) + rest, TokenFor(other);
    assert TokenFor(own)[16] != token[16];
    if |prefix| + |token| <= |text| {
      assert text[|prefix|..|prefix| + |token|][16] == text[|prefix| + 16] == TokenFor(own)[16];
    }
  }

  /** What follows a token does not go on with the word. */
  predicate EndsToken(rest: string) {
    rest == "" || (!IsWordChar(rest[0]) && rest[0] != '-')
  }

  lemma OwnStands(prefix: string, scope: Scope, rest: string)
    ensures StandsAt(prefix + TokenFor(scope) + rest, TokenFor(scope), |prefix|)
       <==> (prefix != "" ==> !IsWordChar(prefix[|prefix| - 1])) && EndsToken(rest)
  {
    hide TokenFor, IsWordChar;
    var text, at := prefix + TokenFor(scope) + rest, |prefix|;
    assert text[at..at + |TokenFor(scope)|] == TokenFor(scope);
    assert rest != "" ==> text[at + |TokenFor(scope)|] == rest[0];
  }

  /** The first to stand, of either token. */
  lemma FindsTheFirst(text: string, scope: Scope, at: nat)
    requires at <= |text| && StandsAt(text, TokenFor(scope), at)
    requires forall s: Scope | s != scope :: !StandsAt(text, TokenFor(s), at)
    ensures FindDirective(text) == Some((scope, at)) <==> forall s: Scope, k | k < at :: !StandsAt(text, TokenFor(s), k)
  {
    hide TokenFor, StandsAt;
    var own, other := scope, if scope == NextLine then Scope.File else NextLine;
    if forall s: Scope, k | k < at :: !StandsAt(text, TokenFor(s), k) {
      SkipQuiet(text, TokenFor(own), 0, at);
      StandsHere(text, TokenFor(own), at);
      var found := FirstStanding(text, TokenFor(other), 0);
      assert found.Some? ==> StandsAt(text, TokenFor(other), found.value) && at < found.value;
    }
    if FindDirective(text) == Some((scope, at)) {
      forall s: Scope, k | k < at
        ensures !StandsAt(text, TokenFor(s), k)
      {
        NoneStandsBelow(text, TokenFor(s), k);
      }
    }
  }

  lemma NoneStandsBelow(text: string, token: string, k: int)
    requires k < 0 || FirstStanding(text, token, 0).None? || k < FirstStanding(text, token, 0).value
    ensures !StandsAt(text, token, k)
  {
  }

  /** The written token is the one found exactly when no directive stands in front of it and it is a word of its own. */
  lemma DirectiveIsFound(prefix: string, scope: Scope, rest: string)
    ensures FindDirective(prefix + TokenFor(scope) + rest) == Some((scope, |prefix|))
       <==> OpensComment(prefix) && EndsToken(rest)
  {
    hide TokenFor, StandsAt, FindDirective;
    var text, at := prefix + TokenFor(scope) + rest, |prefix|;
    var other := if scope == NextLine then Scope.File else NextLine;
    OwnStands(prefix, scope, rest);
    if StandsAt(text, TokenFor(scope), at) {
      OtherDoesNotStand(prefix, scope, rest, other);
      FindsTheFirst(text, scope, at);
      forall s: Scope, k
        ensures k < at ==> (StandsAt(text, TokenFor(s), k) <==> StandsAt(prefix, TokenFor(s), k))
        ensures k >= at ==> !StandsAt(prefix, TokenFor(s), k)
      {
        if 0 <= k < at {
          StandsBefore(prefix, scope, rest, s, k);
        } else {
          StandsNowhereElse(prefix, text, s, k);
        }
      }
    } else {
      FoundStands(text, scope, at);
    }
  }

  lemma OtherDoesNotStand(prefix: string, scope: Scope, rest: string, other: Scope)
    requires other != scope
    ensures !StandsAt(prefix + TokenFor(scope) + rest, TokenFor(other), |prefix|)
  {
    hide TokenFor;
    NeitherIsPrefix(prefix, scope, rest, other);
  }

  lemma StandsNowhereElse(prefix: string, text: string, s: Scope, k: int)
    ensures k < 0 ==> !StandsAt(prefix, TokenFor(s), k) && !StandsAt(text, TokenFor(s), k)
    ensures k >= |prefix| ==> !StandsAt(prefix, TokenFor(s), k)
  {
    TokensEndInWords(s);
  }

  lemma FoundStands(text: string, scope: Scope, at: nat)
    ensures FindDirective(text) == Some((scope, at)) ==> StandsAt(text, TokenFor(scope), at)
  {
  }

  // ----- Reading a written directive back -----

  /** The directive as found in a line, after `prefix`. */
  function PlacedAt(d: Suppression, prefix: string, line: u32): Suppression {
    d.(line := line, column := Narrowed(|Utf8.Encode(prefix)| + 1))
  }

  ghost predicate ReadsBack(text: string, d: Suppression, prefix: string, line: u32) {
    ParseLine(text, line) == Some(Ok(PlacedAt(d, prefix, line)))
  }

  lemma LineReading(prefix: string, d: Suppression, rest: string, line: u32)
    requires OpensComment(prefix) && rest != "" && rest[0] == ' '
    ensures var text := prefix + TokenFor(d.scope) + rest;
      var placed := PlacedAt(d, prefix, line);
      ReadsBack(text, d, prefix, line)
      <==> ParseBody(d.scope, BodyOf(text, |prefix|, |TokenFor(d.scope)|), line, placed.column) == Ok(placed)
  {
    hide TokenFor, ParseBody, FindDirective, BodyOf;
    DirectiveIsFound(prefix, d.scope, rest);
    assert (prefix + TokenFor(d.scope) + rest)[..|prefix|] == prefix;
  }

  lemma RestOfLine(prefix: string, token: string, rest: string)
    ensures (prefix + token + rest)[..|prefix|] == prefix
    ensures (prefix + token + rest)[|prefix| + |token|..] == rest
  {
  }

  lemma TrimShrinks(s: string)
    ensures |Trim(s)| <= |s|
  {
    TrimStartSuffix(s);
    TrimEndPrefix(TrimStart(s));
  }

  /** A tail cut short inside the reason cannot give the whole reason back. */
  lemma ShortTail(d: Suppression, tail: string)
    requires |tail| < |d.reason|
    ensures ParseTail(d.scope, d.rules, tail, d.line, d.column) != Ok(d)
  {
    hide ParseDate, Trim;
    TrimShrinks(tail);
    var at := FindLast(tail, EXPIRES);
    if at.Some? {
      TrimShrinks(tail[..at.value]);
    }
  }

  lemma BodyEnd(d: Suppression, sep: string)
    requires Writable(d)
    ensures var body := Body(d, sep);
      && body != "" && !IsWhitespace(body[|body| - 1])
      && TrimEnd(body) == body
      && (EndsWith(body, "*/") <==> d.expires.None? && EndsWith(d.reason, "*/"))
  {
    hide ShownIds, ShowDate;
    var body := Body(d, sep);
    if d.expires.Some? {
      DateShape(d.expires.value);
      assert body[|body| - 1] == ShowDate(d.expires.value)[|ShowDate(d.expires.value)| - 1];
    } else {
      assert body == ShownIds(d, sep) + REASON + " " + d.reason;
      assert body[|body| - 1] == d.reason[|d.reason| - 1];
      if |d.reason| == 1 {
        assert body[|body| - 2] == ' ';
      } else {
        assert body[|body| - 2..] == d.reason[|d.reason| - 2..];
      }
    }
  }

  /** A directive in a line comment is read back whenever it is dated; undated, exactly when its reason neither names
    * the date's keyword nor ends like a block comment. */
  lemma LineCommentRoundTrip(prefix: string, d: Suppression, sep: string, line: u32)
    requires OpensComment(prefix) && !OpensBlock(prefix)
    requires Writable(d) && sep != "" && AllSeparators(sep, IsSeparator)
    ensures ReadsBack(prefix + TokenFor(d.scope) + Body(d, sep), d, prefix, line)
       <==> d.expires.Some? || (!Contains(d.reason, EXPIRES) && !EndsWith(d.reason, "*/"))
  {
    hide ReadsBack, TokenFor, ParseBody, ParseTail, OpensBlock, Body, Utf8.Encode, Contains;
    var body := Body(d, sep);
    var placed := PlacedAt(d, prefix, line);
    ShownIdsStart(d, sep);
    LineReading(prefix, d, body, line);
    RestOfLine(prefix, TokenFor(d.scope), body);
    BodyEnd(d, sep);
    if EndsWith(body, "*/") {
      CutBody(d, placed, sep);
    } else {
      BodyBeforeCloser(d, placed, sep, "");
      assert body + "" == body;
    }
  }

  lemma CutBody(d: Suppression, placed: Suppression, sep: string)
    requires placed == d.(line := placed.line, column := placed.column)
    requires Writable(d) && sep != "" && AllSeparators(sep, IsSeparator)
    requires d.expires.None? && EndsWith(d.reason, "*/")
    ensures |Body(d, sep)| > 2
    ensures ParseBody(d.scope, Body(d, sep)[..|Body(d, sep)| - 2], placed.line, placed.column) != Ok(placed)
  {
    hide ShownIds, ParseBody, ParseTail;
    var body, tail := Body(d, sep), ShownTail(d)[..|ShownTail(d)| - 2];
    assert body[..|body| - 2] == ShownIds(d, sep) + REASON + tail;
    SameText(d, placed, sep);
    BodyReachesTail(placed, sep, tail);
    ShortTail(placed, tail);
  }

  lemma ShownIdsStart(d: Suppression, sep: string)
    ensures |ShownIds(d, sep)| > 0 && ShownIds(d, sep)[0] == ' '
    ensures Body(d, sep) != "" && Body(d, sep)[0] == ' '
  {
  }

  lemma SameText(d: Suppression, e: Suppression, sep: string)
    requires d.rules == e.rules
    ensures ShownIds(d, sep) == ShownIds(e, sep)
  {
  }

  /** Only the reason can hold a closer before the one behind the padding. */
  lemma CloserIsFound(head: string, reason: string, padding: string, code: string)
    requires '*' !in head && '*' !in padding && '/' !in padding
    ensures Find(head + reason + padding + "*/" + code, "*/") == match Find(reason, "*/")
      case None => Some(|head + reason + padding|)
      case Some(e) => Some(|head| + e)
  {
    hide Find;
    var text, end := head + reason + padding + "*/" + code, |head + reason + padding|;
    assert OccursAt(text, "*/", end);
    forall k | 0 <= k < end
      ensures OccursAt(text, "*/", k) <==> OccursAt(reason, "*/", k - |head|)
    {
      if OccursAt(text, "*/", k) {
        CloserInReason(head, reason, padding, code, k);
      }
      if OccursAt(reason, "*/", k - |head|) {
        assert text[k..k + 2] == reason[k - |head|..k - |head| + 2];
      }
    }
    var found := Find(reason, "*/");
    if found.Some? {
      FoundAt(text, "*/", |head| + found.value);
    } else {
      FoundAt(text, "*/", end);
    }
  }

  lemma FoundAt(text: string, sub: string, at: nat)
    requires OccursAt(text, sub, at)
    requires forall k | 0 <= k < at :: !OccursAt(text, sub, k)
    ensures Find(text, sub) == Some(at)
  {
  }

  lemma CloserInReason(head: string, reason: string, padding: string, code: string, k: nat)
    requires '*' !in head && '*' !in padding && '/' !in padding
    requires k < |head + reason + padding|
    requires OccursAt(head + reason + padding + "*/" + code, "*/", k)
    ensures OccursAt(reason, "*/", k - |head|)
  {
    var text := head + reason + padding + "*/" + code;
    assert text[k..k + 2] == [text[k], text[k + 1]];
    assert reason[k - |head|..k - |head| + 2] == text[k..k + 2];
  }

  lemma ExpiryAvoidsCloser(expires: Option<Date>, blank: string)
    requires IsBlank(blank)
    ensures '*' !in ShownExpiry(expires) + blank && '/' !in ShownExpiry(expires) + blank
  {
    hide ShowDate;
    if expires.Some? {
      DateShape(expires.value);
    }
  }

  /** A directive in a block comment of its own is read back, whatever code follows the comment, exactly when its reason
    * does not close the comment early and, undated, does not name the date's keyword. */
  lemma BlockCommentRoundTrip(prefix: string, d: Suppression, sep: string, blank: string, code: string, line: u32)
    requires OpensComment(prefix) && OpensBlock(prefix)
    requires Writable(d) && sep != "" && AllSeparators(sep, IsSeparator) && IsBlank(blank)
    ensures ReadsBack(prefix + TokenFor(d.scope) + (Body(d, sep) + blank + "*/" + code), d, prefix, line)
       <==> !Contains(d.reason, "*/") && (d.expires.None? ==> !Contains(d.reason, EXPIRES))
  {
    hide ReadsBack, TokenFor, ParseBody, ParseTail, OpensBlock, Body, Utf8.Encode, Contains;
    var rest := Body(d, sep) + blank + "*/" + code;
    var placed := PlacedAt(d, prefix, line);
    ShownIdsStart(d, sep);
    LineReading(prefix, d, rest, line);
    RestOfLine(prefix, TokenFor(d.scope), rest);
    CommentEnds(d, sep, blank, code);
    CloserContained(d.reason);
    if Find(d.reason, "*/").Some? {
      BodyUpToCloser(d, placed, sep, blank, code);
    } else {
      BodyBeforeCloser(d, placed, sep, blank);
      assert rest[..|Body(d, sep) + blank|] == Body(d, sep) + blank;
    }
  }

  lemma CloserContained(reason: string)
    ensures Find(reason, "*/").Some? <==> Contains(reason, "*/")
  {
  }

  lemma CommentEnds(d: Suppression, sep: string, blank: string, code: string)
    requires Writable(d) && AllSeparators(sep, IsSeparator) && IsBlank(blank)
    ensures Find(Body(d, sep) + blank + "*/" + code, "*/") == match Find(d.reason, "*/")
      case None => Some(|Body(d, sep) + blank|)
      case Some(e) => Some(|ShownIds(d, sep) + REASON + " "| + e)
  {
    hide ShownIds, ShownExpiry, Find;
    ShownIdsAvoid(d, sep, '*');
    ExpiryAvoidsCloser(d.expires, blank);
    var head, padding := ShownIds(d, sep) + REASON + " ", ShownExpiry(d.expires) + blank;
    assert Body(d, sep) + blank == head + d.reason + padding;
    CloserIsFound(head, d.reason, padding, code);
  }

  lemma BodyUpToCloser(d: Suppression, placed: Suppression, sep: string, blank: string, code: string)
    requires placed == d.(line := placed.line, column := placed.column)
    requires Writable(d) && sep != "" && AllSeparators(sep, IsSeparator)
    requires Find(d.reason, "*/").Some?
    ensures var end := |ShownIds(d, sep) + REASON + " "| + Find(d.reason, "*/").value;
      var rest := Body(d, sep) + blank + "*/" + code;
      end <= |rest| && ParseBody(d.scope, rest[..end], placed.line, placed.column) != Ok(placed)
  {
    hide ShownIds, ShownExpiry, Find, ParseBody, ParseTail;
    var e := Find(d.reason, "*/").value;
    var end := |ShownIds(d, sep) + REASON + " "| + e;
    var rest, tail := Body(d, sep) + blank + "*/" + code, " " + d.reason[..e];
    assert rest[..end] == ShownIds(d, sep) + REASON + tail;
    SameText(d, placed, sep);
    BodyReachesTail(placed, sep, tail);
    ShortTail(placed, tail);
  }

  lemma BodyBeforeCloser(d: Suppression, placed: Suppression, sep: string, blank: string)
    requires placed == d.(line := placed.line, column := placed.column)
    requires Writable(d) && sep != "" && AllSeparators(sep, IsSeparator) && IsBlank(blank)
    ensures ParseBody(d.scope, Body(d, sep) + blank, placed.line, placed.column) == Ok(placed)
       <==> d.expires.Some? || !Contains(d.reason, EXPIRES)
  {
    hide ShownIds, ShownExpiry, ParseBody, ParseTail;
    assert Body(d, sep) + blank == ShownIds(d, sep) + REASON + (ShownTail(placed) + blank);
    SameText(d, placed, sep);
    BodyReachesTail(placed, sep, ShownTail(placed) + blank);
    if d.expires.Some? {
      DatedTail(placed, blank);
    } else {
      UndatedTail(placed, blank);
    }
  }

  // ----- A file of directives -----

  /** A newline, with a carriage return in front of it or not. */
  predicate IsLineEnd(eol: string) {
    eol == "\n" || eol == "\r\n"
  }

  /** Each line with its end. */
  function Terminated(lines: seq<string>, eol: string): string {
    if lines == [] then "" else lines[0] + eol + Terminated(lines[1..], eol)
  }

  lemma FirstNewline(line: string, eol: string, rest: string)
    requires IsLineEnd(eol) && '\n' !in line
    ensures Find(line + eol + rest, "\n") == Some(|line + eol| - 1)
  {
    hide Find;
    var source, n := line + eol + rest, |line + eol| - 1;
    assert source[n..n + 1] == "\n";
    forall k | 0 <= k < n
      ensures !OccursAt(source, "\n", k)
    {
      assert source[k] == (line + eol)[k];
      assert source[k..k + 1][0] == source[k];
    }
    FoundAt(source, "\n", n);
  }

  /** A file's lines are the texts between the line ends: without the carriage return of the end, and with any other;
    * a last line needs no end, and behind the last end there is no further line. */
  lemma {:induction false} LinesOfText(lines: seq<string>, eol: string, last: string)
    requires IsLineEnd(eol) && '\n' !in last
    requires forall i | 0 <= i < |lines| :: '\n' !in lines[i] && (eol == "\n" ==> !EndsWith(lines[i], "\r"))
    ensures Lines(Terminated(lines, eol) + last) == lines + if last == "" then [] else [last]
  {
    hide Find, EndsWith, StripReturn;
    if lines == [] {
      assert "" + last == last;
      if last != "" {
        NoNewline(last);
      }
    } else {
      var line, rest := lines[0], Terminated(lines[1..], eol) + last;
      var source, n := line + eol + rest, |line + eol| - 1;
      assert Terminated(lines, eol) + last == source;
      FirstNewline(line, eol, rest);
      assert source[..n] == line + eol[..|eol| - 1] && source[n + 1..] == rest;
      ReturnIsStripped(line, eol);
      LinesOfText(lines[1..], eol, last);
      assert [line] + lines[1..] == lines;
    }
  }

  lemma NoNewline(line: string)
    requires '\n' !in line
    ensures Find(line, "\n").None?
  {
    hide Find;
    assert forall k | OccursAt(line, "\n", k) :: line[k..k + 1][0] == line[k];
  }

  lemma ReturnIsStripped(line: string, eol: string)
    requires IsLineEnd(eol) && (eol == "\n" ==> !EndsWith(line, "\r"))
    ensures StripReturn(line + eol[..|eol| - 1]) == line
  {
    assert line + "" == line;
    assert (line + "\r")[|line|..] == "\r" && (line + "\r")[..|line|] == line;
  }

  /** A line without a directive, one that ends in one, or one that holds it in a block comment, with code behind it. */
  datatype SourceLine =
    | Ordinary(text: string)
    | Carrying(prefix: string, d: Suppression, sep: string)
    | Enclosing(prefix: string, d: Suppression, sep: string, blank: string, code: string)
  {
    function Text(): string {
      match this
      case Ordinary(text) => text
      case Carrying(prefix, d, sep) => prefix + TokenFor(d.scope) + Body(d, sep)
      case Enclosing(prefix, d, sep, blank, code) => prefix + TokenFor(d.scope) + (Body(d, sep) + blank + "*/" + code)
    }

    /** No token stands in the first; the directive of the others is read back, and they are single lines. */
    ghost predicate Safe() {
      match this
      case Ordinary(text) => FindDirective(text).None? && '\n' !in text && !EndsWith(text, "\r")
      case Carrying(prefix, d, sep) =>
        && OpensComment(prefix) && !OpensBlock(prefix) && '\n' !in prefix
        && sep != "" && AllSeparators(sep, IsSeparator)
        && Writable(d) && '\n' !in d.reason
        && (d.expires.Some? || (!Contains(d.reason, EXPIRES) && !EndsWith(d.reason, "*/")))
      case Enclosing(prefix, d, sep, blank, code) =>
        && OpensComment(prefix) && OpensBlock(prefix) && '\n' !in prefix
        && sep != "" && AllSeparators(sep, IsSeparator) && IsBlank(blank) && '\n' !in blank
        && Writable(d) && '\n' !in d.reason && '\n' !in code && !EndsWith(code, "\r")
        && !Contains(d.reason, "*/") && (d.expires.None? ==> !Contains(d.reason, EXPIRES))
    }
  }

  function LineTexts(lines: seq<SourceLine>): (r: seq<string>)
    ensures |r| == |lines|
    ensures forall i | 0 <= i < |r| :: r[i] == lines[i].Text()
  {
    seq(|lines|, i requires 0 <= i < |lines| => lines[i].Text())
  }

  /** The directives the lines carry, each as found on its own line, the first of which has the number `index + 1`. */
  function Carried(lines: seq<SourceLine>, index: nat): seq<Suppression> {
    if lines == [] then []
    else
      var rest := Carried(lines[1..], index + 1);
      if lines[0].Ordinary? then rest else [PlacedAt(lines[0].d, lines[0].prefix, Narrowed(index + 1))] + rest
  }

  lemma LineIsRead(line: SourceLine, number: u32)
    requires line.Safe()
    ensures ParseLine(line.Text(), number)
         == if line.Ordinary? then None else Some(Ok(PlacedAt(line.d, line.prefix, number)))
  {
    hide OpensComment, OpensBlock, Body, BodyOf, ParseBody, FindDirective, Contains, EndsWith;
    match line
    case Ordinary(_) =>
    case Carrying(prefix, d, sep) =>
      LineCommentRoundTrip(prefix, d, sep, number);
      assert ReadsBack(line.Text(), d, prefix, number);
    case Enclosing(prefix, d, sep, blank, code) =>
      BlockCommentRoundTrip(prefix, d, sep, blank, code, number);
      assert ReadsBack(line.Text(), d, prefix, number);
  }

  lemma {:induction false} CarriedAreCollected(lines: seq<SourceLine>, index: nat)
    requires forall i | 0 <= i < |lines| :: lines[i].Safe()
    ensures Collected(LineTexts(lines), index) == Suppressions.Found(Carried(lines, index), [])
  {
    hide ParseLine, PlacedAt, SourceLine.Safe, SourceLine.Text;
    if lines != [] {
      LineIsRead(lines[0], Narrowed(index + 1));
      assert LineTexts(lines)[1..] == LineTexts(lines[1..]);
      CarriedAreCollected(lines[1..], index + 1);
    }
  }

  lemma WrittenLineIsOneLine(d: Suppression, prefix: string, sep: string)
    requires Writable(d) && AllSeparators(sep, IsSeparator) && '\n' !in prefix && '\n' !in d.reason
    ensures var line := prefix + TokenFor(d.scope) + Body(d, sep); '\n' !in line && !EndsWith(line, "\r")
  {
    hide IsWhitespace, TrimEnd, TokenFor, Body;
    var body := Body(d, sep);
    var line := prefix + TokenFor(d.scope) + body;
    BodyEnd(d, sep);
    BodyIsOneLine(d, sep);
    TokenIsOneLine(d.scope);
    assert line[|line| - 1] == body[|body| - 1];
    assert line[|line| - 1..] == [line[|line| - 1]];
    assert IsWhitespace('\r') by { ReturnIsWhitespace(); }
  }

  lemma EnclosedLineIsOneLine(d: Suppression, prefix: string, sep: string, blank: string, code: string)
    requires Writable(d) && AllSeparators(sep, IsSeparator)
    requires '\n' !in prefix && '\n' !in d.reason && '\n' !in blank && '\n' !in code && !EndsWith(code, "\r")
    ensures var line := prefix + TokenFor(d.scope) + (Body(d, sep) + blank + "*/" + code);
      '\n' !in line && !EndsWith(line, "\r")
  {
    hide TokenFor, Body;
    BodyIsOneLine(d, sep);
    TokenIsOneLine(d.scope);
    var line := prefix + TokenFor(d.scope) + (Body(d, sep) + blank + "*/" + code);
    assert line[|line| - 1] == if code == "" then '/' else code[|code| - 1];
    assert line[|line| - 1..] == [line[|line| - 1]];
    assert code != "" ==> code[|code| - 1..] == [code[|code| - 1]];
  }

  lemma ReturnIsWhitespace()
    ensures IsWhitespace('\r')
  {
  }

  lemma TokenIsOneLine(scope: Scope)
    ensures '\n' !in TokenFor(scope)
  {
  }

  lemma BodyIsOneLine(d: Suppression, sep: string)
    requires Writable(d) && AllSeparators(sep, IsSeparator) && '\n' !in d.reason
    ensures '\n' !in Body(d, sep)
  {
    hide ShownIds, ShowDate;
    ShownIdsAvoid(d, sep, '\n');
    if d.expires.Some? {
      DateShape(d.expires.value);
    }
  }

  /** A file is read as exactly the directives its lines carry, in order, each on its own line, and nothing
    * malformed. */
  lemma FileRoundTrip(lines: seq<SourceLine>, eol: string)
    requires IsLineEnd(eol) && forall i | 0 <= i < |lines| :: lines[i].Safe()
    ensures Collected(Lines(Terminated(LineTexts(lines), eol)), 0) == Suppressions.Found(Carried(lines, 0), [])
  {
    hide Lines, Collected, OpensComment, OpensBlock, TokenFor, Body;
    var texts := LineTexts(lines);
    forall i | 0 <= i < |lines|
      ensures '\n' !in texts[i] && !EndsWith(texts[i], "\r")
    {
      match lines[i]
      case Ordinary(_) =>
      case Carrying(prefix, d, sep) => WrittenLineIsOneLine(d, prefix, sep);
      case Enclosing(prefix, d, sep, blank, code) => EnclosedLineIsOneLine(d, prefix, sep, blank, code);
    }
    LinesOfText(texts, eol, "");
    assert Terminated(texts, eol) + "" == Terminated(texts, eol) && texts + [] == texts;
    CarriedAreCollected(lines, 0);
  }
}
