/** What a directive that is read looks like, and what is wrong with one that is not. */
module Readings {
  import opened Wrappers
  import opened Words
  import opened RuleIds
  import opened Reports
  import opened Calendar
  import opened Text
  import opened Suppressions
  import opened Directives
  import Utf8

  // ----- Directives that are read -----

  lemma {:induction false} IdsAreValid(tokens: seq<string>)
    requires IdsOf(tokens).Ok?
    ensures |IdsOf(tokens).value| == |tokens|
    ensures forall i | 0 <= i < |tokens| ::
              RuleIds.Valid(IdsOf(tokens).value[i]) && Show(IdsOf(tokens).value[i]) == tokens[i]
  {
    hide RuleIds.Valid, Parse, Show;
    if tokens != [] {
      IdsAreValid(tokens[1..]);
      ParseExact(tokens[0], Parse(tokens[0]).value);
    }
  }

  /** What every directive that is read has: rules with valid ids, a reason, and an expiry a calendar could have. */
  ghost predicate IsComplete(d: Suppression) {
    && d.rules != [] && (forall i | 0 <= i < |d.rules| :: RuleIds.Valid(d.rules[i]))
    && d.reason != "" && IsTrimmed(d.reason)
    && (d.expires.Some? ==>
          var date := d.expires.value;
          1 <= date.month <= 12 && 1 <= date.day <= 31 && date.year <= 9999)
  }

  lemma ReadIsComplete(scope: Scope, rest: string, line: u32, column: u32)
    requires ParseBody(scope, rest, line, column).Ok?
    ensures var d := ParseBody(scope, rest, line, column).value;
      IsComplete(d) && d.scope == scope && d.line == line && d.column == column
  {
    hide RuleIds.Valid, Trim, IsTrimmed, Find, FindLast, IdsOf;
    var at := Find(rest, REASON).value;
    IdsAreValid(SplitBy(rest[..at], IsSeparator));
    var tail := rest[at + |REASON|..];
    var keyword := FindLast(tail, EXPIRES);
    var reason := if keyword.Some? then tail[..keyword.value] else tail;
    TrimExactly(reason, Trim(reason));
  }

  lemma {:induction false} CollectedAreComplete(lines: seq<string>, index: nat, d: Suppression)
    requires d in Collected(lines, index).valid
    ensures IsComplete(d)
  {
    hide IsComplete, ParseBody, TokenFor, BodyOf;
    if lines != [] && d !in Collected(lines[1..], index + 1).valid {
      var (scope, at) := FindDirective(lines[0]).value;
      ReadIsComplete(scope, BodyOf(lines[0], at, |TokenFor(scope)|), Narrowed(index + 1), Column(lines[0], at));
    } else if lines != [] {
      CollectedAreComplete(lines[1..], index + 1, d);
    }
  }

  /** Whatever the text, the directives read from it are complete. */
  lemma ValidAreComplete(source: string, d: Suppression)
    requires d in Collected(Lines(source), 0).valid
    ensures IsComplete(d)
  {
    CollectedAreComplete(Lines(source), 0, d);
  }

  // ----- What each line contributes -----

  function OnLine(valid: seq<Suppression>, line: u32): seq<Suppression> {
    if valid == [] then []
    else if valid[0].line == line then [valid[0]] + OnLine(valid[1..], line)
    else OnLine(valid[1..], line)
  }

  function MalformedOnLine(malformed: seq<Malformed>, line: u32): seq<Malformed> {
    if malformed == [] then []
    else if malformed[0].line == line then [malformed[0]] + MalformedOnLine(malformed[1..], line)
    else MalformedOnLine(malformed[1..], line)
  }

  lemma LineIsKept(text: string, line: u32)
    ensures match ParseLine(text, line)
      case None => FindDirective(text).None?
      case Some(Ok(d)) => FindDirective(text).Some? && d.line == line
      case Some(Err(m)) => FindDirective(text).Some? && m.line == line
  {
    hide ParseBody, BodyOf, TokenFor;
    if FindDirective(text).Some? {
      var (scope, at) := FindDirective(text).value;
      var body := BodyOf(text, at, |TokenFor(scope)|);
      if ParseBody(scope, body, line, Column(text, at)).Ok? {
        ReadIsComplete(scope, body, line, Column(text, at));
      }
    }
  }

  lemma {:induction false} LaterLines(lines: seq<string>, index: nat, line: u32)
    requires 1 <= line <= index && line < U32_MAX
    ensures OnLine(Collected(lines, index).valid, line) == []
    ensures MalformedOnLine(Collected(lines, index).malformed, line) == []
  {
    hide ParseLine;
    if lines != [] {
      LaterLines(lines[1..], index + 1, line);
      LineIsKept(lines[0], Narrowed(index + 1));
      var rest := Collected(lines[1..], index + 1);
      match ParseLine(lines[0], Narrowed(index + 1))
      case None =>
      case Some(Ok(d)) => assert ([d] + rest.valid)[1..] == rest.valid;
      case Some(Err(m)) => assert ([m] + rest.malformed)[1..] == rest.malformed;
    }
  }

  lemma {:induction false} ContributionAt(lines: seq<string>, index: nat, k: nat)
    requires k < |lines| && index + k + 1 < U32_MAX
    ensures var found, line := Collected(lines, index), index + k + 1;
      match ParseLine(lines[k], line)
      case None => OnLine(found.valid, line) == [] && MalformedOnLine(found.malformed, line) == []
      case Some(Ok(d)) => OnLine(found.valid, line) == [d] && MalformedOnLine(found.malformed, line) == []
      case Some(Err(m)) => OnLine(found.valid, line) == [] && MalformedOnLine(found.malformed, line) == [m]
  {
    hide ParseLine;
    var rest := Collected(lines[1..], index + 1);
    LineIsKept(lines[0], Narrowed(index + 1));
    if k == 0 {
      LaterLines(lines[1..], index + 1, index + 1);
    } else {
      ContributionAt(lines[1..], index + 1, k - 1);
    }
    match ParseLine(lines[0], Narrowed(index + 1))
    case None =>
    case Some(Ok(d)) => assert ([d] + rest.valid)[1..] == rest.valid;
    case Some(Err(m)) => assert ([m] + rest.malformed)[1..] == rest.malformed;
  }

  /** Each line in which a directive is found contributes one directive that is valid or one that is malformed, under
    * its own number, as long as that can be counted; and no other line contributes any. */
  lemma EachLineContributesOnce(source: string, k: nat)
    requires k < |Lines(source)| && k + 1 < U32_MAX
    ensures var found := Collected(Lines(source), 0);
      |OnLine(found.valid, k + 1)| + |MalformedOnLine(found.malformed, k + 1)|
      == if FindDirective(Lines(source)[k]).Some? then 1 else 0
  {
    hide Lines, Collected, ParseLine, FindDirective;
    ContributionAt(Lines(source), 0, k);
    LineIsKept(Lines(source)[k], k + 1);
  }

  function DirectiveLines(lines: seq<string>): nat {
    if lines == [] then 0
    else (if FindDirective(lines[0]).Some? then 1 else 0) + DirectiveLines(lines[1..])
  }

  /** Of any number of lines, as many directives are read or reported as there are lines in which one is found. */
  lemma {:induction false} NothingIsDropped(lines: seq<string>, index: nat)
    ensures |Collected(lines, index).valid| + |Collected(lines, index).malformed| == DirectiveLines(lines)
  {
    hide ParseLine, FindDirective;
    if lines != [] {
      NothingIsDropped(lines[1..], index + 1);
      LineIsKept(lines[0], Narrowed(index + 1));
    }
  }

  // ----- What is wrong with a directive -----

  predicate Separates(c: char) {
    c in {',', ' ', '\t'}
  }

  lemma SeparatorsAre()
    ensures forall c :: IsSeparator(c) <==> Separates(c)
  {
  }

  /** Ids stand between commas, spaces and tabs, and no other characters. */
  lemma SeparatorsExactly(a: RuleId, b: RuleId, c: char)
    requires RuleIds.Valid(a) && RuleIds.Valid(b)
    ensures RulesIn(Show(a) + [c] + Show(b)) == Ok([a, b]) <==> c in {',', ' ', '\t'}
  {
    hide RuleIds.Valid, Parse, Show, SplitBy;
    ShownIsPiece(a);
    ShownIsPiece(b);
    var text := Show(a) + [c] + Show(b);
    if IsSeparator(c) {
      assert text == Show(a) + ([c] + Show(b));
      FirstPiece(Show(a), [c] + Show(b), IsSeparator);
      SkipSeparators([c], Show(b), IsSeparator);
      assert Show(b) == Show(b) + "";
      FirstPiece(Show(b), "", IsSeparator);
      NoPieces();
      TwoIds(a, b);
    } else {
      assert IsPiece(text, IsSeparator);
      assert text == text + "";
      FirstPiece(text, "", IsSeparator);
      NoPieces();
      OneId(text);
    }
  }

  lemma NoPieces()
    ensures SplitBy("", IsSeparator) == []
  {
  }

  lemma TwoIds(a: RuleId, b: RuleId)
    requires RuleIds.Valid(a) && RuleIds.Valid(b)
    ensures IdsOf([Show(a)] + ([Show(b)] + [])) == Ok([a, b])
  {
    assert Shown([a, b]) == [Show(a)] + ([Show(b)] + []);
    IdsOfShown([a, b]);
  }

  lemma OneId(token: string)
    ensures IdsOf([token] + []).Ok? ==> |IdsOf([token] + []).value| == 1
  {
    hide Parse;
    assert ([token] + [])[1..] == [];
  }

  /** The first token that is no id is the one named. */
  lemma {:induction false} FirstBadToken(tokens: seq<string>, k: nat)
    requires k < |tokens| && Parse(tokens[k]).Err? && forall i | 0 <= i < k :: Parse(tokens[i]).Ok?
    ensures IdsOf(tokens) == Err(NotARuleId(tokens[k]))
  {
    hide Parse;
    if k > 0 {
      FirstBadToken(tokens[1..], k - 1);
    }
  }

  /** The text between a directive's token and `reason:`: some tokens, with separators around and between them. */
  ghost predicate IsIdText(ids: string, before: string, tokens: seq<string>, sep: string, after: string) {
    && (forall c | c in before + sep + after :: Separates(c)) && sep != ""
    && (forall i | 0 <= i < |tokens| :: tokens[i] != "" && forall c | c in tokens[i] :: !Separates(c))
    && ids == before + Join(tokens, sep) + after
  }

  lemma TokensOf(ids: string, before: string, tokens: seq<string>, sep: string, after: string)
    requires IsIdText(ids, before, tokens, sep, after)
    ensures SplitBy(ids, IsSeparator) == tokens
  {
    hide IsSeparator, SplitBy;
    SeparatorsAre();
    assert forall i | 0 <= i < |before| :: before[i] in before + sep + after;
    assert forall i | 0 <= i < |sep| :: sep[i] in before + sep + after;
    assert forall i | 0 <= i < |after| :: after[i] in before + sep + after;
    forall i | 0 <= i < |tokens|
      ensures IsPiece(tokens[i], IsSeparator)
    {
      assert forall k | 0 <= k < |tokens[i]| :: tokens[i][k] in tokens[i];
    }
    SplitJoined(tokens, sep, after, IsSeparator);
    SkipSeparators(before, Join(tokens, sep) + after, IsSeparator);
    assert ids == before + (Join(tokens, sep) + after);
  }

  /** What stands behind a token, up to the first `reason:` and from there. */
  ghost predicate Parts(rest: string, ids: string, tail: string) {
    rest == ids + "reason:" + tail && forall k | 0 <= k < |ids| :: !OccursAt(rest, "reason:", k)
  }

  /** What stands behind `reason:`, up to the last `expires:` and from there. */
  ghost predicate Dated(tail: string, reason: string, date: string) {
    tail == reason + "expires:" + date && forall k | |reason| < k :: !OccursAt(tail, "expires:", k)
  }

  lemma PartsAreFound(rest: string, ids: string, tail: string)
    requires Parts(rest, ids, tail)
    ensures Find(rest, REASON) == Some(|ids|) && rest[..|ids|] == ids && rest[|ids| + 7..] == tail
  {
    assert rest[|ids|..|ids| + 7] == "reason:";
    assert OccursAt(rest, REASON, |ids|);
    FoundAt(rest, REASON, |ids|);
  }

  lemma DateIsFound(tail: string, reason: string, date: string)
    requires Dated(tail, reason, date)
    ensures FindLast(tail, EXPIRES) == Some(|reason|) && tail[..|reason|] == reason && tail[|reason| + 8..] == date
  {
    assert tail[|reason|..|reason| + 8] == "expires:";
    assert OccursAt(tail, EXPIRES, |reason|);
  }

  /** Without `reason:` there is no saying why. */
  lemma ReasonIsMissing(scope: Scope, rest: string, line: u32, column: u32)
    ensures ParseBody(scope, rest, line, column) == Err(NoReason(scope))
       <==> forall k :: !OccursAt(rest, "reason:", k)
  {
    hide FindLast, RulesIn, ParseDate, Trim;
    if Find(rest, REASON).Some? {
      RulesProblem(rest[..Find(rest, REASON).value]);
    }
  }

  lemma RulesProblem(text: string)
    ensures RulesIn(text).Err? ==> RulesIn(text).error.NotARuleId? || RulesIn(text).error.NoRules?
  {
    hide Parse, SplitBy;
    IdsProblem(SplitBy(text, IsSeparator));
  }

  lemma {:induction false} IdsProblem(tokens: seq<string>)
    ensures IdsOf(tokens).Err? ==> IdsOf(tokens).error.NotARuleId?
  {
    hide Parse;
    if tokens != [] {
      IdsProblem(tokens[1..]);
    }
  }

  /** With it, the rules are what stands in front, unless a token is none or there is none. */
  lemma RulesAreRead(
    scope: Scope, rest: string, ids: string, tail: string, line: u32, column: u32,
    before: string, tokens: seq<string>, sep: string, after: string)
    requires Parts(rest, ids, tail) && IsIdText(ids, before, tokens, sep, after)
    ensures tokens == [] ==> ParseBody(scope, rest, line, column) == Err(NoRules)
    ensures forall k | 0 <= k < |tokens| && Parse(tokens[k]).Err? && forall i | 0 <= i < k :: Parse(tokens[i]).Ok? ::
              ParseBody(scope, rest, line, column) == Err(NotARuleId(tokens[k]))
    ensures tokens != [] && (forall i | 0 <= i < |tokens| :: Parse(tokens[i]).Ok?) ==>
              RulesIn(ids).Ok? && Shown(RulesIn(ids).value) == tokens
              && ParseBody(scope, rest, line, column) == ParseTail(scope, RulesIn(ids).value, tail, line, column)
  {
    hide Find, Parse, SplitBy, ParseTail, IsIdText, Show;
    TokensOf(ids, before, tokens, sep, after);
    PartsAreFound(rest, ids, tail);
    forall k | 0 <= k < |tokens| && Parse(tokens[k]).Err? && forall i | 0 <= i < k :: Parse(tokens[i]).Ok?
      ensures IdsOf(tokens) == Err(NotARuleId(tokens[k]))
    {
      FirstBadToken(tokens, k);
    }
    if tokens != [] && forall i | 0 <= i < |tokens| :: Parse(tokens[i]).Ok? {
      AllAreIds(tokens);
      IdsAreValid(tokens);
    }
  }

  lemma {:induction false} AllAreIds(tokens: seq<string>)
    requires forall i | 0 <= i < |tokens| :: Parse(tokens[i]).Ok?
    ensures IdsOf(tokens).Ok?
  {
    hide Parse;
    if tokens != [] {
      AllAreIds(tokens[1..]);
    }
  }

  lemma TrimBlankExactly(s: string)
    ensures Trim(s) == "" <==> IsBlank(s)
  {
    hide IsWhitespace, Trim;
    TrimExactly(s, "");
    if Trim(s) == "" {
      var before, after :| IsPaddedBy(s, before, "", after);
      assert s == before + after;
    }
    if IsBlank(s) {
      assert IsPaddedBy(s, s, "", "");
    }
  }

  /** The reason is what stands in front of the last `expires:`, or all there is. */
  lemma TailIsRead(scope: Scope, rules: seq<RuleId>, tail: string, line: u32, column: u32)
    ensures (forall k :: !OccursAt(tail, "expires:", k)) ==>
      ParseTail(scope, rules, tail, line, column)
      == if IsBlank(tail) then Err(EmptyReason(scope))
         else Ok(Suppression(scope, rules, Trim(tail), None, line, column))
    ensures forall reason, date | Dated(tail, reason, date) ::
      ParseTail(scope, rules, tail, line, column)
      == match ParseDate(Trim(date))
         case None => Err(UnreadableExpiry(Trim(date)))
         case Some(expiry) =>
           if IsBlank(reason) then Err(EmptyReason(scope))
           else Ok(Suppression(scope, rules, Trim(reason), Some(expiry), line, column))
  {
    hide ParseDate, Trim, IsBlank;
    TrimBlankExactly(tail);
    forall reason, date | Dated(tail, reason, date)
      ensures FindLast(tail, EXPIRES) == Some(|reason|) && tail[..|reason|] == reason && tail[|reason| + 8..] == date
      ensures Trim(reason) == "" <==> IsBlank(reason)
    {
      DateIsFound(tail, reason, date);
      TrimBlankExactly(reason);
    }
  }

  // ----- On a line -----

  /** A line comment whose directive is `token` and `rest`. */
  ghost predicate IsLineComment(prefix: string, rest: string) {
    && OpensComment(prefix) && !OpensBlock(prefix)
    && EndsToken(rest) && !EndsWith(TrimEnd(rest), "*/")
  }

  lemma LineComment(prefix: string, scope: Scope, rest: string, line: u32)
    requires IsLineComment(prefix, rest)
    ensures var column := Narrowed(|Utf8.Encode(prefix)| + 1);
      ParseLine(prefix + TokenFor(scope) + rest, line)
      == match ParseBody(scope, rest, line, column)
         case Ok(d) => Some(Ok(d))
         case Err(problem) => Some(Err(Malformed(line, column, problem)))
  {
    hide TokenFor, ParseBody, FindDirective, OpensComment, OpensBlock, TrimEnd, EndsWith;
    DirectiveIsFound(prefix, scope, rest);
    RestOfLine(prefix, TokenFor(scope), rest);
  }

  /** A directive without `reason:` is malformed for that. */
  lemma NoReasonIsMalformed(prefix: string, scope: Scope, rest: string, line: u32)
    requires IsLineComment(prefix, rest) && forall k :: !OccursAt(rest, "reason:", k)
    ensures ParseLine(prefix + TokenFor(scope) + rest, line)
         == Some(Err(Malformed(line, Narrowed(|Utf8.Encode(prefix)| + 1), NoReason(scope))))
  {
    hide TokenFor, ParseBody, ParseLine, IsLineComment;
    var column := Narrowed(|Utf8.Encode(prefix)| + 1);
    LineComment(prefix, scope, rest, line);
    ReasonIsMissing(scope, rest, line, column);
  }

  /** One that names something that is no rule id is malformed for the first such name. */
  lemma BadIdIsMalformed(
    prefix: string, scope: Scope, rest: string, line: u32, ids: string, tail: string,
    before: string, tokens: seq<string>, sep: string, after: string, k: nat)
    requires IsLineComment(prefix, rest) && Parts(rest, ids, tail) && IsIdText(ids, before, tokens, sep, after)
    requires k < |tokens| && Parse(tokens[k]).Err? && forall i | 0 <= i < k :: Parse(tokens[i]).Ok?
    ensures ParseLine(prefix + TokenFor(scope) + rest, line)
         == Some(Err(Malformed(line, Narrowed(|Utf8.Encode(prefix)| + 1), NotARuleId(tokens[k]))))
  {
    hide TokenFor, ParseBody, ParseLine, IsLineComment, Parts, IsIdText, Parse;
    var column := Narrowed(|Utf8.Encode(prefix)| + 1);
    LineComment(prefix, scope, rest, line);
    RulesAreRead(scope, rest, ids, tail, line, column, before, tokens, sep, after);
  }

  /** One that names nothing is malformed for that. */
  lemma NoIdIsMalformed(prefix: string, scope: Scope, rest: string, line: u32, ids: string, tail: string)
    requires IsLineComment(prefix, rest) && Parts(rest, ids, tail) && forall c | c in ids :: c in {',', ' ', '\t'}
    ensures ParseLine(prefix + TokenFor(scope) + rest, line)
         == Some(Err(Malformed(line, Narrowed(|Utf8.Encode(prefix)| + 1), NoRules)))
  {
    hide TokenFor, ParseBody, ParseLine, IsLineComment, Parts;
    var column := Narrowed(|Utf8.Encode(prefix)| + 1);
    LineComment(prefix, scope, rest, line);
    assert ids == ids + Join([], " ") + "";
    assert forall c | c in ids + " " + "" :: c in ids || c == ' ';
    RulesAreRead(scope, rest, ids, tail, line, column, ids, [], " ", "");
  }

  /** What follows the ids and `reason:` of an otherwise good directive is blank, but for an expiry. */
  ghost predicate IsBlankReason(tail: string) {
    (IsBlank(tail) && forall k :: !OccursAt(tail, "expires:", k))
    || exists reason, date :: Dated(tail, reason, date) && IsBlank(reason) && ParseDate(Trim(date)).Some?
  }

  lemma BlankReasonIsMalformed(
    prefix: string, scope: Scope, rest: string, line: u32, ids: string, tail: string,
    before: string, tokens: seq<string>, sep: string, after: string)
    requires IsLineComment(prefix, rest) && Parts(rest, ids, tail) && IsIdText(ids, before, tokens, sep, after)
    requires tokens != [] && (forall i | 0 <= i < |tokens| :: Parse(tokens[i]).Ok?)
    ensures IsBlankReason(tail) <==>
      ParseLine(prefix + TokenFor(scope) + rest, line)
      == Some(Err(Malformed(line, Narrowed(|Utf8.Encode(prefix)| + 1), EmptyReason(scope))))
  {
    hide TokenFor, ParseBody, ParseLine, IsLineComment, Parts, IsIdText, Parse, ParseTail, IsBlank, ParseDate, Trim;
    var column := Narrowed(|Utf8.Encode(prefix)| + 1);
    LineComment(prefix, scope, rest, line);
    RulesAreRead(scope, rest, ids, tail, line, column, before, tokens, sep, after);
    TailIsRead(scope, RulesIn(ids).value, tail, line, column);
    LastExpiry(tail);
  }

  lemma LastExpiry(tail: string)
    ensures (exists k :: OccursAt(tail, "expires:", k)) ==> exists reason, date :: Dated(tail, reason, date)
  {
    if FindLast(tail, "expires:").Some? {
      var at := FindLast(tail, "expires:").value;
      assert tail == tail[..at] + "expires:" + tail[at + 8..];
      assert Dated(tail, tail[..at], tail[at + 8..]);
    }
  }

  /** An expiry that cannot be read is no expiry: the directive is malformed for it. */
  lemma UnreadableExpiryIsMalformed(
    prefix: string, scope: Scope, rest: string, line: u32, ids: string, tail: string,
    before: string, tokens: seq<string>, sep: string, after: string, reason: string, date: string)
    requires IsLineComment(prefix, rest) && Parts(rest, ids, tail) && IsIdText(ids, before, tokens, sep, after)
    requires tokens != [] && (forall i | 0 <= i < |tokens| :: Parse(tokens[i]).Ok?)
    requires Dated(tail, reason, date)
    ensures ParseDate(Trim(date)).None? <==>
      ParseLine(prefix + TokenFor(scope) + rest, line)
      == Some(Err(Malformed(line, Narrowed(|Utf8.Encode(prefix)| + 1), UnreadableExpiry(Trim(date)))))
  {
    hide TokenFor, ParseBody, ParseLine, IsLineComment, Parts, IsIdText, Parse, ParseTail, IsBlank, ParseDate, Trim,
      Dated;
    var column := Narrowed(|Utf8.Encode(prefix)| + 1);
    LineComment(prefix, scope, rest, line);
    RulesAreRead(scope, rest, ids, tail, line, column, before, tokens, sep, after);
    TailIsRead(scope, RulesIn(ids).value, tail, line, column);
  }

  /** And any other is valid, with the rules named, the reason trimmed and the expiry there is. */
  lemma GoodLineIsValid(
    prefix: string, scope: Scope, rest: string, line: u32, ids: string, tail: string,
    before: string, tokens: seq<string>, sep: string, after: string)
    requires IsLineComment(prefix, rest) && Parts(rest, ids, tail) && IsIdText(ids, before, tokens, sep, after)
    requires tokens != [] && (forall i | 0 <= i < |tokens| :: Parse(tokens[i]).Ok?)
    ensures (forall k :: !OccursAt(tail, "expires:", k)) && !IsBlank(tail) ==>
      exists rules | Shown(rules) == tokens ::
        ParseLine(prefix + TokenFor(scope) + rest, line)
        == Some(Ok(Suppression(scope, rules, Trim(tail), None, line, Narrowed(|Utf8.Encode(prefix)| + 1))))
    ensures forall reason, date | Dated(tail, reason, date) && !IsBlank(reason) && ParseDate(Trim(date)).Some? ::
      exists rules | Shown(rules) == tokens ::
        ParseLine(prefix + TokenFor(scope) + rest, line)
        == Some(Ok(Suppression(scope, rules, Trim(reason), ParseDate(Trim(date)), line,
                               Narrowed(|Utf8.Encode(prefix)| + 1))))
  {
    hide TokenFor, ParseBody, ParseLine, IsLineComment, Parts, IsIdText, Parse, ParseTail, IsBlank, ParseDate, Trim,
      Dated;
    var column := Narrowed(|Utf8.Encode(prefix)| + 1);
    LineComment(prefix, scope, rest, line);
    RulesAreRead(scope, rest, ids, tail, line, column, before, tokens, sep, after);
    TailIsRead(scope, RulesIn(ids).value, tail, line, column);
  }

  // ----- Tokens and comments, character by character -----

  lemma TokensAre()
    ensures TokenFor(NextLine) == "lanekeep" + "-ignore-next-line"
    ensures TokenFor(Scope.File) == "lanekeep" + "-ignore-file"
  {
  }

  /** A letter, a digit or an underscore on either side makes a token part of another word, and so does a hyphen behind
    * it. */
  lemma WordCharacters(scope: Scope, c: char)
    ensures FindDirective([c] + TokenFor(scope)) == Some((scope, 1))
       <==> !('a' <= c <= 'z' || 'A' <= c <= 'Z' || '0' <= c <= '9' || c == '_')
    ensures FindDirective(TokenFor(scope) + [c]) == Some((scope, 0))
       <==> !('a' <= c <= 'z' || 'A' <= c <= 'Z' || '0' <= c <= '9' || c == '_' || c == '-')
  {
    hide TokenFor, FindDirective;
    DirectiveIsFound([c], scope, "");
    DirectiveIsFound("", scope, [c]);
    assert [c] + TokenFor(scope) + "" == [c] + TokenFor(scope);
    assert "" + TokenFor(scope) + [c] == TokenFor(scope) + [c];
    NoTokenIn([c]);
    NoTokenIn("");
  }

  lemma NoTokenIn(prefix: string)
    requires |prefix| <= 1
    ensures forall s: Scope, k :: !StandsAt(prefix, TokenFor(s), k)
  {
  }

  ghost predicate IsOwnBlock(before: string, code: string, decoration: string, blank: string) {
    && before == code + "/*" + decoration + blank
    && (forall c | c in decoration :: c in {'*', '!'}) && IsBlank(blank)
  }

  /** A directive is in a block comment of its own when nothing stands between it and the opener but the opener's own
    * decoration and white space. */
  lemma OpensBlockExactly(before: string)
    ensures OpensBlock(before) <==> exists code, decoration, blank :: IsOwnBlock(before, code, decoration, blank)
  {
    hide IsBlank, SkipDecoration, FindLast;
    if OpensBlock(before) {
      var open := FindLast(before, "/*").value;
      var n := DecorationOf(before[open + 2..]);
      var rest := before[open + 2..];
      assert before == before[..open] + "/*" + rest[..n] + rest[n..];
      assert IsOwnBlock(before, before[..open], rest[..n], rest[n..]);
    }
    if code, decoration, blank :| IsOwnBlock(before, code, decoration, blank) {
      LastOpener(before, code, decoration, blank);
      Decorated(decoration, blank);
      assert before[|code| + 2..] == decoration + blank;
    }
  }

  lemma {:induction false} DecorationOf(s: string) returns (n: nat)
    ensures n <= |s| && SkipDecoration(s) == s[n..] && forall c | c in s[..n] :: c in {'*', '!'}
  {
    n := 0;
    if s != "" && (s[0] == '*' || s[0] == '!') {
      var m := DecorationOf(s[1..]);
      n := m + 1;
      assert s[1..][m..] == s[n..] && s[..n] == [s[0]] + s[1..][..m];
    }
  }

  lemma {:induction false} Decorated(decoration: string, blank: string)
    requires (forall c | c in decoration :: c in {'*', '!'}) && IsBlank(blank)
    ensures SkipDecoration(decoration + blank) == blank
  {
    if decoration == "" {
      assert "" + blank == blank;
      assert blank != "" ==> IsWhitespace(blank[0]);
    } else {
      assert decoration[0] in decoration;
      assert forall c | c in decoration[1..] :: c in decoration;
      assert (decoration + blank)[1..] == decoration[1..] + blank;
      Decorated(decoration[1..], blank);
    }
  }

  lemma LastOpener(before: string, code: string, decoration: string, blank: string)
    requires IsOwnBlock(before, code, decoration, blank)
    ensures FindLast(before, "/*") == Some(|code|)
  {
    assert before[|code|..|code| + 2] == "/*";
    assert OccursAt(before, "/*", |code|);
    forall k | |code| < k
      ensures !OccursAt(before, "/*", k)
    {
      if k + 2 <= |before| {
        assert before[k..k + 2][0] == before[k];
        if |code| + 2 <= k < |code| + 2 + |decoration| {
          assert before[k] == decoration[k - |code| - 2] && decoration[k - |code| - 2] in decoration;
        } else if |code| + 2 + |decoration| <= k {
          assert before[k] == blank[k - |code| - 2 - |decoration|];
        }
      }
    }
  }

  /** On the last line of a comment opened earlier a directive is read back too, its closer left out. */
  lemma ClosingLineRoundTrip(prefix: string, d: Suppression, sep: string, blank: string, end: string, line: u32)
    requires OpensComment(prefix) && !OpensBlock(prefix) && Writable(d)
    requires sep != "" && AllSeparators(sep, IsSeparator) && IsBlank(blank) && IsBlank(end)
    ensures ReadsBack(prefix + TokenFor(d.scope) + (Body(d, sep) + blank + "*/" + end), d, prefix, line)
       <==> d.expires.Some? || !Contains(d.reason, EXPIRES)
  {
    hide ReadsBack, TokenFor, ParseBody, ParseTail, OpensBlock, Body, Utf8.Encode, Contains, IsWhitespace;
    var body := Body(d, sep);
    var rest := body + blank + "*/" + end;
    var placed := PlacedAt(d, prefix, line);
    ShownIdsStart(d, sep);
    LineReading(prefix, d, rest, line);
    RestOfLine(prefix, TokenFor(d.scope), rest);
    ClosedEnd(body + blank, end);
    BodyBeforeCloser(d, placed, sep, blank);
  }

  lemma ClosedEnd(body: string, end: string)
    requires IsBlank(end)
    ensures var rest := body + "*/" + end;
      TrimEnd(rest) == body + "*/" && EndsWith(TrimEnd(rest), "*/") && TrimEnd(rest)[..|TrimEnd(rest)| - 2] == body
  {
    TrimEndBlank(body + "*/", end);
    assert (body + "*/")[|body + "*/"| - 1] == '/';
    assert (body + "*/")[|body|..] == "*/" && (body + "*/")[..|body|] == body;
  }

  // ----- Two lines -----

  lemma LocalX()
    ensures RuleIds.Valid(RuleId("local", "x")) && Shown([RuleId("local", "x")]) == ["local/x"]
  {
    assert Show(RuleId("local", "x")) == "local" + "/" + "x" == "local/x";
  }

  lemma SlashSlash()
    ensures OpensComment("// ") && !OpensBlock("// ")
    ensures |Utf8.Encode("// ")| == 3
  {
    assert "// "[0..2][1] == '/' && "// "[1..3][1] == ' ' && "/*"[1] == '*';
    assert FindLast("// ", "/*").None?;
    RuleIds.AsciiBytes("// ");
  }

  lemma NothingMarked()
    ensures !Contains("old", EXPIRES) && !EndsWith("old", "*/") && IsTrimmed("old")
  {
  }

  lemma SecondOfJanuary()
    ensures ShowDate(Date(2030, 1, 2)) == "2030-01-02"
  {
    assert Digits(2030, 4) == "2030" by { DigitsOfYear(); }
    assert Digits(1, 2) == "01" && Digits(2, 2) == "02" by {
      assert Digits(1, 2) == Digits(0, 1) + "1" && Digits(2, 2) == Digits(0, 1) + "2";
      assert Digits(0, 1) == Digits(0, 0) + "0";
    }
    hide Digits;
    assert "2030" + "-" + "01" == "2030-01" && "2030-01" + "-" + "02" == "2030-01-02";
  }

  lemma DigitsOfYear()
    ensures Digits(2030, 4) == "2030"
  {
    assert Digits(2030, 4) == Digits(203, 3) + "0" && Digits(203, 3) == Digits(20, 2) + "3";
    assert Digits(20, 2) == Digits(2, 1) + "0" && Digits(2, 1) == Digits(0, 0) + "2";
  }

  lemma BodyOne(d: Suppression)
    requires d.rules == [RuleId("local", "x")] && d.reason == "old" && d.expires.None?
    ensures Body(d, " ") == " local/x reason: old"
  {
    hide Show, Shown;
    LocalX();
    assert ShownIds(d, " ") == " " + "local/x" + " " == " local/x ";
    assert ShownTail(d) == " " + "old" + "" == " old";
    assert " local/x " + "reason:" == " local/x reason:";
  }

  lemma BodyOther(d: Suppression)
    requires d.rules == [RuleId("local", "x")] && d.reason == "old" && d.expires == Some(Date(2030, 1, 2))
    ensures var tail := " " + "old" + (" " + "expires:" + " " + "2030-01-02");
      Body(d, " ") == (" " + "local/x" + " ") + "reason:" + tail
  {
    hide Show, Shown, ShowDate;
    LocalX();
    SecondOfJanuary();
  }

  lemma TokenOne()
    ensures "// " + NEXT_LINE == "// lanekeep-ignore-next-line"
  {
    assert NEXT_LINE == "lanekeep-ignore-next-line";
  }

  lemma LineOne()
    ensures "// " + NEXT_LINE + " local/x reason: old" == "// lanekeep-ignore-next-line local/x reason: old"
  {
    TokenOne();
  }

  /** The syntax, written out once for each scope. */
  lemma WrittenOut(line: u32)
    ensures ParseLine("// lanekeep-ignore-next-line local/x reason: old", line)
         == Some(Ok(Suppression(NextLine, [RuleId("local", "x")], "old", None, line, 4)))
    ensures var tail := " " + "old" + (" " + "expires:" + " " + "2030-01-02");
      ParseLine("// " + "lanekeep-ignore-file" + ((" " + "local/x" + " ") + "reason:" + tail), line)
         == Some(Ok(Suppression(Scope.File, [RuleId("local", "x")], "old", Some(Date(2030, 1, 2)), line, 4)))
  {
    hide ParseLine, OpensComment, OpensBlock, RuleIds.Valid, Body, Utf8.Encode;
    LocalX();
    SlashSlash();
    NothingMarked();
    var one := Suppression(NextLine, [RuleId("local", "x")], "old", None, line, 4);
    var other := Suppression(Scope.File, [RuleId("local", "x")], "old", Some(Date(2030, 1, 2)), line, 4);
    BodyOne(one);
    BodyOther(other);
    LineOne();
    assert WHOLE_FILE == "lanekeep-ignore-file";
    LineCommentRoundTrip("// ", one, " ", line);
    LineCommentRoundTrip("// ", other, " ", line);
    assert ReadsBack("// " + TokenFor(NextLine) + Body(one, " "), one, "// ", line);
    assert ReadsBack("// " + TokenFor(Scope.File) + Body(other, " "), other, "// ", line);
  }
}
