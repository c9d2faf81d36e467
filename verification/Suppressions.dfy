/** Finding suppression directives in a file's text and reading them. */
module Suppressions {
  import opened Wrappers
  import opened Words
  import opened RuleIds
  import opened Reports
  import opened Calendar
  import opened Text

  const NEXT_LINE: string := "lanekeep" + "-ignore-next-line"
  const WHOLE_FILE: string := "lanekeep" + "-ignore-file"

  function TokenFor(scope: Scope): string {
    match scope
    case NextLine => NEXT_LINE
    case File => WHOLE_FILE
  }

  datatype Problem =
    | NoReason(scope: Scope)
    | NotARuleId(token: string)
    | NoRules
    | UnreadableExpiry(text: string)
    | EmptyReason(scope: Scope)

  datatype Malformed = Malformed(line: u32, column: u32, problem: Problem)

  datatype Found = Found(valid: seq<Suppression>, malformed: seq<Malformed>)

  // ----- The standalone token -----

  predicate IsWordChar(c: char) {
    IsLower(c) || IsUpper(c) || IsDigit(c) || c == '_'
  }

  /** The token stands at `at` with no word character before it, and none and no hyphen after. */
  predicate StandsAt(text: string, token: string, at: int) {
    && OccursAt(text, token, at)
    && (at > 0 ==> !IsWordChar(text[at - 1]))
    && (at + |token| < |text| ==> !IsWordChar(text[at + |token|]) && text[at + |token|] != '-')
  }

  /** The least offset at or after `from` where the token stands alone. */
  function FirstStanding(text: string, token: string, from: nat): (r: Option<nat>)
    requires from <= |text|
    ensures r.Some? ==> from <= r.value && StandsAt(text, token, r.value)
    ensures r.Some? ==> forall k | from <= k < r.value :: !StandsAt(text, token, k)
    ensures r.None? ==> forall k | from <= k :: !StandsAt(text, token, k)
    decreases |text| - from
  {
    if StandsAt(text, token, from) then Some(from)
    else if from == |text| then None
    else FirstStanding(text, token, from + 1)
  }

  /** However far `b` is slid into `a`, one of its first two characters differs from what lies under it. */
  ghost predicate NoOverlap(a: string, b: string) {
    forall k | 0 < k < |a| :: Clashes(a, b, k)
  }

  ghost predicate Clashes(a: string, b: string, k: int) {
    Differ(a, b, k, 0) || Differ(a, b, k, 1)
  }

  ghost predicate Differ(a: string, b: string, k: int, j: int) {
    0 <= j < |b| && 0 <= k + j < |a| && a[k + j] != b[j]
  }

  lemma TokensDoNotOverlap(s: Scope, t: Scope)
    ensures NoOverlap(TokenFor(s), TokenFor(t))
  {
    var a, b := TokenFor(s), TokenFor(t);
    forall k | 0 < k < |a|
      ensures Clashes(a, b, k)
    {
      LastL(s, k);
      assert b[0] == 'l' && b[1] == 'a';
    }
  }

  /** The only `l` past the first letter is followed by another letter than `a`. */
  lemma LastL(s: Scope, k: nat)
    requires 0 < k < |TokenFor(s)|
    ensures TokenFor(s)[k] == 'l' ==> k + 1 < |TokenFor(s)| && TokenFor(s)[k + 1] != 'a'
  {
  }

  lemma NothingInside(text: string, a: string, b: string, at: nat, k: nat)
    requires OccursAt(text, a, at) && NoOverlap(a, b) && at < k < at + |a|
    ensures !OccursAt(text, b, k)
  {
    assert Clashes(a, b, k - at);
    var j := if Differ(a, b, k - at, 0) then 0 else 1;
    assert text[at..at + |a|][k - at + j] == text[k + j];
    if k + |b| <= |text| {
      assert text[k..k + |b|][j] == text[k + j];
    }
  }

  /** The scan: the next occurrence, and on from its end if it does not stand alone. */
  method Standalone(text: string, scope: Scope) returns (r: Option<nat>)
    ensures r == FirstStanding(text, TokenFor(scope), 0)
  {
    hide FirstStanding, StandsAt;
    var token := TokenFor(scope);
    var from := 0;
    while true
      invariant from <= |text|
      invariant FirstStanding(text, token, 0) == FirstStanding(text, token, from)
      decreases |text| - from
    {
      var offset := Find(text[from..], token);
      if offset.None? {
        NoneStands(text, token, from);
        return None;
      }
      var at := from + offset.value;
      SkipTo(text, token, from, at);
      if StandsAt(text, token, at) {
        StandsHere(text, token, at);
        return Some(at);
      }
      SkipToken(text, scope, at);
      from := at + |token|;
    }
  }

  lemma StandsHere(text: string, token: string, at: nat)
    requires at <= |text| && StandsAt(text, token, at)
    ensures FirstStanding(text, token, at) == Some(at)
  {
  }

  lemma OccursInSuffix(text: string, token: string, from: nat, k: int)
    requires from <= |text|
    ensures OccursAt(text[from..], token, k) <==> 0 <= k && OccursAt(text, token, from + k)
  {
    if 0 <= k && from + k + |token| <= |text| {
      assert text[from..][k..k + |token|] == text[from + k..from + k + |token|];
    }
  }

  lemma NoneStands(text: string, token: string, from: nat)
    requires from <= |text| && Find(text[from..], token).None?
    ensures FirstStanding(text, token, from).None?
  {
    forall k | from <= k
      ensures !StandsAt(text, token, k)
    {
      OccursInSuffix(text, token, from, k - from);
    }
  }

  lemma {:induction false} SkipTo(text: string, token: string, from: nat, at: nat)
    requires from <= at <= |text| && Find(text[from..], token) == Some(at - from)
    ensures OccursAt(text, token, at)
    ensures FirstStanding(text, token, from) == FirstStanding(text, token, at)
  {
    OccursInSuffix(text, token, from, at - from);
    forall k | from <= k < at
      ensures !OccursAt(text, token, k)
    {
      OccursInSuffix(text, token, from, k - from);
    }
    SkipQuiet(text, token, from, at);
  }

  lemma {:induction false} SkipQuiet(text: string, token: string, from: nat, upTo: nat)
    requires from <= upTo <= |text|
    requires forall k | from <= k < upTo :: !StandsAt(text, token, k)
    ensures FirstStanding(text, token, from) == FirstStanding(text, token, upTo)
    decreases upTo - from
  {
    if from < upTo {
      SkipQuiet(text, token, from + 1, upTo);
    }
  }

  /** Going on behind a rejected occurrence loses nothing: none begins inside it. */
  lemma SkipToken(text: string, scope: Scope, at: nat)
    requires OccursAt(text, TokenFor(scope), at) && !StandsAt(text, TokenFor(scope), at)
    ensures FirstStanding(text, TokenFor(scope), at) == FirstStanding(text, TokenFor(scope), at + |TokenFor(scope)|)
  {
    var token := TokenFor(scope);
    TokensDoNotOverlap(scope, scope);
    forall k | at <= k < at + |token|
      ensures !StandsAt(text, token, k)
    {
      if k > at {
        NothingInside(text, token, token, at, k);
      }
    }
    SkipQuiet(text, token, at, at + |token|);
  }

  /** `find_directive`: whichever token stands alone first. */
  function FindDirective(text: string): Option<(Scope, nat)> {
    match (FirstStanding(text, TokenFor(NextLine), 0), FirstStanding(text, TokenFor(Scope.File), 0))
    case (Some(a), Some(b)) => if a <= b then Some((NextLine, a)) else Some((Scope.File, b))
    case (Some(a), None) => Some((NextLine, a))
    case (None, Some(b)) => Some((Scope.File, b))
    case (None, None) => None
  }

  // ----- The directive's part of the line -----

  function SkipDecoration(s: string): string {
    if s != "" && (s[0] == '*' || s[0] == '!') then SkipDecoration(s[1..]) else s
  }

  /** The token opens its own block comment: only decoration and white space behind the last opener. */
  predicate OpensBlock(before: string) {
    match FindLast(before, "/*")
    case None => false
    case Some(open) => IsBlank(SkipDecoration(before[open + 2..]))
  }

  predicate EndsWith(s: string, suffix: string) {
    |suffix| <= |s| && s[|s| - |suffix|..] == suffix
  }

  /** `body_of`. */
  function BodyOf(text: string, at: nat, tokenLen: nat): string
    requires at + tokenLen <= |text|
  {
    var rest := text[at + tokenLen..];
    if OpensBlock(text[..at]) && Find(rest, "*/").Some? then rest[..Find(rest, "*/").value]
    else if EndsWith(TrimEnd(rest), "*/") then TrimEnd(rest)[..|TrimEnd(rest)| - 2]
    else rest
  }

  // ----- Numbers and dates -----

  function DigitsValue(s: string): Option<nat> {
    if s == "" then Some(0)
    else
      var last := s[|s| - 1];
      match DigitsValue(s[..|s| - 1])
      case None => None
      case Some(n) => if IsDigit(last) then Some(10 * n + (last as int - '0' as int)) else None
  }

  /** Rust's unsigned `parse`: digits, with one leading `+` allowed in front of them. */
  function ParseUnsigned(s: string): Option<nat> {
    if s == "" || s == "+" then None
    else if s[0] == '+' then DigitsValue(s[1..])
    else DigitsValue(s)
  }

  /** `Date::parse`. */
  function ParseDate(text: string): (r: Option<Date>)
    ensures r.Some? ==> InRange(Wide(r.value)) && r.value.year <= 9999
  {
    if |text| != 10 || text[4] != '-' || text[7] != '-' then None
    else
      DigitsBound(text[0..4]);
      DigitsBound(text[5..7]);
      DigitsBound(text[8..10]);
      match (ParseUnsigned(text[0..4]), ParseUnsigned(text[5..7]), ParseUnsigned(text[8..10]))
      case (Some(year), Some(month), Some(day)) =>
        if 1 <= month <= 12 && 1 <= day <= 31 then Some(Date(year, month, day)) else None
      case _ => None
  }

  function Pow10(n: nat): nat {
    if n == 0 then 1 else 10 * Pow10(n - 1)
  }

  lemma {:induction false} DigitsBelow(s: string)
    requires DigitsValue(s).Some?
    ensures DigitsValue(s).value < Pow10(|s|)
  {
    if s != "" {
      DigitsBelow(s[..|s| - 1]);
    }
  }

  lemma DigitsBound(s: string)
    requires s != ""
    ensures |s| <= 4 && ParseUnsigned(s).Some? ==> ParseUnsigned(s).value <= 9999
    ensures |s| <= 2 && ParseUnsigned(s).Some? ==> ParseUnsigned(s).value <= 99
  {
    assert Pow10(1) == 10 && Pow10(2) == 100 && Pow10(3) == 1000 && Pow10(4) == 10000;
    if DigitsValue(s).Some? {
      DigitsBelow(s);
    }
    if DigitsValue(s[1..]).Some? {
      DigitsBelow(s[1..]);
    }
  }

  /** `{:0width$}` for a number that fits. */
  function Digits(n: nat, width: nat): (s: string)
    ensures |s| == width
    ensures forall i | 0 <= i < width :: IsDigit(s[i])
  {
    if width == 0 then ""
    else Digits(n / 10, width - 1) + [('0' as int + n % 10) as char]
  }

  /** `Display for Date`. */
  function ShowDate(d: Date): string {
    Digits(d.year, if d.year < 10000 then 4 else 5) + "-" + Digits(d.month, if d.month < 100 then 2 else 3)
    + "-" + Digits(d.day, if d.day < 100 then 2 else 3)
  }

  lemma {:induction false} DigitsRoundTrip(n: nat, width: nat)
    requires n < Pow10(width)
    ensures DigitsValue(Digits(n, width)) == Some(n)
  {
    if width > 0 {
      DigitsRoundTrip(n / 10, width - 1);
      assert Digits(n, width)[..width - 1] == Digits(n / 10, width - 1);
    }
  }

  /** The number in decimal, with zeros in front up to a width and no further. */
  ghost predicate IsPadded(s: string, n: nat, width: nat) {
    && DigitsValue(s) == Some(n) && |s| >= width
    && (|s| > width ==> s[0] != '0')
  }

  /** Every date is displayed as its year in four digits or more, its month and its day in two or more. */
  lemma DateDisplayed(d: Date) returns (year: string, month: string, day: string)
    ensures IsPadded(year, d.year, 4) && IsPadded(month, d.month, 2) && IsPadded(day, d.day, 2)
    ensures ShowDate(d) == year + "-" + month + "-" + day
  {
    hide Digits, DigitsValue;
    TensAre();
    year := Digits(d.year, if d.year < 10000 then 4 else 5);
    month := Digits(d.month, if d.month < 100 then 2 else 3);
    day := Digits(d.day, if d.day < 100 then 2 else 3);
    DigitsRoundTrip(d.year, |year|);
    DigitsRoundTrip(d.month, |month|);
    DigitsRoundTrip(d.day, |day|);
    if d.year >= 10000 {
      LeadingDigit(d.year, 5);
    }
    if d.month >= 100 {
      LeadingDigit(d.month, 3);
    }
    if d.day >= 100 {
      LeadingDigit(d.day, 3);
    }
  }

  lemma TensAre()
    ensures Pow10(2) == 100 && Pow10(3) == 1000 && Pow10(4) == 10000 && Pow10(5) == 100000
  {
    assert Pow10(2) == 10 * Pow10(1);
    assert Pow10(3) == 10 * Pow10(2);
    assert Pow10(4) == 10 * Pow10(3);
    assert Pow10(5) == 10 * Pow10(4);
  }

  lemma {:induction false} LeadingDigit(n: nat, width: nat)
    requires width > 0 && Pow10(width - 1) <= n < Pow10(width)
    ensures Digits(n, width)[0] != '0'
  {
    if width > 1 {
      assert Pow10(width - 1) == 10 * Pow10(width - 2);
      LeadingDigit(n / 10, width - 1);
      assert Digits(n, width)[0] == Digits(n / 10, width - 1)[0];
    } else {
      assert Digits(n, 1) == Digits(n / 10, 0) + [('0' as int + n % 10) as char];
    }
  }

  lemma UnsignedRoundTrip(n: nat, width: nat)
    requires 0 < width && n < Pow10(width)
    ensures ParseUnsigned(Digits(n, width)) == Some(n)
  {
    DigitsRoundTrip(n, width);
    assert IsDigit(Digits(n, width)[0]);
  }

  /** Decimal digits, with a `+` in front of them or not. */
  ghost predicate IsNumeral(s: string, digits: string, n: nat) {
    && (s == digits || s == "+" + digits)
    && digits != "" && n < Pow10(|digits|) && digits == Digits(n, |digits|)
    && forall i | 0 <= i < |digits| :: '0' <= digits[i] <= '9'
  }

  lemma {:induction false} ValueOfDigits(s: string, n: nat)
    ensures DigitsValue(s) == Some(n) <==> n < Pow10(|s|) && s == Digits(n, |s|)
  {
    if n < Pow10(|s|) {
      DigitsRoundTrip(n, |s|);
    }
    if s != "" && DigitsValue(s) == Some(n) {
      var front := s[..|s| - 1];
      DigitsBelow(s);
      var m := DigitsValue(front).value;
      ValueOfDigits(front, m);
      assert n / 10 == m && n % 10 == s[|s| - 1] as int - '0' as int;
      assert Digits(n, |s|) == Digits(m, |front|) + [s[|s| - 1]];
      assert s == front + [s[|s| - 1]];
    }
  }

  lemma UnsignedExactly(s: string, n: nat)
    ensures ParseUnsigned(s) == Some(n) <==> exists digits :: IsNumeral(s, digits, n)
  {
    hide DigitsValue, Digits;
    if digits :| IsNumeral(s, digits, n) {
      ValueOfDigits(digits, n);
      assert s != digits ==> s[1..] == digits;
    }
    if ParseUnsigned(s) == Some(n) {
      var digits := if s[0] == '+' then s[1..] else s;
      ValueOfDigits(digits, n);
      assert IsNumeral(s, digits, n);
    }
  }

  /** A date is ten characters: a year in four, a month in two and a day in two, hyphens between them, the month and the
    * day in range, though not checked against each other. */
  lemma DateExactly(text: string, d: Date)
    ensures ParseDate(text) == Some(d) <==>
      && |text| == 10 && text[4] == text[7] == '-'
      && (exists digits :: IsNumeral(text[0..4], digits, d.year))
      && (exists digits :: IsNumeral(text[5..7], digits, d.month))
      && (exists digits :: IsNumeral(text[8..10], digits, d.day))
      && 1 <= d.month <= 12 && 1 <= d.day <= 31
  {
    hide IsNumeral, ParseUnsigned;
    if |text| == 10 {
      UnsignedExactly(text[0..4], d.year);
      UnsignedExactly(text[5..7], d.month);
      UnsignedExactly(text[8..10], d.day);
    }
  }

  /** A date is read back from what it is shown as exactly when its year has four digits. */
  lemma DateRoundTrip(d: Date)
    ensures ParseDate(ShowDate(d)) == Some(d) <==> InRange(Wide(d)) && d.year <= 9999
  {
    if InRange(Wide(d)) && d.year <= 9999 {
      var s := ShowDate(d);
      assert Pow10(2) == 100 && Pow10(4) == 10000;
      UnsignedRoundTrip(d.year, 4);
      UnsignedRoundTrip(d.month, 2);
      UnsignedRoundTrip(d.day, 2);
      assert s[0..4] == Digits(d.year, 4) && s[5..7] == Digits(d.month, 2) && s[8..10] == Digits(d.day, 2);
      assert s[4] == '-' && s[7] == '-';
    }
  }
}
