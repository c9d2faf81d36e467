/**
  The `*`-wildcard matcher of the Go and Python rule libraries.

  `Matches` is the anchored regular expression both ports replace: every character but `*` is
  a literal, and `*` is `.*` with a `.` that never crosses a line terminator. The greedy
  leftmost scan is proved to decide the same relation. It is run here as the Python port runs
  it, on code points; `GoGlob` has the Go port, on bytes.
*/
module Glob {
  import opened Wrappers
  import opened Text

  /** The four characters of ECMA-262 (2024), section 12.3. */
  predicate IsLineTerminator(c: char) {
    c == '\n' || c == '\r' || c == '\U{2028}' || c == '\U{2029}'
  }

  predicate Clean(s: string) {
    forall i | 0 <= i < |s| :: !IsLineTerminator(s[i])
  }

  predicate StarFree(s: string) {
    forall i | 0 <= i < |s| :: s[i] != '*'
  }

  // ----- The relation -----

  /**
    The anchored regular expression, read off the pattern one character at a time. A star stops
    here, or takes one more character that is not a line terminator.
  */
  predicate Matches(pattern: string, value: string)
    decreases |pattern| + |value|
  {
    if pattern == "" then value == ""
    else if pattern[0] == '*' then
      || Matches(pattern[1..], value)
      || (value != "" && !IsLineTerminator(value[0]) && Matches(pattern, value[1..]))
    else value != "" && value[0] == pattern[0] && Matches(pattern[1..], value[1..])
  }

  /** A star in front of `pattern` takes the first `k` characters, none of them a terminator. */
  ghost predicate StarAt(pattern: string, value: string, k: int) {
    0 <= k <= |value| && Clean(value[..k]) && Matches(pattern, value[k..])
  }

  /** `lits[0] gaps[0] lits[1] gaps[1] ... lits[n]`. */
  ghost function Weave(lits: seq<string>, gaps: seq<string>): string
    requires |lits| == |gaps| + 1
    decreases |gaps|
  {
    if gaps == [] then lits[0] else lits[0] + gaps[0] + Weave(lits[1..], gaps[1..])
  }

  ghost predicate Fills(lits: seq<string>, gaps: seq<string>, value: string) {
    && |lits| == |gaps| + 1
    && (forall i | 0 <= i < |gaps| :: Clean(gaps[i]))
    && value == Weave(lits, gaps)
  }

  // ----- The string library -----

  /** The last index of a character, as `strings.LastIndex` and `str.rsplit` find it. */
  function LastIndexOf<T(==)>(s: seq<T>, c: T): (r: Option<nat>)
    ensures r.Some? ==> r.value < |s| && s[r.value] == c && forall k | r.value < k < |s| :: s[k] != c
    ensures r.None? ==> c !in s
  {
    if s == [] then None
    else if s[|s| - 1] == c then Some(|s| - 1)
    else LastIndexOf(s[..|s| - 1], c)
  }

  /** `Split(s, "*")`: the pieces between the stars, always at least one. */
  function SplitStar(s: string): (pieces: seq<string>)
    ensures |pieces| >= 1
    ensures forall i | 0 <= i < |pieces| :: StarFree(pieces[i])
  {
    if s == "" then [""]
    else
      var rest := SplitStar(s[1..]);
      if s[0] == '*' then [""] + rest else [[s[0]] + rest[0]] + rest[1..]
  }

  function JoinStar(pieces: seq<string>): string
    requires |pieces| >= 1
  {
    if |pieces| == 1 then pieces[0] else pieces[0] + "*" + JoinStar(pieces[1..])
  }

  lemma {:induction false} SplitThenJoin(s: string)
    ensures JoinStar(SplitStar(s)) == s
  {
    if s != "" {
      var rest := SplitStar(s[1..]);
      SplitThenJoin(s[1..]);
      if s[0] == '*' {
        assert JoinStar([""] + rest) == "" + "*" + JoinStar(rest);
      } else {
        assert JoinStar([[s[0]] + rest[0]] + rest[1..]) == [s[0]] + JoinStar(rest);
      }
    }
  }

  /** Every piece behind its own star: the pattern text left to match after a literal. */
  function Starred(pieces: seq<string>): string {
    if pieces == [] then "" else "*" + pieces[0] + Starred(pieces[1..])
  }

  lemma {:induction false} JoinIsStarred(pieces: seq<string>)
    requires |pieces| >= 1
    ensures "*" + JoinStar(pieces) == Starred(pieces)
  {
    if |pieces| > 1 {
      JoinIsStarred(pieces[1..]);
    }
  }

  lemma {:induction false} StarredSnoc(pieces: seq<string>, last: string)
    ensures Starred(pieces + [last]) == Starred(pieces) + "*" + last
  {
    if pieces == [] {
      assert Starred([last]) == "*" + last;
    } else {
      assert (pieces + [last])[1..] == pieces[1..] + [last];
      StarredSnoc(pieces[1..], last);
    }
  }

  // ----- What each step of the scan may do -----

  /** A literal in front of a pattern must be a prefix of the value. */
  lemma {:induction false} LiteralPrefix(lit: string, pattern: string, value: string)
    requires StarFree(lit)
    ensures Matches(lit + pattern, value) <==> lit <= value && Matches(pattern, value[|lit|..])
    decreases |lit|
  {
    if lit == "" {
      assert lit + pattern == pattern;
    } else {
      assert (lit + pattern)[1..] == lit[1..] + pattern;
      if value != "" && value[0] == lit[0] {
        LiteralPrefix(lit[1..], pattern, value[1..]);
        assert lit <= value <==> lit[1..] <= value[1..];
        if lit <= value {
          assert value[1..][|lit| - 1..] == value[|lit|..];
        }
      }
    }
  }

  lemma LiteralOnly(lit: string, value: string)
    requires StarFree(lit)
    ensures Matches(lit, value) <==> value == lit
  {
    LiteralPrefix(lit, "", value);
    assert lit + "" == lit;
  }

  lemma CleanConcat(a: string, b: string)
    ensures Clean(a + b) <==> Clean(a) && Clean(b)
  {
    if Clean(a + b) {
      assert forall i | 0 <= i < |a| :: a[i] == (a + b)[i];
      assert forall i | 0 <= i < |b| :: b[i] == (a + b)[|a| + i];
    }
  }

  lemma {:induction false} StarIntro(pattern: string, value: string, k: nat)
    requires StarAt(pattern, value, k)
    ensures Matches("*" + pattern, value)
  {
    assert ("*" + pattern)[1..] == pattern;
    if k == 0 {
      assert value[0..] == value;
    } else {
      assert value[..k][0] == value[0];
      assert value[1..][..k - 1] == value[..k][1..];
      assert value[1..][k - 1..] == value[k..];
      StarIntro(pattern, value[1..], k - 1);
    }
  }

  lemma {:induction false} StarElim(pattern: string, value: string) returns (k: nat)
    requires Matches("*" + pattern, value)
    ensures StarAt(pattern, value, k)
  {
    assert ("*" + pattern)[1..] == pattern;
    if Matches(pattern, value) {
      k := 0;
      assert value[0..] == value;
    } else {
      k := StarElim(pattern, value[1..]);
      assert value[..k + 1] == [value[0]] + value[1..][..k];
      assert value[k + 1..] == value[1..][k..];
      k := k + 1;
    }
  }

  /** Two stars with nothing between them are one. */
  lemma AdjacentStars(pattern: string, value: string)
    ensures Matches("*" + ("*" + pattern), value) <==> Matches("*" + pattern, value)
  {
    if Matches("*" + pattern, value) {
      assert value[0..] == value;
      StarIntro("*" + pattern, value, 0);
    }
    if Matches("*" + ("*" + pattern), value) {
      var k := StarElim("*" + pattern, value);
      var j := StarElim(pattern, value[k..]);
      assert value[k..][j..] == value[k + j..];
      assert value[..k] + value[k..][..j] == value[..k + j];
      CleanConcat(value[..k], value[k..][..j]);
      StarIntro(pattern, value, k + j);
    }
  }

  /** The final segment may only sit at the very end. */
  lemma StarSuffix(last: string, value: string)
    requires StarFree(last)
    ensures Matches("*" + last, value) <==>
            |last| <= |value| && value[|value| - |last|..] == last && Clean(value[..|value| - |last|])
  {
    hide Matches;
    if Matches("*" + last, value) {
      var k := StarElim(last, value);
      LiteralOnly(last, value[k..]);
      assert k == |value| - |last|;
    }
    if |last| <= |value| && value[|value| - |last|..] == last && Clean(value[..|value| - |last|]) {
      var k := |value| - |last|;
      LiteralOnly(last, value[k..]);
      StarIntro(last, value, k);
    }
  }

  /** A star spans any text but one that holds a line feed, a carriage return, or U+2028 or U+2029. */
  lemma StarSpans(before: string, gap: string, after: string)
    requires '*' !in before && '*' !in after
    ensures Matches(before + "*" + after, before + gap + after)
       <==> forall c | c in gap :: c !in {'\n', '\r', '\U{2028}', '\U{2029}'}
  {
    hide Matches;
    assert before + "*" + after == before + ("*" + after) && before + gap + after == before + (gap + after);
    LiteralPrefix(before, "*" + after, before + (gap + after));
    assert (before + (gap + after))[|before|..] == gap + after && before <= before + (gap + after);
    StarSuffix(after, gap + after);
    assert (gap + after)[..|gap|] == gap && (gap + after)[|gap|..] == after;
    SpannedExactly(gap);
  }

  lemma SpannedExactly(gap: string)
    ensures Clean(gap) <==> forall c | c in gap :: c !in {'\n', '\r', '\U{2028}', '\U{2029}'}
  {
    assert forall c: char :: IsLineTerminator(c) <==> c in {'\n', '\r', '\U{2028}', '\U{2029}'};
    assert forall i | 0 <= i < |gap| :: gap[i] in gap;
  }

  /**
    Why the leftmost occurrence may stand for any later one. Sliding a segment left hands its
    old characters to the gap after it, so the segment must be free of terminators. Each of its
    characters either lies in the later occurrence's clean gap, or is also a character of the
    segment at a smaller index.
  */
  lemma {:induction false} SlidCharacterIsClean(segment: string, value: string, first: nat, later: nat, i: nat)
    requires OccursAt(value, segment, first) && OccursAt(value, segment, later)
    requires first < later && Clean(value[..later])
    requires i < |segment|
    ensures !IsLineTerminator(segment[i])
  {
    assert value[first..first + |segment|][i] == value[first + i];
    if first + i < later {
      assert value[..later][first + i] == value[first + i];
    } else {
      assert value[later..later + |segment|][first + i - later] == value[first + i];
      SlidCharacterIsClean(segment, value, first, later, first + i - later);
    }
  }

  /** The star takes `k` characters and the segment stands right behind them. */
  lemma SegmentAt(segment: string, pattern: string, value: string, k: nat)
    requires StarFree(segment) && k <= |value|
    ensures StarAt(segment + ("*" + pattern), value, k) <==>
            OccursAt(value, segment, k) && Clean(value[..k]) && Matches("*" + pattern, value[k + |segment|..])
  {
    LiteralPrefix(segment, "*" + pattern, value[k..]);
    if k + |segment| <= |value| {
      assert value[k..][|segment|..] == value[k + |segment|..];
      assert value[k..k + |segment|] == value[k..][..|segment|];
    }
  }

  /** A segment between two stars is matched exactly by consuming its leftmost occurrence. */
  lemma SegmentStep(segment: string, pattern: string, value: string)
    requires StarFree(segment)
    ensures Matches("*" + (segment + ("*" + pattern)), value) <==>
            Find(value, segment).Some? &&
            var at := Find(value, segment).value;
            Clean(value[..at]) && Matches("*" + pattern, value[at + |segment|..])
  {
    var tail := segment + ("*" + pattern);
    if Matches("*" + tail, value) {
      var k := StarElim(tail, value);
      SegmentAt(segment, pattern, value, k);
      var at := Find(value, segment).value;
      assert value[..at] == value[..k][..at];
      if at < k {
        SlideGap(segment, pattern, value, at, k);
      }
    }
    if Find(value, segment).Some? {
      var at := Find(value, segment).value;
      SegmentAt(segment, pattern, value, at);
      if StarAt(tail, value, at) {
        StarIntro(tail, value, at);
      }
    }
  }

  /** The gap after a slid segment is still clean. */
  lemma SlideGap(segment: string, pattern: string, value: string, at: nat, k: nat)
    requires OccursAt(value, segment, at) && OccursAt(value, segment, k) && at < k
    requires Clean(value[..k])
    requires Matches("*" + pattern, value[k + |segment|..])
    ensures Matches("*" + pattern, value[at + |segment|..])
  {
    forall i | 0 <= i < |segment|
      ensures !IsLineTerminator(segment[i])
    {
      SlidCharacterIsClean(segment, value, at, k, i);
    }
    var from, to := at + |segment|, k + |segment|;
    var j := StarElim(pattern, value[to..]);
    assert Clean(value[from..to]) by {
      forall i | from <= i < to
        ensures !IsLineTerminator(value[i])
      {
        if i < k {
          assert value[..k][i] == value[i];
        } else {
          assert value[k..k + |segment|][i - k] == value[i] == segment[i - k];
        }
      }
    }
    CleanConcat(value[from..to], value[to..][..j]);
    assert value[from..to] + value[to..][..j] == value[from..][..to - from + j];
    assert value[to..][j..] == value[from..][to - from + j..];
    StarIntro(pattern, value[from..], to - from + j);
  }

  // ----- The relation, as literals filled with gaps -----

  /** `Matches` holds exactly when clean gaps can be woven between the pattern's literals. */
  lemma MatchesIsFilling(pattern: string, lits: seq<string>, value: string)
    requires lits == SplitStar(pattern)
    ensures Matches(pattern, value) <==> exists gaps :: Fills(lits, gaps, value)
  {
    if Matches(pattern, value) {
      var gaps := GapsOf(pattern, value);
      assert Fills(lits, gaps, value);
    } else if exists gaps :: Fills(lits, gaps, value) {
      var gaps :| Fills(lits, gaps, value);
      FilledMatches(pattern, gaps, value);
    }
  }

  lemma {:induction false} GapsOf(pattern: string, value: string) returns (gaps: seq<string>)
    requires Matches(pattern, value)
    ensures Fills(SplitStar(pattern), gaps, value)
    decreases |pattern|
  {
    if pattern == "" {
      gaps := [];
    } else if pattern[0] == '*' {
      assert "*" + pattern[1..] == pattern;
      var k := StarElim(pattern[1..], value);
      var rest := GapsOf(pattern[1..], value[k..]);
      gaps := [value[..k]] + rest;
      assert gaps[1..] == rest && SplitStar(pattern)[1..] == SplitStar(pattern[1..]);
    } else {
      gaps := GapsOf(pattern[1..], value[1..]);
      WeaveHead(pattern[0], SplitStar(pattern[1..]), gaps);
    }
  }

  lemma {:induction false} FilledMatches(pattern: string, gaps: seq<string>, value: string)
    requires Fills(SplitStar(pattern), gaps, value)
    ensures Matches(pattern, value)
    decreases |pattern|
  {
    if pattern != "" {
      var rest := SplitStar(pattern[1..]);
      if pattern[0] == '*' {
        assert SplitStar(pattern)[1..] == rest;
        var k := |gaps[0]|;
        assert value == gaps[0] + Weave(rest, gaps[1..]);
        assert value[..k] == gaps[0] && value[k..] == Weave(rest, gaps[1..]);
        FilledMatches(pattern[1..], gaps[1..], value[k..]);
        StarIntro(pattern[1..], value, k);
        assert "*" + pattern[1..] == pattern;
      } else {
        WeaveHead(pattern[0], rest, gaps);
        assert value[1..] == Weave(rest, gaps);
        FilledMatches(pattern[1..], gaps, value[1..]);
      }
    }
  }

  lemma WeaveHead(c: char, lits: seq<string>, gaps: seq<string>)
    requires |lits| == |gaps| + 1
    ensures Weave([[c] + lits[0]] + lits[1..], gaps) == [c] + Weave(lits, gaps)
  {
    if gaps != [] {
      assert ([[c] + lits[0]] + lits[1..])[1..] == lits[1..];
      assert [c] + lits[0] + gaps[0] + Weave(lits[1..], gaps[1..])
          == [c] + (lits[0] + gaps[0] + Weave(lits[1..], gaps[1..]));
    }
  }

  // ----- The scan of both ports -----

  /** Whether a star would have to cross a line terminator. */
  predicate HoldsTerminator(gap: string)
    ensures HoldsTerminator(gap) <==> !Clean(gap)
  {
    exists c | c in gap :: IsLineTerminator(c)
  }

  /** `strings.Cut`: the text around the first occurrence of the separator. */
  function Cut<T(==)>(s: seq<T>, sep: seq<T>): (r: Option<(seq<T>, seq<T>)>)
    ensures r.Some? <==> Find(s, sep).Some?
    ensures r.Some? ==> s == r.value.0 + sep + r.value.1 && |r.value.0| == Find(s, sep).value
    ensures r.Some? ==> r.value.0 == s[..|r.value.0|] && r.value.1 == s[|r.value.0| + |sep|..]
  {
    match Find(s, sep)
    case None => None
    case Some(at) => Some((s[..at], s[at + |sep|..]))
  }

  lemma CutStar(pattern: string)
    ensures Cut(pattern, "*").None? <==> StarFree(pattern)
    ensures Cut(pattern, "*").Some? ==> StarFree(Cut(pattern, "*").value.0)
  {
    assert forall k | 0 <= k < |pattern| :: OccursAt(pattern, "*", k) <==> pattern[k] == '*';
    if Cut(pattern, "*").None? {
      assert forall k :: !OccursAt(pattern, "*", k);
    }
  }

  /** The literals between the first star and the last one, and the literal behind the last. */
  function Tail(rest: string): (r: (seq<string>, string))
    ensures forall i | 0 <= i < |r.0| :: StarFree(r.0[i])
    ensures StarFree(r.1)
  {
    match LastIndexOf(rest, '*')
    case None => ([], rest)
    case Some(i) => (SplitStar(rest[..i]), rest[i + 1..])
  }

  lemma TailIsStarred(rest: string)
    ensures "*" + rest == Starred(Tail(rest).0 + [Tail(rest).1])
  {
    match LastIndexOf(rest, '*')
    case None =>
      assert Starred([rest]) == "*" + rest;
    case Some(i) =>
      var between, last := rest[..i], rest[i + 1..];
      assert rest == between + "*" + last;
      SplitThenJoin(between);
      JoinIsStarred(SplitStar(between));
      StarredSnoc(SplitStar(between), last);
  }

  /** The scan over what is left: consume each segment's leftmost occurrence, then the suffix. */
  predicate Scan(segments: seq<string>, last: string, remaining: string)
    decreases |segments|
  {
    if segments == [] then
      |last| <= |remaining| && remaining[|remaining| - |last|..] == last && Clean(remaining[..|remaining| - |last|])
    else if segments[0] == "" then Scan(segments[1..], last, remaining)
    else
      match Find(remaining, segments[0])
      case None => false
      case Some(at) => Clean(remaining[..at]) && Scan(segments[1..], last, remaining[at + |segments[0]|..])
  }

  /** The greedy scan decides the regular expression: leftmost is enough at every segment. */
  lemma {:induction false} ScanIsMatches(segments: seq<string>, last: string, remaining: string)
    requires forall i | 0 <= i < |segments| :: StarFree(segments[i])
    requires StarFree(last)
    ensures Scan(segments, last, remaining) <==> Matches(Starred(segments + [last]), remaining)
    decreases |segments|
  {
    hide Matches, Find;
    if segments == [] {
      assert Starred([last]) == "*" + last;
      StarSuffix(last, remaining);
    } else {
      var next := Starred(segments[1..] + [last]);
      assert (segments + [last])[1..] == segments[1..] + [last];
      assert next == "*" + next[1..];
      assert Starred(segments + [last]) == "*" + (segments[0] + ("*" + next[1..]));
      if segments[0] == "" {
        assert "" + ("*" + next[1..]) == "*" + next[1..];
        AdjacentStars(next[1..], remaining);
        ScanIsMatches(segments[1..], last, remaining);
      } else {
        SegmentStep(segments[0], next[1..], remaining);
        match Find(remaining, segments[0])
        case None =>
        case Some(at) => ScanIsMatches(segments[1..], last, remaining[at + |segments[0]|..]);
      }
    }
  }

  /** The whole greedy algorithm: peel the first literal off, then scan. */
  predicate Greedy(pattern: string, value: string) {
    match Cut(pattern, "*")
    case None => value == pattern
    case Some(cut) => cut.0 <= value && Scan(Tail(cut.1).0, Tail(cut.1).1, value[|cut.0|..])
  }

  lemma GreedyIsMatches(pattern: string, value: string)
    ensures Greedy(pattern, value) <==> Matches(pattern, value)
  {
    hide Matches, Scan, Find, LastIndexOf, SplitStar;
    CutStar(pattern);
    match Cut(pattern, "*")
    case None => LiteralOnly(pattern, value);
    case Some((first, rest)) =>
      assert pattern == first + ("*" + rest);
      LiteralPrefix(first, "*" + rest, value);
      TailIsStarred(rest);
      if first <= value {
        ScanIsMatches(Tail(rest).0, Tail(rest).1, value[|first|..]);
      }
  }

  lemma LastStep(last: string, remaining: string)
    ensures Scan([], last, remaining) <==>
      && |last| <= |remaining| && remaining[|remaining| - |last|..] == last
      && !HoldsTerminator(remaining[..|remaining| - |last|])
  {
  }

  // ----- The Python port -----

  /** The loop of `glob_matches`: `find` and slicing where the Go port cuts. */
  method PythonConsumeSegments(segments: seq<string>, value: string, ghost last: string) returns (r: Option<string>)
    ensures Scan(segments, last, value) <==> r.Some? && Scan([], last, r.value)
  {
    var remaining := value;
    for i := 0 to |segments|
      invariant Scan(segments, last, value) <==> Scan(segments[i..], last, remaining)
    {
      assert segments[i..][1..] == segments[i + 1..];
      if segments[i] != "" {
        var idx := Find(remaining, segments[i]);
        if idx.None? {
          return None;
        }
        if HoldsTerminator(remaining[..idx.value]) {
          return None;
        }
        remaining := remaining[idx.value + |segments[i]|..];
      }
    }
    return Some(remaining);
  }

  lemma FindsAnyStar(s: string)
    ensures Find(s, "*").Some? <==> LastIndexOf(s, '*').Some?
  {
    match LastIndexOf(s, '*')
    case None => CutStar(s);
    case Some(i) => assert OccursAt(s, "*", i);
  }

  /** `glob_matches`, as the Python library runs it. */
  method PythonGlobMatches(pattern: string, value: string) returns (matched: bool)
    ensures matched <==> Matches(pattern, value)
  {
    hide Matches, Scan, Clean, HoldsTerminator, Find, LastIndexOf, SplitStar;
    GreedyIsMatches(pattern, value);
    if Find(pattern, "*").None? {
      return value == pattern;
    }
    var (first, rest) := Cut(pattern, "*").value;
    if |value| < |first| || value[..|first|] != first {
      return false;
    }
    var remaining := value[|first|..];

    var last := rest;
    FindsAnyStar(rest);
    if Find(rest, "*").Some? {
      var star := LastIndexOf(rest, '*').value;
      var between, tail := rest[..star], rest[star + 1..];
      var after := PythonConsumeSegments(SplitStar(between), remaining, tail);
      if after.None? {
        return false;
      }
      remaining := after.value;
      last := tail;
    }

    LastStep(last, remaining);
    if |remaining| < |last| || remaining[|remaining| - |last|..] != last {
      return false;
    }
    return !HoldsTerminator(remaining[..|remaining| - |last|]);
  }
}
