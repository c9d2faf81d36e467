/**
  The Go port of the matcher, on the UTF-8 bytes a Go string is.

  It cuts at bytes and looks for line terminators among the runes the bytes between two cuts
  decode to. On texts it decides the relation the Python port decides on code points: no piece
  of a text's encoding is found but where the piece itself stands.
*/
module GoGlob {
  import opened Wrappers
  import opened Words
  import opened Text
  import opened Utf8
  import Glob

  const STAR: u8 := 0x2A

  /** What `range` over a Go string yields: a byte that starts no character is U+FFFD. */
  function Runes(b: Bytes): string
    decreases |b|
  {
    if b == [] then ""
    else
      match DecodeChar(b)
      case None => ['\U{FFFD}'] + Runes(b[1..])
      case Some((c, n)) => [c] + Runes(b[n..])
  }

  /** `strings.ContainsFunc(gap, isLineTerminator)`. */
  predicate HoldsTerminator(gap: Bytes) {
    Glob.HoldsTerminator(Runes(gap))
  }

  /** `strings.Split(s, "*")`. */
  function SplitStar(s: Bytes): (pieces: seq<Bytes>)
    ensures |pieces| >= 1
  {
    if s == [] then [[]]
    else
      var rest := SplitStar(s[1..]);
      if s[0] == STAR then [[]] + rest else [[s[0]] + rest[0]] + rest[1..]
  }

  /** The loop over the middle segments and the test of the suffix. */
  predicate Scan(segments: seq<Bytes>, last: Bytes, remaining: Bytes)
    decreases |segments|
  {
    if segments == [] then
      && |last| <= |remaining| && remaining[|remaining| - |last|..] == last
      && !HoldsTerminator(remaining[..|remaining| - |last|])
    else if segments[0] == [] then Scan(segments[1..], last, remaining)
    else
      match Glob.Cut(remaining, segments[0])
      case None => false
      case Some((gap, after)) => !HoldsTerminator(gap) && Scan(segments[1..], last, after)
  }

  function Tail(rest: Bytes): (seq<Bytes>, Bytes) {
    match Glob.LastIndexOf(rest, STAR)
    case None => ([], rest)
    case Some(i) => (SplitStar(rest[..i]), rest[i + 1..])
  }

  /** What the port answers for any bytes. */
  predicate Greedy(pattern: Bytes, value: Bytes) {
    match Glob.Cut(pattern, [STAR])
    case None => value == pattern
    case Some((first, rest)) => first <= value && Scan(Tail(rest).0, Tail(rest).1, value[|first|..])
  }

  // ----- Where the pieces of an encoded text stand -----

  /** A boundary of an encoding lies between two characters. */
  lemma {:induction false} BoundaryIsOffset(s: string, k: nat) returns (i: nat)
    requires k <= |Encode(s)| && IsBoundary(Encode(s), k)
    ensures i <= |s| && k == |Encode(s[..i])|
    ensures Encode(s)[..k] == Encode(s[..i]) && Encode(s)[k..] == Encode(s[i..])
  {
    if k == 0 {
      i := 0;
    } else {
      var n := |EncodeChar(s[0])|;
      CharShape(s[0]);
      assert k >= n;
      assert k < |Encode(s)| ==> Encode(s)[k] == Encode(s[1..])[k - n];
      var j := BoundaryIsOffset(s[1..], k - n);
      i := j + 1;
      assert s[..i][1..] == s[1..][..j];
    }
    EncodeSplit(s, i);
  }

  /** The bytes of one text are found in those of another only where the text itself is. */
  lemma OccursInEncoding(s: string, sub: string, k: nat) returns (i: nat)
    requires sub != "" && OccursAt(Encode(s), Encode(sub), k)
    ensures i <= |s| && k == |Encode(s[..i])| && OccursAt(s, sub, i)
  {
    hide Encode;
    FirstByte(sub);
    assert Encode(s)[k..k + |Encode(sub)|][0] == Encode(s)[k];
    i := BoundaryIsOffset(s, k);
    assert Encode(sub) <= Encode(s)[k..];
    PrefixOfEncoding(sub, s[i..]);
    assert s[i..][..|sub|] == s[i..i + |sub|];
  }

  lemma OccursEncoded(s: string, sub: string, i: nat)
    requires i <= |s| && OccursAt(s, sub, i)
    ensures OccursAt(Encode(s), Encode(sub), |Encode(s[..i])|)
    ensures Encode(s)[..|Encode(s[..i])|] == Encode(s[..i])
    ensures Encode(s)[|Encode(s[..i])| + |Encode(sub)|..] == Encode(s[i + |sub|..])
  {
    hide Encode;
    EncodeSplit(s, i);
    EncodeSplit(s[i..], |sub|);
    assert s[i..][..|sub|] == sub && s[i..][|sub|..] == s[i + |sub|..];
  }

  lemma OffsetsIncrease(s: string, i: nat, j: nat)
    requires i < j <= |s|
    ensures |Encode(s[..i])| < |Encode(s[..j])|
  {
    EncodeSplit(s[..j], i);
    assert s[..j][..i] == s[..i];
    FirstByte(s[..j][i..]);
  }

  lemma FindEncoded(s: string, sub: string)
    requires sub != ""
    ensures Find(Encode(s), Encode(sub)) == match Find(s, sub)
      case None => None
      case Some(at) => Some(|Encode(s[..at])|)
  {
    hide Encode, Find;
    var found := Find(Encode(s), Encode(sub));
    if found.Some? {
      var i := OccursInEncoding(s, sub, found.value);
    }
    match Find(s, sub)
    case None =>
    case Some(at) =>
      OccursEncoded(s, sub, at);
      var i := OccursInEncoding(s, sub, found.value);
      if at < i {
        OffsetsIncrease(s, at, i);
      }
  }

  lemma CutEncoded(s: string, sep: string)
    requires sep != ""
    ensures Glob.Cut(Encode(s), Encode(sep)) == match Glob.Cut(s, sep)
      case None => None
      case Some((before, after)) => Some((Encode(before), Encode(after)))
  {
    hide Encode, Find;
    FindEncoded(s, sep);
    if Find(s, sep).Some? {
      OccursEncoded(s, sep, Find(s, sep).value);
    }
  }

  lemma {:induction false} RunesOfText(s: string)
    ensures Runes(Encode(s)) == s
  {
    if s != "" {
      var head := EncodeChar(s[0]);
      CharShape(s[0]);
      DecodeCharPrefix(head, Encode(s[1..]));
      assert Encode(s)[|head|..] == Encode(s[1..]);
      RunesOfText(s[1..]);
    }
  }

  lemma SuffixEncoded(last: string, s: string)
    requires |last| <= |s| && s[|s| - |last|..] == last
    ensures |Encode(last)| <= |Encode(s)| && Encode(s)[|Encode(s)| - |Encode(last)|..] == Encode(last)
    ensures Encode(s)[..|Encode(s)| - |Encode(last)|] == Encode(s[..|s| - |last|])
  {
    hide Encode;
    EncodeSplit(s, |s| - |last|);
  }

  lemma SameSuffix(last: string, s: string)
    requires |Encode(last)| <= |Encode(s)| && Encode(s)[|Encode(s)| - |Encode(last)|..] == Encode(last)
    ensures |last| <= |s| && s[|s| - |last|..] == last
  {
    hide Encode;
    if last != "" {
      var m := |Encode(s)| - |Encode(last)|;
      FirstByte(last);
      assert Encode(s)[m] == Encode(s)[m..][0];
      var i := BoundaryIsOffset(s, m);
      EncodeInjective(s[i..], last);
    }
  }

  // ----- Stars -----

  lemma {:induction false} StarByte(s: string)
    ensures STAR in Encode(s) <==> '*' in s
  {
    if s != "" {
      StarByte(s[1..]);
      assert s == [s[0]] + s[1..];
      StarChar(s[0]);
      assert Encode(s) == EncodeChar(s[0]) + Encode(s[1..]);
    }
  }

  lemma StarChar(c: char)
    ensures STAR in EncodeChar(c) <==> c == '*'
    ensures EncodeChar('*') == [STAR]
  {
  }

  lemma StarText()
    ensures Encode("*") == [STAR]
  {
    assert "*"[1..] == "";
    assert Encode("*") == EncodeChar('*') + Encode("");
  }

  lemma LastStarEncoded(s: string)
    ensures Glob.LastIndexOf(Encode(s), STAR) == match Glob.LastIndexOf(s, '*')
      case None => None
      case Some(i) => Some(|Encode(s[..i])|)
    ensures forall i | Glob.LastIndexOf(s, '*') == Some(i) ::
      var k := |Encode(s[..i])|;
      k < |Encode(s)| && Encode(s)[..k] == Encode(s[..i]) && Encode(s)[k + 1..] == Encode(s[i + 1..])
  {
    hide Encode, Glob.LastIndexOf;
    StarByte(s);
    match Glob.LastIndexOf(s, '*')
    case None =>
    case Some(i) =>
      StarText();
      StarByte(s[i + 1..]);
      assert OccursAt(s, "*", i);
      OccursEncoded(s, "*", i);
      var k := |Encode(s[..i])|;
      assert Encode(s)[k..k + 1][0] == Encode(s)[k];
      forall m | k < m < |Encode(s)|
        ensures Encode(s)[m] != STAR
      {
        assert Encode(s)[m] == Encode(s)[k + 1..][m - k - 1];
      }
  }

  function Encoded(texts: seq<string>): (r: seq<Bytes>)
    ensures |r| == |texts|
  {
    seq(|texts|, i requires 0 <= i < |texts| => Encode(texts[i]))
  }

  lemma {:induction false} SplitLiteral(lit: Bytes, rest: Bytes)
    requires STAR !in lit
    ensures SplitStar(lit + rest) == [lit + SplitStar(rest)[0]] + SplitStar(rest)[1..]
  {
    if lit == [] {
      assert lit + rest == rest && lit + SplitStar(rest)[0] == SplitStar(rest)[0];
    } else {
      assert (lit + rest)[1..] == lit[1..] + rest;
      SplitLiteral(lit[1..], rest);
      assert [lit[0]] + (lit[1..] + SplitStar(rest)[0]) == lit + SplitStar(rest)[0];
    }
  }

  lemma {:induction false} SplitEncoded(s: string)
    ensures SplitStar(Encode(s)) == Encoded(Glob.SplitStar(s))
  {
    hide EncodeChar, Encoded;
    if s == "" {
      EncodedNothing();
    } else {
      var rest := Glob.SplitStar(s[1..]);
      SplitEncoded(s[1..]);
      StarChar(s[0]);
      if s[0] == '*' {
        EncodedCons("", rest);
        assert Encode(s)[1..] == Encode(s[1..]);
      } else {
        SplitLiteral(EncodeChar(s[0]), Encode(s[1..]));
        EncodedHead(s[0], rest);
      }
    }
  }

  lemma EncodedNothing()
    ensures Encoded([""]) == [[]]
  {
  }

  lemma EncodedCons(text: string, rest: seq<string>)
    ensures Encoded([text] + rest) == [Encode(text)] + Encoded(rest)
  {
  }

  lemma EncodedHead(c: char, rest: seq<string>)
    requires rest != []
    ensures Encoded([[c] + rest[0]] + rest[1..]) == [EncodeChar(c) + Encoded(rest)[0]] + Encoded(rest)[1..]
  {
    hide EncodeChar;
    assert ([c] + rest[0])[1..] == rest[0];
    EncodedCons([c] + rest[0], rest[1..]);
    assert Encoded(rest)[1..] == Encoded(rest[1..]);
  }

  // ----- On texts the port decides the relation -----

  lemma LastEncoded(last: string, remaining: string)
    ensures Scan([], Encode(last), Encode(remaining)) <==> Glob.Scan([], last, remaining)
  {
    hide Encode, Runes;
    var m := |Encode(remaining)| - |Encode(last)|;
    if |last| <= |remaining| && remaining[|remaining| - |last|..] == last {
      SuffixEncoded(last, remaining);
      RunesOfText(remaining[..|remaining| - |last|]);
    } else if 0 <= m && Encode(remaining)[m..] == Encode(last) {
      SameSuffix(last, remaining);
    }
  }

  lemma {:induction false} ScanEncoded(segments: seq<string>, last: string, remaining: string)
    ensures Scan(Encoded(segments), Encode(last), Encode(remaining)) <==> Glob.Scan(segments, last, remaining)
    decreases |segments|
  {
    hide Encode, Runes;
    if segments == [] {
      LastEncoded(last, remaining);
    } else {
      assert Encoded(segments)[1..] == Encoded(segments[1..]);
      EmptyEncoding(segments[0]);
      if segments[0] == "" {
        ScanEncoded(segments[1..], last, remaining);
      } else {
        CutEncoded(remaining, segments[0]);
        match Glob.Cut(remaining, segments[0])
        case None =>
        case Some((gap, after)) =>
          RunesOfText(gap);
          ScanEncoded(segments[1..], last, after);
      }
    }
  }

  lemma EmptyEncoding(s: string)
    ensures Encode(s) == [] <==> s == ""
  {
  }

  lemma TailEncoded(rest: string)
    ensures Tail(Encode(rest)) == (Encoded(Glob.Tail(rest).0), Encode(Glob.Tail(rest).1))
  {
    hide Encode, SplitStar;
    LastStarEncoded(rest);
    match Glob.LastIndexOf(rest, '*')
    case None => assert Encoded([]) == [];
    case Some(i) => SplitEncoded(rest[..i]);
  }

  lemma GreedyEncoded(pattern: string, value: string)
    ensures Greedy(Encode(pattern), Encode(value)) <==> Glob.Greedy(pattern, value)
  {
    hide Encode, Scan, Tail;
    StarText();
    CutEncoded(pattern, "*");
    match Glob.Cut(pattern, "*")
    case None =>
      if Encode(value) == Encode(pattern) {
        EncodeInjective(value, pattern);
      }
    case Some((first, rest)) =>
      PrefixOfEncoding(first, value);
      TailEncoded(rest);
      if first <= value {
        EncodeSplit(value, |first|);
        assert value[..|first|] == first;
        assert Encode(value)[|Encode(first)|..] == Encode(value[|first|..]);
        ScanEncoded(Glob.Tail(rest).0, Glob.Tail(rest).1, value[|first|..]);
      }
  }

  /** On the bytes of texts the port's answer is the anchored regular expression's on the texts. */
  lemma BytesDecideTheRelation(pattern: string, value: string)
    ensures Greedy(Encode(pattern), Encode(value)) <==> Glob.Matches(pattern, value)
  {
    GreedyEncoded(pattern, value);
    Glob.GreedyIsMatches(pattern, value);
  }

  /** So in bytes too a star spans any text without one of the four terminators, those of three bytes included. */
  lemma ByteStarSpans(before: string, gap: string, after: string)
    requires '*' !in before && '*' !in after
    ensures Greedy(Encode(before + "*" + after), Encode(before + gap + after))
       <==> forall c | c in gap :: c !in {'\n', '\r', '\U{2028}', '\U{2029}'}
  {
    hide Greedy, Glob.Matches, Encode;
    BytesDecideTheRelation(before + "*" + after, before + gap + after);
    Glob.StarSpans(before, gap, after);
  }

  // ----- Bytes that are no text -----

  /** One of the terminators begins at the byte. */
  predicate TerminatorAt(b: Bytes, i: nat) {
    && i < |b|
    && (b[i] == 0x0A || b[i] == 0x0D || [0xE2, 0x80, 0xA8] <= b[i..] || [0xE2, 0x80, 0xA9] <= b[i..])
  }

  /** The first rune of some bytes: a terminator or not, and none begins later in it. */
  lemma FirstRune(b: Bytes)
    requires b != []
    ensures match DecodeChar(b)
      case None => !TerminatorAt(b, 0)
      case Some((c, n)) =>
        && (c in {'\n', '\r', '\U{2028}', '\U{2029}'} <==> TerminatorAt(b, 0))
        && forall i | 1 <= i < n :: !TerminatorAt(b, i)
  {
  }

  lemma TerminatorShifts(b: Bytes, n: nat, i: nat)
    requires n <= |b|
    ensures TerminatorAt(b[n..], i) <==> TerminatorAt(b, n + i)
  {
    if n + i < |b| {
      assert b[n..][i..] == b[n + i..];
    }
  }

  /** Whatever the bytes are, the terminators seen are the four byte strings that encode one: a byte that starts no
    * character hides none and makes none. */
  lemma {:induction false} TerminatorsAreSeen(b: Bytes)
    ensures HoldsTerminator(b) <==> exists i: nat :: TerminatorAt(b, i)
    decreases |b|
  {
    hide DecodeChar, TerminatorAt;
    if b == [] {
      assert forall i: nat :: !TerminatorAt(b, i) by { NothingThere(b); }
    } else {
      FirstRune(b);
      var n := if DecodeChar(b).Some? then DecodeChar(b).value.1 else 1;
      TerminatorsAreSeen(b[n..]);
      FirstOrLater(b, n);
      forall i: nat
        ensures TerminatorAt(b[n..], i) <==> TerminatorAt(b, n + i)
      {
        TerminatorShifts(b, n, i);
      }
      forall i: nat | i >= n && TerminatorAt(b, i)
        ensures TerminatorAt(b[n..], i - n)
      {
        TerminatorShifts(b, n, i - n);
      }
    }
  }

  lemma NothingThere(b: Bytes)
    requires b == []
    ensures forall i: nat :: !TerminatorAt(b, i)
  {
  }

  lemma FirstOrLater(b: Bytes, n: nat)
    requires b != [] && n == if DecodeChar(b).Some? then DecodeChar(b).value.1 else 1
    ensures HoldsTerminator(b)
       <==> (DecodeChar(b).Some? && DecodeChar(b).value.0 in {'\n', '\r', '\U{2028}', '\U{2029}'})
            || HoldsTerminator(b[n..])
  {
    hide DecodeChar;
    var first := Runes(b)[0];
    var rest := Runes(b[n..]);
    assert Runes(b) == [first] + rest;
    assert forall c :: c in Runes(b) <==> c == first || c in rest;
  }

  /** So a star matches any bytes in which none begins. */
  lemma ByteStarExactly(value: Bytes)
    ensures Greedy([STAR], value) <==> forall i: nat :: !TerminatorAt(value, i)
  {
    hide HoldsTerminator, TerminatorAt;
    var none: Bytes := [];
    assert Glob.Cut([STAR], [STAR]) == Some((none, none)) by {
      assert OccursAt([STAR], [STAR], 0);
    }
    assert Tail(none) == ([], none);
    assert value[0..] == value && value[..|value| - 0] == value;
    TerminatorsAreSeen(value);
  }

  lemma ValidBytesDecide(pattern: Bytes, value: Bytes)
    requires Valid(pattern) && Valid(value)
    ensures Greedy(pattern, value) <==> Glob.Matches(Decode(pattern).value, Decode(value).value)
  {
    hide Greedy, Glob.Matches, Decode;
    DecodeThenEncode(pattern);
    DecodeThenEncode(value);
    BytesDecideTheRelation(Decode(pattern).value, Decode(value).value);
  }

  // ----- The port -----

  /** The loop of `GlobMatches`: what remains behind the last segment, if all were found. */
  method ConsumeSegments(segments: seq<Bytes>, value: Bytes, ghost last: Bytes) returns (r: Option<Bytes>)
    ensures Scan(segments, last, value) <==> r.Some? && Scan([], last, r.value)
  {
    hide HoldsTerminator;
    var remaining := value;
    for i := 0 to |segments|
      invariant Scan(segments, last, value) <==> Scan(segments[i..], last, remaining)
    {
      var segment := segments[i];
      assert segments[i..][1..] == segments[i + 1..];
      if segment == [] {
        continue;
      }
      var found := Glob.Cut(remaining, segment);
      if found.None? {
        return None;
      }
      var (gap, after) := found.value;
      if HoldsTerminator(gap) {
        return None;
      }
      remaining := after;
    }
    return Some(remaining);
  }

  lemma LastStep(last: Bytes, remaining: Bytes)
    ensures Scan([], last, remaining) <==>
      && |last| <= |remaining| && remaining[|remaining| - |last|..] == last
      && !HoldsTerminator(remaining[..|remaining| - |last|])
  {
  }

  /** `GlobMatches`. */
  method GlobMatches(pattern: Bytes, value: Bytes) returns (matched: bool)
    ensures matched <==> Greedy(pattern, value)
    ensures Valid(pattern) && Valid(value) ==>
      (matched <==> Glob.Matches(Decode(pattern).value, Decode(value).value))
  {
    hide HoldsTerminator, SplitStar, Glob.Matches, Decode, Valid, Find, Glob.LastIndexOf, Scan;
    if Valid(pattern) && Valid(value) {
      ValidBytesDecide(pattern, value);
    }
    var cut := Glob.Cut(pattern, [STAR]);
    if cut.None? {
      return value == pattern;
    }
    var (first, rest) := cut.value;
    if !(first <= value) {
      return false;
    }
    var remaining := value[|first|..];

    var last := rest;
    var star := Glob.LastIndexOf(rest, STAR);
    if star.Some? {
      var between, tail := rest[..star.value], rest[star.value + 1..];
      var after := ConsumeSegments(SplitStar(between), remaining, tail);
      if after.None? {
        return false;
      }
      remaining := after.value;
      last := tail;
    }

    LastStep(last, remaining);
    if !(|last| <= |remaining| && remaining[|remaining| - |last|..] == last) {
      return false;
    }
    return !HoldsTerminator(remaining[..|remaining| - |last|]);
  }
}
