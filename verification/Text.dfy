/** The parts of Rust's `str` the modelled code leans on: white space, trimming and searching. */
module Text {
  import opened Wrappers

  /** `char::is_whitespace`: the Unicode `White_Space` property. */
  predicate IsWhitespace(c: char) {
    || '\U{9}' <= c <= '\U{D}' || c == ' ' || c == '\U{85}' || c == '\U{A0}' || c == '\U{1680}'
    || '\U{2000}' <= c <= '\U{200A}' || c == '\U{2028}' || c == '\U{2029}' || c == '\U{202F}'
    || c == '\U{205F}' || c == '\U{3000}'
  }

  predicate IsBlank(s: string) {
    forall i | 0 <= i < |s| :: IsWhitespace(s[i])
  }

  function TrimStart(s: string): string {
    if s != "" && IsWhitespace(s[0]) then TrimStart(s[1..]) else s
  }

  function TrimEnd(s: string): string {
    if s != "" && IsWhitespace(s[|s| - 1]) then TrimEnd(s[..|s| - 1]) else s
  }

  function Trim(s: string): string {
    TrimEnd(TrimStart(s))
  }

  /** Nothing to trim. */
  predicate IsTrimmed(s: string) {
    s != "" ==> !IsWhitespace(s[0]) && !IsWhitespace(s[|s| - 1])
  }

  lemma {:induction false} TrimStartBlank(blank: string, s: string)
    requires IsBlank(blank)
    ensures TrimStart(blank + s) == TrimStart(s)
  {
    if blank == "" {
      assert blank + s == s;
    } else {
      assert (blank + s)[1..] == blank[1..] + s;
      TrimStartBlank(blank[1..], s);
    }
  }

  lemma {:induction false} TrimEndBlank(s: string, blank: string)
    requires IsBlank(blank)
    ensures TrimEnd(s + blank) == TrimEnd(s)
  {
    if blank == "" {
      assert s + blank == s;
    } else {
      assert (s + blank)[..|s + blank| - 1] == s + blank[..|blank| - 1];
      TrimEndBlank(s, blank[..|blank| - 1]);
    }
  }

  lemma TrimPadded(before: string, s: string, after: string)
    requires IsBlank(before) && IsBlank(after) && IsTrimmed(s)
    ensures Trim(before + s + after) == s
  {
    assert before + s + after == before + (s + after);
    TrimStartBlank(before, s + after);
    TrimEndBlank(s, after);
    if s == "" {
      assert s + after == after + "";
      TrimStartBlank(after, "");
    }
  }

  lemma {:induction false} TrimStartSuffix(s: string)
    ensures |TrimStart(s)| <= |s| && TrimStart(s) == s[|s| - |TrimStart(s)|..]
    ensures TrimStart(s) != "" ==> !IsWhitespace(TrimStart(s)[0])
  {
    if s != "" && IsWhitespace(s[0]) {
      TrimStartSuffix(s[1..]);
    }
  }

  lemma {:induction false} TrimEndPrefix(s: string)
    ensures |TrimEnd(s)| <= |s| && TrimEnd(s) == s[..|TrimEnd(s)|]
    ensures TrimEnd(s) != "" ==> !IsWhitespace(TrimEnd(s)[|TrimEnd(s)| - 1])
  {
    if s != "" && IsWhitespace(s[|s| - 1]) {
      TrimEndPrefix(s[..|s| - 1]);
    }
  }

  lemma {:induction false} TrimStartBlankPart(s: string) returns (n: nat)
    ensures n <= |s| && TrimStart(s) == s[n..] && IsBlank(s[..n])
  {
    hide IsWhitespace;
    n := 0;
    if s != "" && IsWhitespace(s[0]) {
      var m := TrimStartBlankPart(s[1..]);
      n := m + 1;
      assert s[1..][m..] == s[n..] && s[..n] == [s[0]] + s[1..][..m];
    }
  }

  lemma {:induction false} TrimEndBlankPart(s: string) returns (n: nat)
    ensures n <= |s| && TrimEnd(s) == s[..n] && IsBlank(s[n..])
  {
    hide IsWhitespace;
    n := |s|;
    if s != "" && IsWhitespace(s[|s| - 1]) {
      var front := s[..|s| - 1];
      n := TrimEndBlankPart(front);
      assert front[..n] == s[..n] && s[n..] == front[n..] + [s[|s| - 1]];
    }
  }

  /** Blank text around the other. */
  ghost predicate IsPaddedBy(s: string, before: string, t: string, after: string) {
    IsBlank(before) && IsBlank(after) && s == before + t + after
  }

  /** Trimming takes white space off both ends, and all of it. */
  lemma TrimExactly(s: string, t: string)
    ensures Trim(s) == t <==> IsTrimmed(t) && exists before, after :: IsPaddedBy(s, before, t, after)
  {
    hide IsBlank, IsTrimmed, TrimStart, TrimEnd;
    if before, after :| IsPaddedBy(s, before, t, after) {
      if IsTrimmed(t) {
        TrimPadded(before, t, after);
      }
    }
    if Trim(s) == t {
      var u := TrimStart(s);
      var n := TrimStartBlankPart(s);
      var m := TrimEndBlankPart(u);
      assert s == s[..n] + t + u[m..];
      assert IsPaddedBy(s, s[..n], t, u[m..]);
      TrimmedBothEnds(s);
    }
  }

  lemma TrimmedBothEnds(s: string)
    ensures IsTrimmed(Trim(s))
  {
    hide IsWhitespace;
    TrimStartSuffix(s);
    TrimEndPrefix(TrimStart(s));
  }

  /** White space is the Unicode property's twenty-five characters. */
  lemma WhitespaceExactly(c: char)
    ensures Trim([c]) == "" <==>
      c as int in {0x9, 0xA, 0xB, 0xC, 0xD, 0x20, 0x85, 0xA0, 0x1680, 0x2000, 0x2001, 0x2002, 0x2003, 0x2004, 0x2005,
                   0x2006, 0x2007, 0x2008, 0x2009, 0x200A, 0x2028, 0x2029, 0x202F, 0x205F, 0x3000}
  {
    assert TrimStart([c]) == if IsWhitespace(c) then "" else [c];
    assert TrimEnd([c]) == if IsWhitespace(c) then "" else [c];
  }

  // ----- Searching -----

  predicate OccursAt<T(==)>(s: seq<T>, sub: seq<T>, at: int) {
    0 <= at && at + |sub| <= |s| && s[at..at + |sub|] == sub
  }

  /** The leftmost occurrence of `sub` in `s`, as `str::find`, `strings.Index` and Python's `find` answer it. */
  function Find<T(==)>(s: seq<T>, sub: seq<T>): (r: Option<nat>)
    ensures r.Some? ==> OccursAt(s, sub, r.value)
    ensures r.Some? ==> forall k | 0 <= k < r.value :: !OccursAt(s, sub, k)
    ensures r.None? ==> forall k :: !OccursAt(s, sub, k)
  {
    FindFrom(s, sub, 0)
  }

  function FindFrom<T(==)>(s: seq<T>, sub: seq<T>, from: nat): (r: Option<nat>)
    requires from <= |s|
    ensures r.Some? ==> from <= r.value && OccursAt(s, sub, r.value)
    ensures r.Some? ==> forall k | from <= k < r.value :: !OccursAt(s, sub, k)
    ensures r.None? ==> forall k | from <= k :: !OccursAt(s, sub, k)
    decreases |s| - from
  {
    if OccursAt(s, sub, from) then Some(from)
    else if from == |s| then None
    else FindFrom(s, sub, from + 1)
  }

  /** The last occurrence, as `str::rfind` answers it. */
  function FindLast(s: string, sub: string): (r: Option<nat>)
    ensures r.Some? ==> OccursAt(s, sub, r.value)
    ensures r.Some? ==> forall k | r.value < k :: !OccursAt(s, sub, k)
    ensures r.None? ==> forall k :: !OccursAt(s, sub, k)
  {
    FindLastUpTo(s, sub, |s|)
  }

  function FindLastUpTo(s: string, sub: string, limit: nat): (r: Option<nat>)
    requires limit <= |s|
    ensures r.Some? ==> r.value <= limit && OccursAt(s, sub, r.value)
    ensures r.Some? ==> forall k | r.value < k <= limit :: !OccursAt(s, sub, k)
    ensures r.None? ==> forall k | k <= limit :: !OccursAt(s, sub, k)
    decreases limit
  {
    if OccursAt(s, sub, limit) then Some(limit)
    else if limit == 0 then None
    else FindLastUpTo(s, sub, limit - 1)
  }

  // ----- Splitting -----

  /** The non-empty pieces between separators. */
  function SplitBy(s: string, isSep: char -> bool): seq<string>
    decreases |s|
  {
    if s == "" then []
    else if isSep(s[0]) then SplitBy(s[1..], isSep)
    else
      var n := PieceLength(s, isSep);
      [s[..n]] + SplitBy(s[n..], isSep)
  }

  function PieceLength(s: string, isSep: char -> bool): (n: nat)
    requires s != "" && !isSep(s[0])
    ensures 1 <= n <= |s|
    ensures forall i | 0 <= i < n :: !isSep(s[i])
    ensures n < |s| ==> isSep(s[n])
  {
    if |s| == 1 || isSep(s[1]) then 1 else 1 + PieceLength(s[1..], isSep)
  }

  function Join(pieces: seq<string>, sep: string): string {
    if pieces == [] then ""
    else if |pieces| == 1 then pieces[0]
    else pieces[0] + (sep + Join(pieces[1..], sep))
  }

  /** Free of separators, and not empty. */
  predicate IsPiece(p: string, isSep: char -> bool) {
    p != "" && forall i | 0 <= i < |p| :: !isSep(p[i])
  }

  predicate AllSeparators(s: string, isSep: char -> bool) {
    forall i | 0 <= i < |s| :: isSep(s[i])
  }

  lemma {:induction false} PiecesArePieces(s: string, isSep: char -> bool)
    ensures forall i | 0 <= i < |SplitBy(s, isSep)| :: IsPiece(SplitBy(s, isSep)[i], isSep)
    decreases |s|
  {
    if s != "" {
      if isSep(s[0]) {
        PiecesArePieces(s[1..], isSep);
      } else {
        PiecesArePieces(s[PieceLength(s, isSep)..], isSep);
      }
    }
  }

  lemma {:induction false} PieceLengthIs(s: string, n: nat, isSep: char -> bool)
    requires 1 <= n <= |s|
    requires forall i | 0 <= i < n :: !isSep(s[i])
    requires n < |s| ==> isSep(s[n])
    ensures PieceLength(s, isSep) == n
  {
    if n > 1 {
      PieceLengthIs(s[1..], n - 1, isSep);
    }
  }

  lemma FirstPiece(p: string, rest: string, isSep: char -> bool)
    requires IsPiece(p, isSep) && (rest != "" ==> isSep(rest[0]))
    ensures SplitBy(p + rest, isSep) == [p] + SplitBy(rest, isSep)
  {
    var s := p + rest;
    PieceLengthIs(s, |p|, isSep);
    assert s[..|p|] == p && s[|p|..] == rest;
  }

  lemma {:induction false} SkipSeparators(seps: string, rest: string, isSep: char -> bool)
    requires AllSeparators(seps, isSep)
    ensures SplitBy(seps + rest, isSep) == SplitBy(rest, isSep)
  {
    if seps == "" {
      assert seps + rest == rest;
    } else {
      assert (seps + rest)[1..] == seps[1..] + rest;
      SkipSeparators(seps[1..], rest, isSep);
    }
  }

  /** Splitting finds the pieces that were joined, whatever separators stand after them. */
  lemma {:induction false} SplitJoined(pieces: seq<string>, sep: string, after: string, isSep: char -> bool)
    requires forall i | 0 <= i < |pieces| :: IsPiece(pieces[i], isSep)
    requires sep != "" && AllSeparators(sep, isSep) && AllSeparators(after, isSep)
    ensures SplitBy(Join(pieces, sep) + after, isSep) == pieces
  {
    if |pieces| <= 1 {
      SkipSeparators(after, "", isSep);
      assert after + "" == after;
      if |pieces| == 1 {
        FirstPiece(pieces[0], after, isSep);
      } else {
        assert "" + after == after;
      }
    } else {
      var rest := Join(pieces[1..], sep) + after;
      SplitJoined(pieces[1..], sep, after, isSep);
      FirstPiece(pieces[0], sep + rest, isSep);
      SkipSeparators(sep, rest, isSep);
      assert Join(pieces, sep) + after == pieces[0] + (sep + rest);
    }
  }

  /** `split_whitespace`, collected. */
  function SplitWords(s: string): seq<string> {
    SplitBy(s, IsWhitespace)
  }

  // ----- Splitting at every slash -----

  /** The pieces of `s.split('/')`, empty ones included. */
  function SplitSlash(s: string): (parts: seq<string>)
    ensures |parts| >= 1
  {
    if s == "" then [""]
    else
      var rest := SplitSlash(s[1..]);
      if s[0] == '/' then [""] + rest else [[s[0]] + rest[0]] + rest[1..]
  }

  lemma {:induction false} SplitSlashNone(s: string)
    requires '/' !in s
    ensures SplitSlash(s) == [s]
  {
    if s != "" {
      SplitSlashNone(s[1..]);
      assert [s[0]] + s[1..] == s;
    }
  }

  lemma {:induction false} SplitSlashFirst(a: string, rest: string)
    requires '/' !in a
    ensures SplitSlash(a + ("/" + rest)) == [a] + SplitSlash(rest)
  {
    if a == "" {
      assert ("" + ("/" + rest))[1..] == rest;
    } else {
      assert (a + ("/" + rest))[1..] == a[1..] + ("/" + rest);
      SplitSlashFirst(a[1..], rest);
      assert [a[0]] + a[1..] == a;
    }
  }

  /** Splitting undoes joining pieces without slashes. */
  lemma {:induction false} SplitSlashJoined(parts: seq<string>)
    requires parts != [] && forall i | 0 <= i < |parts| :: '/' !in parts[i]
    ensures SplitSlash(Join(parts, "/")) == parts
  {
    if |parts| == 1 {
      SplitSlashNone(parts[0]);
    } else {
      SplitSlashJoined(parts[1..]);
      SplitSlashFirst(parts[0], Join(parts[1..], "/"));
    }
  }

  /** And joining undoes splitting. */
  lemma {:induction false} SplitSlashBack(s: string)
    ensures forall i | 0 <= i < |SplitSlash(s)| :: '/' !in SplitSlash(s)[i]
    ensures Join(SplitSlash(s), "/") == s
  {
    if s != "" {
      var rest := SplitSlash(s[1..]);
      SplitSlashBack(s[1..]);
      assert s == [s[0]] + s[1..];
      if s[0] == '/' {
        assert SplitSlash(s)[1..] == rest;
      } else {
        assert SplitSlash(s)[1..] == rest[1..];
      }
    }
  }
}
