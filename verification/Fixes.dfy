/** Choosing among the fixes rules offer for one file, and editing them into its text. */
module Fixes {
  import opened Words
  import opened Utf8
  import opened Sorting

  /** A replacement for the bytes `start..end` of a file. */
  datatype Fix = Fix(start: nat, end: nat, replacement: string, safe: bool)

  datatype FixOutcome = FixOutcome(source: Bytes, applied: nat, skipped: nat)

  predicate Overlaps(a: Fix, b: Fix) {
    a.start < b.end && b.start < a.end
  }

  predicate Fits(fix: Fix, len: nat) {
    fix.start <= fix.end && fix.end <= len
  }

  predicate Eligible(fix: Fix, len: nat) {
    fix.safe && Fits(fix, len)
  }

  /** By start, then by end. */
  predicate FixLe(a: Fix, b: Fix) {
    a.start < b.start || (a.start == b.start && a.end <= b.end)
  }

  /** The safe fixes that fit, in the order the source offers them. */
  function Candidates(fixes: seq<Fix>, len: nat): (r: seq<Fix>)
    ensures forall f | f in r :: Eligible(f, len)
  {
    if fixes == [] then []
    else
      var rest := Candidates(fixes[..|fixes| - 1], len);
      var fix := fixes[|fixes| - 1];
      if Eligible(fix, len) then rest + [fix] else rest
  }

  /** The candidates are the safe fixes whose range is one of the text's, each as often as it is offered. */
  lemma CandidatesExactly(fixes: seq<Fix>, len: nat, f: Fix)
    ensures f in Candidates(fixes, len) <==> f in fixes && f.safe && f.start <= f.end <= len
    ensures multiset(Candidates(fixes, len))[f]
         == if f.safe && f.start <= f.end <= len then multiset(fixes)[f] else 0
  {
    CandidatesOfPermutation(fixes, len, f);
    assert f in multiset(fixes) <==> f in fixes;
    assert f in multiset(Candidates(fixes, len)) <==> f in Candidates(fixes, len);
  }

  /** So a suggestion is never chosen. */
  lemma ChosenAreSafe(fixes: seq<Fix>, len: nat, f: Fix)
    requires f in Selected(fixes, len)
    ensures f in fixes && f.safe && f.start <= f.end <= len
  {
    hide Selected, Candidates;
    SelectedAreLaid(fixes, len);
    CandidatesExactly(fixes, len, f);
  }

  lemma NoneIsSafe(source: Bytes, fixes: seq<Fix>)
    requires forall f | f in fixes :: !f.safe
    ensures Candidates(fixes, |source|) == [] && Edited(source, fixes) == source
  {
    forall f
      ensures f !in Candidates(fixes, |source|)
    {
      CandidatesExactly(fixes, |source|, f);
    }
    if Candidates(fixes, |source|) != [] {
      CandidatesExactly(fixes, |source|, Candidates(fixes, |source|)[0]);
    }
    assert source[0..] == source;
  }

  // ----- Selection -----

  /** What a fix in sorted order is compared with: the last one chosen, and no other. */
  predicate Claimed(chosen: seq<Fix>, fix: Fix) {
    chosen != [] && Overlaps(chosen[|chosen| - 1], fix)
  }

  function Chosen(sorted: seq<Fix>): seq<Fix> {
    if sorted == [] then []
    else
      var before := Chosen(sorted[..|sorted| - 1]);
      var fix := sorted[|sorted| - 1];
      if Claimed(before, fix) then before else before + [fix]
  }

  function Skipped(sorted: seq<Fix>): seq<Fix> {
    if sorted == [] then []
    else
      var before := Skipped(sorted[..|sorted| - 1]);
      var fix := sorted[|sorted| - 1];
      if Claimed(Chosen(sorted[..|sorted| - 1]), fix) then before + [fix] else before
  }

  function Selected(fixes: seq<Fix>, len: nat): seq<Fix> {
    Chosen(SortBy(Candidates(fixes, len), FixLe))
  }

  lemma FixLeIsPreorder()
    ensures Preorder(FixLe)
  {
  }

  /** Each fix ends no later than the next one starts, within `from..len`. */
  predicate Laid(fixes: seq<Fix>, from: nat, len: nat)
    decreases |fixes|
  {
    if fixes == [] then from <= len
    else from <= fixes[0].start <= fixes[0].end && Laid(fixes[1..], fixes[0].end, len)
  }

  lemma {:induction false} LaidSnoc(fixes: seq<Fix>, fix: Fix, from: nat, len: nat)
    requires Laid(fixes, from, len) && Fits(fix, len)
    requires (if fixes == [] then from else fixes[|fixes| - 1].end) <= fix.start
    ensures Laid(fixes + [fix], from, len)
  {
    if fixes != [] {
      assert (fixes + [fix])[1..] == fixes[1..] + [fix];
      LaidSnoc(fixes[1..], fix, fixes[0].end, len);
    }
  }

  /**
    Comparing with the last chosen fix is enough. In sorted order a fix that does not overlap it
    starts at or after its end: even an empty fix cannot slip in front of a longer one with the
    same start, because the shorter sorts first.
  */
  lemma {:induction false} ChosenAreLaid(sorted: seq<Fix>, len: nat)
    requires SortedBy(sorted, FixLe)
    requires forall f | f in sorted :: Fits(f, len)
    ensures Laid(Chosen(sorted), 0, len)
    ensures forall c | c in Chosen(sorted) :: c in sorted
  {
    if sorted != [] {
      var n := |sorted| - 1;
      var before, fix := Chosen(sorted[..n]), sorted[n];
      ChosenAreLaid(sorted[..n], len);
      if !Claimed(before, fix) {
        if before != [] {
          var last := before[|before| - 1];
          assert last in before;
          var i :| 0 <= i < n && sorted[i] == last;
          assert FixLe(sorted[i], sorted[n]);
        }
        LaidSnoc(before, fix, 0, len);
      }
    }
  }

  lemma {:induction false} LaidApart(fixes: seq<Fix>, from: nat, len: nat, i: nat, j: nat)
    requires Laid(fixes, from, len) && i < j < |fixes|
    ensures from <= fixes[i].start <= fixes[i].end <= fixes[j].start <= fixes[j].end <= len
    decreases |fixes|
  {
    if i == 0 {
      LaidBounds(fixes[1..], fixes[0].end, len, j - 1);
    } else {
      LaidApart(fixes[1..], fixes[0].end, len, i - 1, j - 1);
    }
  }

  lemma {:induction false} LaidBounds(fixes: seq<Fix>, from: nat, len: nat, i: nat)
    requires Laid(fixes, from, len) && i < |fixes|
    ensures from <= fixes[i].start <= fixes[i].end <= len
    decreases |fixes|
  {
    if i == 0 {
      LaidWithin(fixes[1..], fixes[0].end, len);
    } else {
      LaidBounds(fixes[1..], fixes[0].end, len, i - 1);
    }
  }

  lemma {:induction false} LaidWithin(fixes: seq<Fix>, from: nat, len: nat)
    requires Laid(fixes, from, len)
    ensures from <= len
    decreases |fixes|
  {
    if fixes != [] {
      LaidWithin(fixes[1..], fixes[0].end, len);
    }
  }

  lemma ChoiceNext(front: seq<Fix>, last: Fix)
    ensures Chosen(front + [last]) == if Claimed(Chosen(front), last) then Chosen(front) else Chosen(front) + [last]
    ensures Skipped(front + [last]) == if Claimed(Chosen(front), last) then Skipped(front) + [last] else Skipped(front)
  {
    hide Claimed;
    assert (front + [last])[..|front|] == front;
  }

  /** Every candidate is chosen or skipped. */
  lemma {:induction false} ChosenAndSkipped(sorted: seq<Fix>)
    ensures multiset(Chosen(sorted)) + multiset(Skipped(sorted)) == multiset(sorted)
  {
    if sorted == [] {
      assert Chosen([]) == [] && Skipped([]) == [];
    } else {
      hide Claimed, Chosen, Skipped;
      var n := |sorted| - 1;
      var front, last := sorted[..n], sorted[n];
      ChosenAndSkipped(front);
      assert sorted == front + [last];
      ChoiceNext(front, last);
      OneMore(front, last);
      OneMoreOnEither(multiset(Chosen(front)), multiset(Skipped(front)), last);
      if Claimed(Chosen(front), last) {
        OneMore(Skipped(front), last);
      } else {
        OneMore(Chosen(front), last);
      }
    }
  }

  /** Whatever is skipped overlaps a chosen fix. */
  lemma {:induction false} SkippedOverlapChosen(sorted: seq<Fix>, s: Fix)
    requires s in Skipped(sorted)
    ensures exists c | c in Chosen(sorted) :: Overlaps(c, s)
  {
    var n := |sorted| - 1;
    var before := Chosen(sorted[..n]);
    var c: Fix;
    if s in Skipped(sorted[..n]) {
      SkippedOverlapChosen(sorted[..n], s);
      c :| c in before && Overlaps(c, s);
    } else {
      c := before[|before| - 1];
    }
    assert c in before;
    assert c in Chosen(sorted);
  }

  /** The chosen fixes of a file are laid out one after the other. */
  lemma SelectedAreLaid(fixes: seq<Fix>, len: nat)
    ensures Laid(Selected(fixes, len), 0, len)
    ensures forall c | c in Selected(fixes, len) :: c in Candidates(fixes, len)
  {
    var candidates := Candidates(fixes, len);
    FixLeIsPreorder();
    SortBySorted(candidates, FixLe);
    SortByMembers(candidates, FixLe);
    ChosenAreLaid(SortBy(candidates, FixLe), len);
  }

  /** No two chosen fixes touch the same bytes, adjacent or not in the order chosen. */
  lemma SelectedAreApart(fixes: seq<Fix>, len: nat, i: nat, j: nat)
    requires i < j < |Selected(fixes, len)|
    ensures Selected(fixes, len)[i].end <= Selected(fixes, len)[j].start
    ensures !Overlaps(Selected(fixes, len)[i], Selected(fixes, len)[j])
  {
    SelectedAreLaid(fixes, len);
    LaidApart(Selected(fixes, len), 0, len, i, j);
  }

  /** A candidate is left out only when a chosen fix already claims some of its bytes. */
  lemma LeftOutIsClaimed(fixes: seq<Fix>, len: nat, s: Fix)
    requires s in Candidates(fixes, len) && s !in Selected(fixes, len)
    ensures exists c | c in Selected(fixes, len) :: Overlaps(c, s)
  {
    var candidates := Candidates(fixes, len);
    var sorted := SortBy(candidates, FixLe);
    SortByMembers(candidates, FixLe);
    ChosenAndSkipped(sorted);
    assert s in multiset(sorted);
    assert s in multiset(Chosen(sorted)) || s in multiset(Skipped(sorted));
    SkippedOverlapChosen(sorted, s);
  }

  lemma {:induction false} CandidatesOfPermutation(a: seq<Fix>, len: nat, f: Fix)
    ensures multiset(Candidates(a, len))[f] == if Eligible(f, len) then multiset(a)[f] else 0
  {
    if a != [] {
      assert a == a[..|a| - 1] + [a[|a| - 1]];
      CandidatesOfPermutation(a[..|a| - 1], len, f);
    }
  }

  // ----- Editing -----

  /** All the replacements at once, left to right: the source from `from` on, with each range replaced. */
  function Splice(source: Bytes, from: nat, fixes: seq<Fix>): Bytes
    requires Laid(fixes, from, |source|)
    decreases |fixes|
  {
    if fixes == [] then source[from..]
    else
      LaidWithin(fixes[1..], fixes[0].end, |source|);
      source[from..fixes[0].start] + Encode(fixes[0].replacement) + Splice(source, fixes[0].end, fixes[1..])
  }

  predicate OnBoundaries(source: Bytes, fix: Fix) {
    IsBoundary(source, fix.start) && IsBoundary(source, fix.end)
  }

  /** The chosen fixes both of whose ends are character boundaries of the original text. */
  function Kept(source: Bytes, fixes: seq<Fix>): (r: seq<Fix>)
    ensures forall f | f in r :: OnBoundaries(source, f)
  {
    if fixes == [] then []
    else if OnBoundaries(source, fixes[0]) then [fixes[0]] + Kept(source, fixes[1..])
    else Kept(source, fixes[1..])
  }

  lemma {:induction false} LaidLater(fixes: seq<Fix>, from: nat, later: nat, len: nat)
    requires Laid(fixes, later, len) && from <= later
    ensures Laid(fixes, from, len)
  {
    LaidWithin(fixes, later, len);
  }

  lemma {:induction false} KeptAreLaid(source: Bytes, fixes: seq<Fix>, from: nat)
    requires Laid(fixes, from, |source|)
    ensures Laid(Kept(source, fixes), from, |source|)
    decreases |fixes|
  {
    if fixes != [] {
      KeptAreLaid(source, fixes[1..], fixes[0].end);
      if OnBoundaries(source, fixes[0]) {
        assert Kept(source, fixes)[1..] == Kept(source, fixes[1..]);
      } else {
        LaidLater(Kept(source, fixes[1..]), from, fixes[0].end, |source|);
      }
    }
  }

  lemma EncodeIsValid(text: string)
    ensures Valid(Encode(text))
  {
    EncodeThenDecode(text);
  }

  /** Replacing ranges that fall on character boundaries leaves a text. */
  lemma {:induction false} SpliceIsValid(source: Bytes, from: nat, fixes: seq<Fix>)
    requires Valid(source) && IsBoundary(source, from) && Laid(fixes, from, |source|)
    requires forall f | f in fixes :: OnBoundaries(source, f)
    ensures Valid(Splice(source, from, fixes))
    decreases |fixes|
  {
    hide Valid, IsBoundary, Encode;
    LaidWithin(fixes, from, |source|);
    SplitAtBoundary(source, from);
    if fixes != [] {
      var f := fixes[0];
      LaidWithin(fixes[1..], f.end, |source|);
      assert f in fixes;
      SpliceIsValid(source, f.end, fixes[1..]);
      BoundaryOfSuffix(source, from, f.start);
      SplitAtBoundary(source[from..], f.start - from);
      assert source[from..][..f.start - from] == source[from..f.start];
      EncodeIsValid(f.replacement);
      ValidConcat(source[from..f.start], Encode(f.replacement));
      ValidConcat(source[from..f.start] + Encode(f.replacement), Splice(source, f.end, fixes[1..]));
    }
  }

  lemma BoundaryOfSuffix(source: Bytes, from: nat, i: nat)
    requires from <= i <= |source| && IsBoundary(source, i)
    ensures IsBoundary(source[from..], i - from)
  {
  }

  lemma SpliceFrom(source: Bytes, fixes: seq<Fix>, m: nat)
    requires Laid(fixes, m, |source|)
    ensures Laid(fixes, 0, |source|) && m <= |source|
    ensures Splice(source, 0, fixes) == source[..m] + Splice(source, m, fixes)
  {
    LaidWithin(fixes, m, |source|);
    LaidLater(fixes, 0, m, |source|);
    if fixes != [] {
      LaidBounds(fixes, m, |source|, 0);
      var f := fixes[0];
      LaidWithin(fixes[1..], f.end, |source|);
      assert source[0..f.start] == source[..m] + source[m..f.start];
      Regrouped(source[..m], source[m..f.start], Encode(f.replacement));
      Regrouped(source[..m], source[m..f.start] + Encode(f.replacement), Splice(source, f.end, fixes[1..]));
    } else {
      assert source[0..] == source[..m] + source[m..];
    }
  }

  lemma ConcatSplit(a: Bytes, b: Bytes)
    ensures (a + b)[..|a|] == a && (a + b)[|a|..] == b
  {
  }

  /** Up to the first edit the spliced text is the source, and splicing may start anywhere there. */
  lemma SpliceSplit(source: Bytes, fixes: seq<Fix>, m: nat)
    requires Laid(fixes, m, |source|)
    ensures Laid(fixes, 0, |source|) && m <= |source|
    ensures m <= |Splice(source, 0, fixes)|
    ensures Splice(source, 0, fixes)[..m] == source[..m]
    ensures Splice(source, 0, fixes)[m..] == Splice(source, m, fixes)
  {
    SpliceFrom(source, fixes, m);
    ConcatSplit(source[..m], Splice(source, m, fixes));
  }

  /** The part of the buffer that is still to be edited reads its boundaries as the source does. */
  lemma BoundariesAgree(source: Bytes, fixes: seq<Fix>, m: nat, i: nat)
    requires Valid(source) && Laid(fixes, m, |source|) && i <= m
    requires forall f | f in fixes :: OnBoundaries(source, f)
    ensures Laid(fixes, 0, |source|)
    ensures IsBoundary(Splice(source, 0, fixes), i) <==> IsBoundary(source, i)
  {
    LaidWithin(fixes, m, |source|);
    LaidLater(fixes, 0, m, |source|);
    if fixes == [] {
      assert source[0..] == source;
    } else {
      var start := fixes[0].start;
      assert fixes[0] in fixes;
      LaidBounds(fixes, m, |source|, 0);
      SpliceSplit(source, fixes, start);
      var text := Splice(source, 0, fixes);
      SpliceIsValid(source, start, fixes);
      if i < start {
        assert text[..start][i] == source[..start][i];
      } else if text[start..] != [] {
        ValidStart(text[start..]);
        assert text[start..][0] == text[start];
      }
    }
  }

  /** Putting one more fix in front of those already edited in. */
  lemma SpliceStep(source: Bytes, fix: Fix, fixes: seq<Fix>)
    requires fix.start <= fix.end && Laid(fixes, fix.end, |source|)
    ensures Laid(fixes, 0, |source|) && Laid([fix] + fixes, 0, |source|)
    ensures fix.end <= |Splice(source, 0, fixes)|
    ensures Splice(source, 0, [fix] + fixes)
            == Splice(source, 0, fixes)[..fix.start] + Encode(fix.replacement) + Splice(source, 0, fixes)[fix.end..]
  {
    SpliceSplit(source, fixes, fix.end);
    assert ([fix] + fixes)[1..] == fixes;
    assert Splice(source, 0, fixes)[..fix.start] == source[..fix.end][..fix.start] == source[0..fix.start];
  }

  lemma LaidSuffix(fixes: seq<Fix>, i: nat, from: nat, len: nat)
    requires Laid(fixes, from, len) && i < |fixes|
    ensures fixes[i].start <= fixes[i].end && Laid(fixes[i + 1..], fixes[i].end, len)
    decreases i
  {
    if i > 0 {
      LaidSuffix(fixes[1..], i - 1, fixes[0].end, len);
      assert fixes[1..][i..] == fixes[i + 1..];
    }
  }

  /** `replace_range`, last fix first, each declined if it would cut a character of the buffer. */
  method Edit(source: Bytes, chosen: seq<Fix>) returns (text: Bytes)
    requires Valid(source) && Laid(chosen, 0, |source|)
    ensures Laid(Kept(source, chosen), 0, |source|)
    ensures text == Splice(source, 0, Kept(source, chosen))
    ensures Valid(text)
  {
    text := source;
    var i := |chosen|;
    assert source[0..] == source;
    while i > 0
      invariant 0 <= i <= |chosen|
      invariant Laid(Kept(source, chosen[i..]), 0, |source|)
      invariant text == Splice(source, 0, Kept(source, chosen[i..]))
    {
      i := i - 1;
      var fix := chosen[i];
      ghost var kept := Kept(source, chosen[i + 1..]);
      LaidSuffix(chosen, i, 0, |source|);
      KeptAreLaid(source, chosen[i + 1..], fix.end);
      BoundariesAgree(source, kept, fix.end, fix.start);
      BoundariesAgree(source, kept, fix.end, fix.end);
      SpliceStep(source, fix, kept);
      assert chosen[i..][1..] == chosen[i + 1..];
      if IsBoundary(text, fix.start) && IsBoundary(text, fix.end) {
        text := text[..fix.start] + Encode(fix.replacement) + text[fix.end..];
      }
    }
    assert chosen[0..] == chosen;
    SpliceIsValid(source, 0, Kept(source, chosen));
  }

  method Filter(fixes: seq<Fix>, len: nat) returns (candidates: seq<Fix>)
    ensures candidates == Candidates(fixes, len)
  {
    candidates := [];
    for i := 0 to |fixes|
      invariant candidates == Candidates(fixes[..i], len)
    {
      assert fixes[..i + 1][..i] == fixes[..i];
      if Eligible(fixes[i], len) {
        candidates := candidates + [fixes[i]];
      }
    }
    assert fixes[..|fixes|] == fixes;
  }

  method Choose(sorted: seq<Fix>) returns (chosen: seq<Fix>, skipped: nat)
    ensures chosen == Chosen(sorted)
    ensures |chosen| + skipped == |sorted|
  {
    chosen, skipped := [], 0;
    for i := 0 to |sorted|
      invariant chosen == Chosen(sorted[..i])
      invariant |chosen| + skipped == i
    {
      assert sorted[..i + 1][..i] == sorted[..i];
      if Claimed(chosen, sorted[i]) {
        skipped := skipped + 1;
        continue;
      }
      chosen := chosen + [sorted[i]];
    }
    assert sorted[..|sorted|] == sorted;
  }

  /** What editing the chosen fixes in leaves. */
  function Edited(source: Bytes, fixes: seq<Fix>): Bytes {
    SelectedAreLaid(fixes, |source|);
    KeptAreLaid(source, Selected(fixes, |source|), 0);
    Splice(source, 0, Kept(source, Selected(fixes, |source|)))
  }

  /** `apply`. */
  method Apply(source: Bytes, fixes: seq<Fix>) returns (outcome: FixOutcome)
    requires Valid(source)
    ensures Laid(Kept(source, Selected(fixes, |source|)), 0, |source|)
    ensures outcome.source == Edited(source, fixes) == Splice(source, 0, Kept(source, Selected(fixes, |source|)))
    ensures Valid(outcome.source)
    ensures outcome.applied == |Selected(fixes, |source|)|
    ensures outcome.applied == |Kept(source, Selected(fixes, |source|))|
       <==> forall f | f in Selected(fixes, |source|) :: OnBoundaries(source, f)
    ensures outcome.applied + outcome.skipped == |Candidates(fixes, |source|)|
    ensures (forall f | f in fixes :: !f.safe) ==> outcome == FixOutcome(source, 0, 0)
  {
    if forall f | f in fixes :: !f.safe {
      NoneIsSafe(source, fixes);
    }
    var candidates := Filter(fixes, |source|);
    var chosen, skipped := Choose(SortBy(candidates, FixLe));
    SelectedAreLaid(fixes, |source|);
    KeptAreAllExactly(source, Selected(fixes, |source|));
    var text := Edit(source, chosen);
    outcome := FixOutcome(text, |chosen|, skipped);
  }

  // ----- What the count of applied fixes counts -----

  lemma {:induction false} KeptAreAllExactly(source: Bytes, fixes: seq<Fix>)
    ensures |Kept(source, fixes)| <= |fixes|
    ensures |fixes| == |Kept(source, fixes)| <==> forall f | f in fixes :: OnBoundaries(source, f)
  {
    if fixes != [] {
      KeptAreAllExactly(source, fixes[1..]);
      assert fixes[0] in fixes;
    }
  }

  /** A fix that starts inside a two-byte character is counted as applied, and nothing is edited. */
  lemma DeclinedIsCounted()
    ensures var source, fix := Encode("\U{E9}"), Fix(1, 2, "", true);
      Valid(source) && Selected([fix], |source|) == [fix] && Kept(source, [fix]) == []
  {
    var source, fix := Encode("\U{E9}"), Fix(1, 2, "", true);
    EncodeThenDecode("\U{E9}");
    assert source == EncodeChar('\U{E9}') + [] == [0xC3, 0xA9];
    assert [fix][..0] == [] && [fix][1..] == [];
    assert Candidates([], 2) == [] && Candidates([fix], 2) == [fix];
    assert SortBy([fix], FixLe) == [fix];
    assert Chosen([]) == [] && Chosen([fix]) == [fix];
  }

  // ----- Where every byte goes -----

  /** How far the fixes ending at or before `i` push what follows them. */
  function Shift(fixes: seq<Fix>, i: nat): int {
    if fixes == [] then 0
    else
      (if fixes[0].end <= i then |Encode(fixes[0].replacement)| - (fixes[0].end - fixes[0].start) else 0)
      + Shift(fixes[1..], i)
  }

  predicate Outside(fixes: seq<Fix>, i: nat) {
    forall f | f in fixes :: i < f.start || f.end <= i
  }

  lemma {:induction false} ShiftBefore(fixes: seq<Fix>, from: nat, len: nat, i: nat)
    requires Laid(fixes, from, len) && i < from
    ensures Shift(fixes, i) == 0
    decreases |fixes|
  {
    if fixes != [] {
      ShiftBefore(fixes[1..], fixes[0].end, len, i);
    }
  }

  lemma SpliceFirst(source: Bytes, from: nat, fixes: seq<Fix>)
    requires fixes != [] && Laid(fixes, from, |source|)
    ensures var f := fixes[0];
      && from <= f.start <= f.end <= |source| && Laid(fixes[1..], f.end, |source|)
      && Splice(source, from, fixes)
         == source[from..f.start] + Encode(f.replacement) + Splice(source, f.end, fixes[1..])
  {
    LaidWithin(fixes[1..], fixes[0].end, |source|);
  }

  lemma FirstOfThree(p: Bytes, q: Bytes, r: Bytes, k: nat)
    requires k < |p|
    ensures k < |p + q + r| && (p + q + r)[k] == p[k]
  {
  }

  lemma LastOfThree(p: Bytes, q: Bytes, r: Bytes, k: nat)
    requires k < |r|
    ensures |p| + |q| + k < |p + q + r| && (p + q + r)[|p| + |q| + k] == r[k]
  {
  }

  /** Every byte outside the edited ranges survives, moved only by the edits in front of it. */
  lemma {:induction false} SpliceKeepsTheRest(source: Bytes, from: nat, fixes: seq<Fix>, i: nat)
    requires Laid(fixes, from, |source|) && from <= i < |source| && Outside(fixes, i)
    ensures 0 <= i - from + Shift(fixes, i) < |Splice(source, from, fixes)|
    ensures Splice(source, from, fixes)[i - from + Shift(fixes, i)] == source[i]
    decreases |fixes|
  {
    if fixes == [] {
      assert Splice(source, from, fixes) == source[from..];
    } else {
      hide Splice, Encode, Laid;
      var f := fixes[0];
      assert f in fixes;
      SpliceFirst(source, from, fixes);
      var head, piece := source[from..f.start], Encode(f.replacement);
      if i < f.start {
        ShiftBefore(fixes[1..], f.end, |source|, i);
        FirstOfThree(head, piece, Splice(source, f.end, fixes[1..]), i - from);
      } else {
        assert Outside(fixes[1..], i);
        SpliceKeepsTheRest(source, f.end, fixes[1..], i);
        LastOfThree(head, piece, Splice(source, f.end, fixes[1..]), i - f.end + Shift(fixes[1..], i));
      }
    }
  }

  /** And each replacement stands where its range was, moved the same way. */
  lemma {:induction false} SplicePlacesReplacements(source: Bytes, from: nat, fixes: seq<Fix>, k: nat)
    requires Laid(fixes, from, |source|) && k < |fixes|
    ensures var at := fixes[k].start - from + Shift(fixes[..k], fixes[k].start);
            var piece := Encode(fixes[k].replacement);
            0 <= at && at + |piece| <= |Splice(source, from, fixes)|
            && Splice(source, from, fixes)[at..at + |piece|] == piece
    decreases |fixes|
  {
    hide Splice, Encode, Laid;
    var f := fixes[0];
    SpliceFirst(source, from, fixes);
    var head, rest := source[from..f.start] + Encode(f.replacement), Splice(source, f.end, fixes[1..]);
    var piece := Encode(fixes[k].replacement);
    if k == 0 {
      assert fixes[..0] == [];
      Within(source[from..f.start] + piece + rest, source[from..f.start], piece, rest);
    } else {
      LaidApart(fixes, from, |source|, 0, k);
      SplicePlacesReplacements(source, f.end, fixes[1..], k - 1);
      assert fixes[..k][1..] == fixes[1..][..k - 1];
      var at := fixes[k].start - f.end + Shift(fixes[1..][..k - 1], fixes[k].start);
      var after := rest[at + |piece|..];
      assert rest == rest[..at] + piece + after;
      Regrouped(head, rest[..at], piece);
      Regrouped(head, rest[..at] + piece, after);
      Within(head + rest, head + rest[..at], piece, after);
    }
  }

  lemma Within(whole: Bytes, a: Bytes, piece: Bytes, b: Bytes)
    requires whole == a + piece + b
    ensures whole[|a|..|a| + |piece|] == piece
  {
  }
}
