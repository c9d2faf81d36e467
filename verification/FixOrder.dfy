/** Whether the choice among fixes depends on the order they are offered in: exactly when a chosen one has a rival. */
module FixOrder {
  import opened Sorting
  import opened Fixes

  predicate Tie(x: Fix, y: Fix) {
    x.start == y.start && x.end == y.end
  }

  /** However the fixes are arranged, the same are chosen. */
  ghost predicate OrderFree(fixes: seq<Fix>, len: nat) {
    forall other: seq<Fix> | multiset(other) == multiset(fixes) :: Selected(other, len) == Selected(fixes, len)
  }

  // ----- The ranges alone decide which positions are chosen -----

  type Range = (nat, nat)

  predicate RangeLe(a: Range, b: Range) {
    a.0 < b.0 || (a.0 == b.0 && a.1 <= b.1)
  }

  function Ranges(s: seq<Fix>): (r: seq<Range>)
    ensures |r| == |s|
    ensures forall i | 0 <= i < |s| :: r[i] == (s[i].start, s[i].end)
  {
    seq(|s|, i requires 0 <= i < |s| => (s[i].start, s[i].end))
  }

  lemma RangesWithout(s: seq<Fix>, j: nat)
    requires j < |s|
    ensures Ranges(Without(s, j)) == Without(Ranges(s), j)
  {
  }

  lemma {:induction false} RangesOfPermutation(a: seq<Fix>, b: seq<Fix>)
    requires multiset(a) == multiset(b)
    ensures multiset(Ranges(a)) == multiset(Ranges(b))
    decreases |a|
  {
    hide Without;
    if a == [] {
      assert |multiset(b)| == 0;
    } else {
      assert a[0] in multiset(b);
      var j :| 0 <= j < |b| && b[j] == a[0];
      RemoveOne(a, 0);
      RemoveOne(b, j);
      assert multiset(Without(a, 0)) == multiset(a) - multiset{a[0]};
      assert multiset(Without(b, j)) == multiset(b) - multiset{a[0]};
      WithoutIsShorter(a, 0);
      RangesOfPermutation(Without(a, 0), Without(b, j));
      RangesWithout(a, 0);
      RangesWithout(b, j);
      RemoveOne(Ranges(a), 0);
      RemoveOne(Ranges(b), j);
    }
  }

  lemma SameRanges(a: seq<Fix>, b: seq<Fix>)
    requires multiset(a) == multiset(b) && SortedBy(a, FixLe) && SortedBy(b, FixLe)
    ensures |a| == |b| && Ranges(a) == Ranges(b)
  {
    RangesOfPermutation(a, b);
    SortedIsUnique(Ranges(a), Ranges(b), RangeLe);
  }

  // ----- The ranges taken, which the order cannot change -----

  predicate RangeClaimed(taken: seq<Range>, r: Range) {
    taken != [] && taken[|taken| - 1].0 < r.1 && r.0 < taken[|taken| - 1].1
  }

  function Greedy(ranges: seq<Range>): seq<Range> {
    if ranges == [] then []
    else
      var before, r := Greedy(ranges[..|ranges| - 1]), ranges[|ranges| - 1];
      if RangeClaimed(before, r) then before else before + [r]
  }

  /** The ranges some fix is chosen for, found from the candidates' ranges alone. */
  function Taken(fixes: seq<Fix>, len: nat): seq<Range> {
    Greedy(SortBy(Ranges(Candidates(fixes, len)), RangeLe))
  }

  /** No two different candidates replace the same bytes, if any fix is chosen for them. */
  ghost predicate Unrivalled(fixes: seq<Fix>, len: nat) {
    forall x, y | x in Candidates(fixes, len) && y in Candidates(fixes, len) && Tie(x, y)
                  && (x.start, x.end) in Taken(fixes, len) :: x == y
  }

  lemma {:induction false} RangesOfChosen(sorted: seq<Fix>)
    ensures Ranges(Chosen(sorted)) == Greedy(Ranges(sorted))
  {
    if sorted != [] {
      var n := |sorted| - 1;
      var before := Chosen(sorted[..n]);
      RangesOfChosen(sorted[..n]);
      assert Ranges(sorted)[..n] == Ranges(sorted[..n]);
      assert Ranges(before + [sorted[n]]) == Ranges(before) + [(sorted[n].start, sorted[n].end)];
      assert before != [] ==> Ranges(before)[|before| - 1] == (before[|before| - 1].start, before[|before| - 1].end);
    }
  }

  lemma RangesSorted(candidates: seq<Fix>)
    ensures Ranges(SortBy(candidates, FixLe)) == SortBy(Ranges(candidates), RangeLe)
  {
    FixLeIsPreorder();
    SortBySorted(candidates, FixLe);
    SortBySorted(Ranges(candidates), RangeLe);
    RangesOfPermutation(SortBy(candidates, FixLe), candidates);
    SortedIsUnique(Ranges(SortBy(candidates, FixLe)), SortBy(Ranges(candidates), RangeLe), RangeLe);
  }

  /** The taken ranges are those of the chosen fixes. */
  lemma TakenAreChosen(fixes: seq<Fix>, len: nat)
    ensures Ranges(Selected(fixes, len)) == Taken(fixes, len)
    ensures forall c | c in Selected(fixes, len) :: (c.start, c.end) in Taken(fixes, len)
    ensures forall r | r in Taken(fixes, len) :: exists c :: c in Selected(fixes, len) && r == (c.start, c.end)
  {
    hide Chosen, Greedy, Candidates, SortBy;
    var selected := Selected(fixes, len);
    RangesOfChosen(SortBy(Candidates(fixes, len), FixLe));
    RangesSorted(Candidates(fixes, len));
    forall c | c in selected
      ensures (c.start, c.end) in Taken(fixes, len)
    {
      var i :| 0 <= i < |selected| && selected[i] == c;
      assert Ranges(selected)[i] == (c.start, c.end);
    }
    forall r | r in Taken(fixes, len)
      ensures exists c :: c in selected && r == (c.start, c.end)
    {
      var i :| 0 <= i < |Taken(fixes, len)| && Taken(fixes, len)[i] == r;
      assert selected[i] in selected && r == Ranges(selected)[i];
    }
  }

  predicate IsPicked(sorted: seq<Fix>, i: nat)
    requires i < |sorted|
  {
    !Claimed(Chosen(sorted[..i]), sorted[i])
  }

  /** The positions chosen. */
  function Picks(sorted: seq<Fix>): (r: seq<nat>)
    ensures |r| == |Chosen(sorted)|
    ensures forall k | 0 <= k < |r| :: r[k] < |sorted| && Chosen(sorted)[k] == sorted[r[k]]
  {
    if sorted == [] then []
    else
      var n := |sorted| - 1;
      var before := Picks(sorted[..n]);
      if Claimed(Chosen(sorted[..n]), sorted[n]) then before else before + [n]
  }

  lemma {:induction false} PicksArePicked(sorted: seq<Fix>, i: nat)
    requires i < |sorted|
    ensures i in Picks(sorted) <==> IsPicked(sorted, i)
  {
    hide Chosen, Claimed;
    var n := |sorted| - 1;
    if i < n {
      assert sorted[..n][..i] == sorted[..i];
      PicksArePicked(sorted[..n], i);
    } else {
      assert n !in Picks(sorted[..n]);
    }
  }

  lemma SameClaim(a: seq<Fix>, b: seq<Fix>, x: Fix, y: Fix)
    requires |a| == |b| && (a != [] ==> Tie(a[|a| - 1], b[|b| - 1])) && Tie(x, y)
    ensures Claimed(a, x) == Claimed(b, y)
  {
  }

  lemma {:induction false} SamePicks(a: seq<Fix>, b: seq<Fix>)
    requires |a| == |b| && Ranges(a) == Ranges(b)
    ensures Picks(a) == Picks(b)
  {
    hide Claimed, Ranges, Chosen;
    if a != [] {
      var n := |a| - 1;
      assert Ranges(a[..n]) == Ranges(a)[..n] == Ranges(b)[..n] == Ranges(b[..n]);
      SamePicks(a[..n], b[..n]);
      var chosenA, chosenB := Chosen(a[..n]), Chosen(b[..n]);
      assert Ranges(a)[n] == Ranges(b)[n];
      if chosenA != [] {
        var last := Picks(a[..n])[|chosenA| - 1];
        assert Ranges(a)[last] == Ranges(b)[last];
      }
      SameClaim(chosenA, chosenB, a[n], b[n]);
    }
  }

  // ----- The order of fixes for one range -----

  function OfRange(s: seq<Fix>, r: Range): seq<Fix> {
    if s == [] then []
    else if (s[0].start, s[0].end) == r then [s[0]] + OfRange(s[1..], r)
    else OfRange(s[1..], r)
  }

  /** The safe ones, in the order they are offered in. */
  function Offered(fixes: seq<Fix>, r: Range): seq<Fix> {
    if fixes == [] then []
    else if fixes[0].safe && (fixes[0].start, fixes[0].end) == r then [fixes[0]] + Offered(fixes[1..], r)
    else Offered(fixes[1..], r)
  }

  lemma {:induction false} OfRangeInserted(x: Fix, s: seq<Fix>, r: Range)
    ensures OfRange(InsertBy(x, s, FixLe), r) == if (x.start, x.end) == r then [x] + OfRange(s, r) else OfRange(s, r)
  {
    if s == [] || FixLe(x, s[0]) {
      assert InsertBy(x, s, FixLe) == [x] + s && ([x] + s)[1..] == s;
    } else {
      OfRangeInserted(x, s[1..], r);
      var rest := InsertBy(x, s[1..], FixLe);
      assert InsertBy(x, s, FixLe) == [s[0]] + rest && ([s[0]] + rest)[1..] == rest;
    }
  }

  lemma {:induction false} OfRangeSorted(s: seq<Fix>, r: Range)
    ensures OfRange(SortBy(s, FixLe), r) == OfRange(s, r)
  {
    if s != [] {
      OfRangeSorted(s[1..], r);
      OfRangeInserted(s[0], SortBy(s[1..], FixLe), r);
    }
  }

  lemma {:induction false} OfRangeConcat(a: seq<Fix>, b: seq<Fix>, r: Range)
    ensures OfRange(a + b, r) == OfRange(a, r) + OfRange(b, r)
  {
    if a == [] {
      assert a + b == b;
    } else {
      assert (a + b)[1..] == a[1..] + b;
      OfRangeConcat(a[1..], b, r);
    }
  }

  lemma {:induction false} OfferedSnoc(front: seq<Fix>, last: Fix, r: Range)
    ensures Offered(front + [last], r)
         == Offered(front, r) + if last.safe && (last.start, last.end) == r then [last] else []
  {
    if front == [] {
      assert [] + [last] == [last] && [last][1..] == [];
    } else {
      assert (front + [last])[1..] == front[1..] + [last];
      OfferedSnoc(front[1..], last, r);
    }
  }

  lemma {:induction false} CandidatesOfRange(fixes: seq<Fix>, len: nat, r: Range)
    requires r.0 <= r.1 <= len
    ensures OfRange(Candidates(fixes, len), r) == Offered(fixes, r)
  {
    if fixes != [] {
      var front, last := fixes[..|fixes| - 1], fixes[|fixes| - 1];
      assert fixes == front + [last];
      CandidatesOfRange(front, len, r);
      OfferedSnoc(front, last, r);
      OfRangeConcat(Candidates(front, len), [last], r);
      assert [last][1..] == [];
      assert OfRange([last], r) == if (last.start, last.end) == r then [last] else [];
    }
  }

  /** Sorting keeps fixes for one range in the order they are offered in. */
  lemma TiesKeepTheirOrder(fixes: seq<Fix>, len: nat, r: Range)
    requires r.0 <= r.1 <= len
    ensures OfRange(SortBy(Candidates(fixes, len), FixLe), r) == Offered(fixes, r)
  {
    hide SortBy, Candidates;
    OfRangeSorted(Candidates(fixes, len), r);
    CandidatesOfRange(fixes, len, r);
  }

  // ----- Overlapping fixes -----

  /** Of two safe fixes in order the second is chosen exactly when it shares no byte with the first: it starts where the
    * first ends, or later, if it does not start where the first does. */
  lemma TwoChosen(x: Fix, y: Fix, len: nat)
    requires x.safe && y.safe && x.start <= x.end <= len && y.start <= y.end <= len
    requires x.start < y.start || (x.start == y.start && x.end <= y.end)
    ensures Selected([x, y], len) == if x.start < y.end && y.start < x.end then [x] else [x, y]
    ensures x.start < y.start ==> (Selected([x, y], len) == [x, y] <==> x.end <= y.start)
  {
    hide Candidates, Chosen, SortBy;
    NothingChosen(len);
    CandidatesSnoc([], x, len);
    CandidatesSnoc([x], y, len);
    TwoSorted(x, y);
    ChoiceNext([], x);
    ChoiceNext([x], y);
    assert [] + [x] == [x] && [x] + [y] == [x, y];
  }

  lemma TwoSorted(x: Fix, y: Fix)
    requires FixLe(x, y)
    ensures SortBy([x, y], FixLe) == [x, y]
  {
    assert [x, y][1..] == [y] && [y][1..] == [];
    assert SortBy([], FixLe) == [] && SortBy([y], FixLe) == [y];
  }

  lemma PickedAt(sorted: seq<Fix>, i: nat) returns (k: nat)
    requires i < |sorted| && IsPicked(sorted, i)
    ensures k < |Picks(sorted)| && Picks(sorted)[k] == i && Chosen(sorted)[k] == sorted[i]
  {
    hide Chosen, IsPicked;
    PicksArePicked(sorted, i);
    k :| 0 <= k < |Picks(sorted)| && Picks(sorted)[k] == i;
  }

  /** Of two overlapping candidates the later in order is chosen only if the earlier is itself claimed. */
  lemma EarlierWinsUnlessClaimed(sorted: seq<Fix>, len: nat, i: nat, j: nat)
    requires SortedBy(sorted, FixLe) && forall f | f in sorted :: Fits(f, len)
    requires i < j < |sorted| && Overlaps(sorted[i], sorted[j]) && IsPicked(sorted, j)
    ensures !IsPicked(sorted, i)
  {
    hide Chosen, IsPicked;
    if IsPicked(sorted, i) {
      var k := PickedAt(sorted, i);
      var m := PickedAt(sorted, j);
      ChosenAreLaid(sorted, len);
      LaidApart(Chosen(sorted), 0, len, if k < m then k else m, if k < m then m else k);
    }
  }

  lemma CandidatesSnoc(front: seq<Fix>, last: Fix, len: nat)
    requires Eligible(last, len)
    ensures Candidates(front + [last], len) == Candidates(front, len) + [last]
  {
    assert (front + [last])[..|front|] == front;
  }

  lemma SortedStays(s: seq<Fix>)
    requires SortedBy(s, FixLe) && forall x, y | x in s && y in s && Tie(x, y) :: x == y
    ensures SortBy(s, FixLe) == s
  {
    hide SortBy;
    FixLeIsPreorder();
    SortBySorted(s, FixLe);
    SortByMembers(s, FixLe);
    SortedIsUnique(SortBy(s, FixLe), s, FixLe);
  }

  lemma ThreeCandidates(x: Fix, y: Fix, z: Fix, len: nat)
    requires Eligible(x, len) && Eligible(y, len) && Eligible(z, len)
    ensures Candidates([x, y, z], len) == [x, y, z]
  {
    hide Candidates, Eligible;
    NothingChosen(len);
    CandidatesSnoc([], x, len);
    CandidatesSnoc([x], y, len);
    CandidatesSnoc([x, y], z, len);
    assert [] + [x] == [x] && [x] + [y] == [x, y] && [x, y] + [z] == [x, y, z];
  }

  lemma FirstAndThird(x: Fix, y: Fix, z: Fix)
    requires Overlaps(x, y) && !Overlaps(x, z)
    ensures Chosen([x, y, z]) == [x, z]
  {
    hide Chosen, Overlaps;
    NothingChosen(0);
    ChoiceNext([], x);
    ChoiceNext([x], y);
    ChoiceNext([x, y], z);
    assert [] + [x] == [x] && [x] + [y] == [x, y] && [x, y] + [z] == [x, y, z] && [x] + [z] == [x, z];
  }

  /** In a chain of three the last is chosen over the second, which starts earlier and is itself claimed by the
    * first. */
  lemma ChainOfOverlaps(x: Fix, y: Fix, z: Fix, len: nat)
    requires Eligible(x, len) && Eligible(y, len) && Eligible(z, len) && x.start < y.start < z.start
    requires Overlaps(x, y) && Overlaps(y, z) && !Overlaps(x, z)
    ensures Selected([x, y, z], len) == [x, z]
  {
    hide Candidates, Chosen, SortBy, Overlaps;
    ThreeCandidates(x, y, z, len);
    SortedStays([x, y, z]);
    FirstAndThird(x, y, z);
  }

  /** The bytes 0 to 5, 3 to 10 and 8 to 12 are such a chain. */
  lemma ChainCounterexample()
    ensures var x, y, z := Fix(0, 5, "", true), Fix(3, 10, "", true), Fix(8, 12, "", true);
      Overlaps(y, z) && y.start < z.start && Selected([x, y, z], 12) == [x, z]
  {
    ChainOfOverlaps(Fix(0, 5, "", true), Fix(3, 10, "", true), Fix(8, 12, "", true), 12);
  }

  lemma NothingChosen(len: nat)
    ensures Candidates([], len) == [] && Chosen([]) == []
  {
  }

  // ----- Unrivalled choices do not depend on the order -----

  lemma CandidatesPermute(a: seq<Fix>, b: seq<Fix>, len: nat)
    requires multiset(a) == multiset(b)
    ensures multiset(Candidates(a, len)) == multiset(Candidates(b, len))
  {
    forall f: Fix
      ensures multiset(Candidates(a, len))[f] == multiset(Candidates(b, len))[f]
    {
      CandidatesOfPermutation(a, len, f);
      CandidatesOfPermutation(b, len, f);
    }
  }

  /** Two arrangements put the same ranges at the same positions, and choose the same positions. */
  lemma SameLayout(a: seq<Fix>, b: seq<Fix>, len: nat)
    requires multiset(a) == multiset(b)
    ensures var sa, sb := SortBy(Candidates(a, len), FixLe), SortBy(Candidates(b, len), FixLe);
      && multiset(sa) == multiset(sb) && |sa| == |sb| && Ranges(sa) == Ranges(sb) && Picks(sa) == Picks(sb)
  {
    hide Picks, Ranges;
    CandidatesPermute(a, b, len);
    FixLeIsPreorder();
    SortBySorted(Candidates(a, len), FixLe);
    SortBySorted(Candidates(b, len), FixLe);
    SameRanges(SortBy(Candidates(a, len), FixLe), SortBy(Candidates(b, len), FixLe));
    SamePicks(SortBy(Candidates(a, len), FixLe), SortBy(Candidates(b, len), FixLe));
  }

  lemma UnrivalledIsOrderFree(a: seq<Fix>, b: seq<Fix>, len: nat)
    requires Unrivalled(a, len) && multiset(a) == multiset(b)
    ensures Selected(b, len) == Selected(a, len)
  {
    hide Picks, Chosen, Ranges, Candidates, SortBy, Claimed, Taken;
    TakenAreChosen(a, len);
    SelectedAreLaid(a, len);
    var sa, sb := SortBy(Candidates(a, len), FixLe), SortBy(Candidates(b, len), FixLe);
    SameLayout(a, b, len);
    forall k | 0 <= k < |Picks(sa)|
      ensures Chosen(sa)[k] == Chosen(sb)[k]
    {
      var c, x := sa[Picks(sa)[k]], sb[Picks(sa)[k]];
      assert c == Selected(a, len)[k];
      assert Ranges(sa)[Picks(sa)[k]] == Ranges(sb)[Picks(sa)[k]];
      assert Tie(c, x);
      assert x in multiset(sb) && x in multiset(Candidates(a, len));
      assert x in Candidates(a, len);
      assert Chosen(sb)[k] == sb[Picks(sb)[k]];
    }
  }

  // ----- A rivalled choice does -----

  lemma {:induction false} CandidatesCons(y: Fix, rest: seq<Fix>, len: nat)
    requires Eligible(y, len)
    ensures Candidates([y] + rest, len) == [y] + Candidates(rest, len)
  {
    if rest == [] {
      assert [y] + rest == [y];
      assert [y][..0] == [];
    } else {
      var n := |rest| - 1;
      assert ([y] + rest)[..|rest|] == [y] + rest[..n];
      CandidatesCons(y, rest[..n], len);
    }
  }

  /** What is inserted comes to stand in front of its ties. */
  lemma {:induction false} InsertedFirst(y: Fix, s: seq<Fix>) returns (q: nat)
    ensures q < |InsertBy(y, s, FixLe)| && InsertBy(y, s, FixLe)[q] == y
    ensures forall i | 0 <= i < q :: !Tie(InsertBy(y, s, FixLe)[i], y)
  {
    if s == [] || FixLe(y, s[0]) {
      q := 0;
    } else {
      var k := InsertedFirst(y, s[1..]);
      q := k + 1;
    }
  }

  /** Within a run of ties, if the first is claimed then all are. */
  lemma {:induction false} ClaimedRun(sorted: seq<Fix>, p: nat, i: nat)
    requires p <= i < |sorted| && !IsPicked(sorted, p)
    requires forall m | p <= m <= i :: Tie(sorted[m], sorted[p])
    ensures !IsPicked(sorted, i) && Chosen(sorted[..i]) == Chosen(sorted[..p])
  {
    if i > p {
      ClaimedRun(sorted, p, i - 1);
      assert sorted[..i][..i - 1] == sorted[..i - 1];
    }
  }

  /** The first position of a range, if any position of that range is chosen, is chosen. */
  lemma FirstOfTies(sorted: seq<Fix>, i: nat) returns (p: nat)
    requires SortedBy(sorted, FixLe) && i < |sorted| && IsPicked(sorted, i)
    ensures p <= i && Tie(sorted[p], sorted[i]) && IsPicked(sorted, p)
    ensures forall m | 0 <= m < p :: !Tie(sorted[m], sorted[i])
  {
    p := i;
    while p > 0 && Tie(sorted[p - 1], sorted[i])
      invariant p <= i && forall m | p <= m <= i :: Tie(sorted[m], sorted[i])
    {
      p := p - 1;
    }
    forall m | 0 <= m < p
      ensures !Tie(sorted[m], sorted[i])
    {
      assert FixLe(sorted[m], sorted[p - 1]) && FixLe(sorted[p - 1], sorted[i]);
    }
    if !IsPicked(sorted, p) {
      ClaimedRun(sorted, p, i);
    }
  }

  /** The rival put in front of everything else takes the chosen fix's place. */
  lemma RivalTakesOver(a: seq<Fix>, len: nat, c: Fix, x: Fix) returns (b: seq<Fix>)
    requires c in Selected(a, len) && x in Candidates(a, len) && Tie(c, x) && x != c
    ensures multiset(b) == multiset(a) && Selected(b, len) != Selected(a, len)
  {
    hide Picks, Chosen, Ranges, SortBy, IsPicked, Candidates;
    var sa := SortBy(Candidates(a, len), FixLe);
    var k :| 0 <= k < |Chosen(sa)| && Chosen(sa)[k] == c;
    FixLeIsPreorder();
    SortBySorted(Candidates(a, len), FixLe);
    PicksArePicked(sa, Picks(sa)[k]);
    var p := FirstOfTies(sa, Picks(sa)[k]);
    PicksArePicked(sa, p);
    var first :| 0 <= first < |Picks(sa)| && Picks(sa)[first] == p;

    var y := if sa[p] == c then x else c;
    SelectedAreLaid(a, len);
    var q;
    b, q := PutInFront(a, len, y);
    var sb := SortBy(Candidates(b, len), FixLe);
    SameLayout(a, b, len);
    assert Ranges(sa)[p] == Ranges(sb)[p] && Ranges(sa)[q] == Ranges(sb)[q];
    assert p == q;
    assert Chosen(sb)[first] == y && Chosen(sa)[first] == sa[p];
  }

  lemma PutInFront(a: seq<Fix>, len: nat, y: Fix) returns (b: seq<Fix>, q: nat)
    requires y in Candidates(a, len)
    ensures multiset(b) == multiset(a)
    ensures var sb := SortBy(Candidates(b, len), FixLe);
      q < |sb| && sb[q] == y && forall i | 0 <= i < q :: !Tie(sb[i], y)
  {
    hide Candidates;
    CandidatesOfPermutation(a, len, y);
    assert y in multiset(Candidates(a, len));
    assert y in multiset(a);
    var j :| 0 <= j < |a| && a[j] == y;
    b := [y] + Without(a, j);
    RemoveOne(a, j);
    CandidatesCons(y, Without(a, j), len);
    var rest := Candidates(Without(a, j), len);
    assert ([y] + rest)[1..] == rest;
    q := InsertedFirst(y, SortBy(rest, FixLe));
  }

  /** The choice depends on the fixes alone, and not on the order rules ran in, exactly when no chosen fix has a
    * rival. */
  lemma OrderFreeExactly(fixes: seq<Fix>, len: nat)
    ensures OrderFree(fixes, len) <==> Unrivalled(fixes, len)
  {
    hide Selected, Candidates, Taken;
    if Unrivalled(fixes, len) {
      forall other: seq<Fix> | multiset(other) == multiset(fixes)
        ensures Selected(other, len) == Selected(fixes, len)
      {
        UnrivalledIsOrderFree(fixes, other, len);
      }
    } else {
      var x, y :| x in Candidates(fixes, len) && y in Candidates(fixes, len) && Tie(x, y)
                  && (x.start, x.end) in Taken(fixes, len) && x != y;
      TakenAreChosen(fixes, len);
      var c :| c in Selected(fixes, len) && (c.start, c.end) == (x.start, x.end);
      var other := RivalTakesOver(fixes, len, c, if x == c then y else x);
    }
  }

  /** In particular when no two different safe fixes that fit replace the same bytes. */
  lemma DistinctRangesAreOrderFree(fixes: seq<Fix>, len: nat)
    requires forall x, y | x in fixes && y in fixes && Eligible(x, len) && Eligible(y, len) && Tie(x, y) :: x == y
    ensures OrderFree(fixes, len)
  {
    hide Selected, Taken;
    forall x | x in Candidates(fixes, len)
      ensures x in fixes && Eligible(x, len)
    {
      CandidatesOfPermutation(fixes, len, x);
      assert x in multiset(Candidates(fixes, len));
      assert x in multiset(fixes);
    }
    OrderFreeExactly(fixes, len);
  }

  lemma PairIsTaken(x: Fix, y: Fix, len: nat)
    requires Eligible(x, len) && Eligible(y, len) && Tie(x, y)
    ensures Candidates([x, y], len) == [x, y] && (x.start, x.end) in Taken([x, y], len)
  {
    hide Taken, Chosen, SortBy;
    assert [x, y][..1] == [x] && [x][..0] == [];
    assert Candidates([], len) == [] && Candidates([x], len) == [x];
    assert Candidates([x, y], len) == Candidates([x], len) + [y] == [x, y];
    FirstIsChosen(x, y);
    TakenAreChosen([x, y], len);
  }

  lemma FirstIsChosen(x: Fix, y: Fix)
    requires Tie(x, y)
    ensures x in Chosen(SortBy([x, y], FixLe))
  {
    assert [x, y][1..] == [y] && [y][1..] == [];
    assert SortBy([], FixLe) == [] && SortBy([y], FixLe) == [y];
    assert SortBy([x, y], FixLe) == InsertBy(x, [y], FixLe) == [x, y];
    assert [x, y][..1] == [x] && [x][..0] == [];
    assert Chosen([x]) == [x];
  }

  /** Two safe fixes for the same bytes: whichever is offered first is applied. */
  lemma TieCounterexample()
    ensures !OrderFree([Fix(0, 1, "a", true), Fix(0, 1, "b", true)], 1)
  {
    hide Taken, OrderFree, Candidates;
    var x, y := Fix(0, 1, "a", true), Fix(0, 1, "b", true);
    PairIsTaken(x, y, 1);
    assert x in [x, y] && y in [x, y] && Tie(x, y) && x != y;
    OrderFreeExactly([x, y], 1);
  }
}
