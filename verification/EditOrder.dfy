/** Whether the edited text depends on the order fixes are offered in: exactly when a kept one has a rival that
  * cannot be exchanged for it. */
module EditOrder {
  import opened Words
  import opened Utf8
  import opened Sorting
  import opened Fixes
  import opened FixOrder

  /** However the fixes are arranged, the text is the same. */
  ghost predicate OutputFree(source: Bytes, fixes: seq<Fix>) {
    forall other: seq<Fix> | multiset(other) == multiset(fixes) :: Edited(source, other) == Edited(source, fixes)
  }

  /** Fixes of one range that can take each other's place: the same, or insertions that read alike either way round. */
  predicate Exchangeable(x: Fix, y: Fix) {
    x == y || (x.start == x.end && x.replacement + y.replacement == y.replacement + x.replacement)
  }

  /** Candidates for one range that is taken and can be edited are exchangeable. */
  ghost predicate Settled(source: Bytes, fixes: seq<Fix>) {
    forall x, y | x in Candidates(fixes, |source|) && y in Candidates(fixes, |source|) && Tie(x, y)
                  && (x.start, x.end) in Taken(fixes, |source|) && OnBoundaries(source, x) :: Exchangeable(x, y)
  }

  // ----- Insertions at one place are all chosen, or none is -----

  lemma {:induction false} InsertionRun(sorted: seq<Fix>, p: nat, i: nat)
    requires p <= i < |sorted| && IsPicked(sorted, p) && sorted[p].start == sorted[p].end
    requires forall m | p <= m <= i :: Tie(sorted[m], sorted[p])
    ensures IsPicked(sorted, i)
  {
    if i > p {
      InsertionRun(sorted, p, i - 1);
      assert sorted[..i][..i - 1] == sorted[..i - 1];
      assert Chosen(sorted[..i]) == Chosen(sorted[..i - 1]) + [sorted[i - 1]];
    }
  }

  ghost predicate RangePicked(sorted: seq<Fix>, f: Fix) {
    exists i :: 0 <= i < |sorted| && Tie(sorted[i], f) && IsPicked(sorted, i)
  }

  lemma RangePickedSnoc(sorted: seq<Fix>, f: Fix)
    requires sorted != []
    ensures var n := |sorted| - 1;
      RangePicked(sorted, f) <==> RangePicked(sorted[..n], f) || (Tie(sorted[n], f) && IsPicked(sorted, n))
  {
    hide Chosen, Claimed;
    var n := |sorted| - 1;
    var front := sorted[..n];
    forall i | 0 <= i < n
      ensures IsPicked(front, i) == IsPicked(sorted, i) && front[i] == sorted[i]
    {
      assert front[..i] == sorted[..i];
    }
    if RangePicked(front, f) {
      var i :| 0 <= i < n && Tie(front[i], f) && IsPicked(front, i);
      assert Tie(sorted[i], f) && IsPicked(sorted, i);
    }
    if RangePicked(sorted, f) {
      var i :| 0 <= i < |sorted| && Tie(sorted[i], f) && IsPicked(sorted, i);
      if i < n {
        assert Tie(front[i], f) && IsPicked(front, i);
      }
    }
  }

  lemma InsertionJoinsItsTies(sorted: seq<Fix>, f: Fix)
    requires SortedBy(sorted, FixLe) && sorted != [] && f.start == f.end && Tie(sorted[|sorted| - 1], f)
    ensures var n := |sorted| - 1;
      && (RangePicked(sorted[..n], f) ==> IsPicked(sorted, n))
      && (IsPicked(sorted, n) ==> RangePicked(sorted[..n], f) || f !in sorted[..n])
  {
    hide Chosen, Claimed;
    var n := |sorted| - 1;
    var front := sorted[..n];
    if RangePicked(front, f) {
      var i :| 0 <= i < n && Tie(front[i], f) && IsPicked(front, i);
      assert front[..i] == sorted[..i];
      forall m | i <= m <= n
        ensures Tie(sorted[m], sorted[i])
      {
        assert FixLe(sorted[i], sorted[m]) || i == m;
        assert FixLe(sorted[m], sorted[n]) || m == n;
      }
      InsertionRun(sorted, i, n);
    }
    if IsPicked(sorted, n) {
      var p := FirstOfTies(sorted, n);
      if p < n {
        assert front[..p] == sorted[..p];
        assert Tie(front[p], f) && IsPicked(front, p);
      }
    }
  }

  /** So each insertion is chosen as often as it is offered, or not at all. */
  lemma {:induction false} InsertionCount(sorted: seq<Fix>, f: Fix)
    requires SortedBy(sorted, FixLe) && f.start == f.end
    ensures multiset(Chosen(sorted))[f] == if RangePicked(sorted, f) then multiset(sorted)[f] else 0
  {
    hide RangePicked, Claimed;
    if sorted == [] {
      NothingPicked(f);
    } else {
      var n := |sorted| - 1;
      var front, last := sorted[..n], sorted[n];
      InsertionCount(front, f);
      RangePickedSnoc(sorted, f);
      assert sorted == front + [last];
      if Tie(last, f) {
        InsertionJoinsItsTies(sorted, f);
        assert f !in front ==> multiset(front)[f] == 0;
      }
    }
  }

  lemma NothingPicked(f: Fix)
    ensures !RangePicked([], f)
  {
  }

  // ----- What is kept -----

  lemma {:induction false} KeptCount(source: Bytes, s: seq<Fix>, f: Fix)
    ensures multiset(Kept(source, s))[f] == if OnBoundaries(source, f) then multiset(s)[f] else 0
  {
    if s != [] {
      KeptCount(source, s[1..], f);
      assert s == [s[0]] + s[1..];
    }
  }

  lemma {:induction false} CountByPosition(s: seq<Fix>, t: seq<Fix>, f: Fix)
    requires |s| == |t| && forall k | 0 <= k < |s| :: s[k] == f <==> t[k] == f
    ensures multiset(s)[f] == multiset(t)[f]
  {
    if s != [] {
      CountByPosition(s[1..], t[1..], f);
      assert s == [s[0]] + s[1..] && t == [t[0]] + t[1..];
    }
  }

  function SortedCandidates(fixes: seq<Fix>, len: nat): seq<Fix> {
    SortBy(Candidates(fixes, len), FixLe)
  }

  lemma SortedCandidatesAreSorted(fixes: seq<Fix>, len: nat)
    ensures SortedBy(SortedCandidates(fixes, len), FixLe)
    ensures forall x :: x in SortedCandidates(fixes, len) <==> x in Candidates(fixes, len)
    ensures multiset(SortedCandidates(fixes, len)) == multiset(Candidates(fixes, len))
  {
    FixLeIsPreorder();
    SortBySorted(Candidates(fixes, len), FixLe);
    SortByMembers(Candidates(fixes, len), FixLe);
  }

  lemma SamePicking(s: seq<Fix>, t: seq<Fix>, f: Fix)
    requires |s| == |t| && Ranges(s) == Ranges(t) && Picks(s) == Picks(t)
    ensures RangePicked(s, f) == RangePicked(t, f)
  {
    hide Chosen, Claimed, Picks;
    forall i | 0 <= i < |s|
      ensures IsPicked(s, i) == IsPicked(t, i) && Tie(s[i], f) == Tie(t[i], f)
    {
      PicksArePicked(s, i);
      PicksArePicked(t, i);
      assert Ranges(s)[i] == Ranges(t)[i];
    }
  }

  /** Rearranging settled fixes leaves the same fix at each chosen place, insertions aside. */
  lemma SameReplacementsKept(source: Bytes, a: seq<Fix>, b: seq<Fix>, f: Fix, k: nat)
    requires Settled(source, a) && multiset(a) == multiset(b) && f.start < f.end && OnBoundaries(source, f)
    requires |Selected(a, |source|)| == |Selected(b, |source|)| && k < |Selected(a, |source|)|
    requires Ranges(Selected(a, |source|)) == Ranges(Selected(b, |source|))
    ensures Selected(a, |source|)[k] == f <==> Selected(b, |source|)[k] == f
  {
    hide Selected, Candidates, Taken;
    var x, y := Selected(a, |source|)[k], Selected(b, |source|)[k];
    assert Ranges(Selected(a, |source|))[k] == Ranges(Selected(b, |source|))[k];
    SelectedAreLaid(a, |source|);
    SelectedAreLaid(b, |source|);
    CandidatesPermute(a, b, |source|);
    assert x in Selected(a, |source|) && y in Selected(b, |source|);
    assert y in multiset(Candidates(b, |source|));
    assert x in Candidates(a, |source|) && y in Candidates(a, |source|) && Tie(x, y);
    TakenAreChosen(a, |source|);
    if x == f || y == f {
      assert Exchangeable(x, y);
    }
  }

  lemma SameChosenRanges(a: seq<Fix>, b: seq<Fix>, len: nat)
    requires multiset(a) == multiset(b)
    ensures |Selected(a, len)| == |Selected(b, len)| && Ranges(Selected(a, len)) == Ranges(Selected(b, len))
  {
    hide Candidates, Picks, Chosen, Ranges;
    SameLayout(a, b, len);
    RangesOfChosen(SortedCandidates(a, len));
    RangesOfChosen(SortedCandidates(b, len));
  }

  lemma SameKept(source: Bytes, a: seq<Fix>, b: seq<Fix>)
    requires Settled(source, a) && multiset(a) == multiset(b)
    ensures multiset(Kept(source, Selected(a, |source|))) == multiset(Kept(source, Selected(b, |source|)))
  {
    hide Settled, Kept, Picks, Chosen, Candidates, RangePicked, OnBoundaries, SortBy, Ranges;
    var len := |source|;
    var sa, sb := SortedCandidates(a, len), SortedCandidates(b, len);
    SameLayout(a, b, len);
    SameChosenRanges(a, b, len);
    SortedCandidatesAreSorted(a, len);
    SortedCandidatesAreSorted(b, len);
    forall f: Fix
      ensures multiset(Kept(source, Selected(a, len)))[f] == multiset(Kept(source, Selected(b, len)))[f]
    {
      KeptCount(source, Selected(a, len), f);
      KeptCount(source, Selected(b, len), f);
      if OnBoundaries(source, f) {
        if f.start == f.end {
          InsertionCount(sa, f);
          InsertionCount(sb, f);
          SamePicking(sa, sb, f);
        } else if f.start < f.end {
          forall k | 0 <= k < |Selected(a, len)|
            ensures Selected(a, len)[k] == f <==> Selected(b, len)[k] == f
          {
            SameReplacementsKept(source, a, b, f, k);
          }
          CountByPosition(Selected(a, len), Selected(b, len), f);
        } else {
          NoInvertedFix(a, len, f);
          NoInvertedFix(b, len, f);
        }
      }
    }
  }

  lemma NoInvertedFix(fixes: seq<Fix>, len: nat, f: Fix)
    requires f.start > f.end
    ensures multiset(Selected(fixes, len))[f] == 0
  {
    hide Selected;
    SelectedAreLaid(fixes, len);
    assert f in multiset(Selected(fixes, len)) <==> f in Selected(fixes, len);
  }

  // ----- Splicing exchangeable fixes in any order -----

  lemma SwapInsertions(source: Bytes, from: nat, x: Fix, y: Fix, rest: seq<Fix>)
    requires Tie(x, y) && Exchangeable(x, y) && (x == y || x.start == x.end)
    requires Laid([x, y] + rest, from, |source|)
    ensures Laid([y, x] + rest, from, |source|)
    ensures Splice(source, from, [x, y] + rest) == Splice(source, from, [y, x] + rest)
  {
    if x != y {
      EncodeConcat(x.replacement, y.replacement);
      EncodeConcat(y.replacement, x.replacement);
      assert ([x, y] + rest)[1..] == [y] + rest && ([y] + rest)[1..] == rest;
      assert ([y, x] + rest)[1..] == [x] + rest && ([x] + rest)[1..] == rest;
      TwoInsertions(source, from, x, y, rest);
      TwoInsertions(source, from, y, x, rest);
    }
  }

  lemma TwoInsertions(source: Bytes, from: nat, x: Fix, y: Fix, rest: seq<Fix>)
    requires Tie(x, y) && x.start == x.end && from <= x.start && Laid(rest, x.start, |source|)
    ensures Laid([x, y] + rest, from, |source|) && x.start <= |source|
    ensures Splice(source, from, [x, y] + rest)
         == source[from..x.start] + (Encode(x.replacement) + Encode(y.replacement)) + Splice(source, x.start, rest)
  {
    hide Splice, Encode;
    TwoAsOne(x, y, rest);
    LaidWithin(rest, x.start, |source|);
    LaidHead(y, rest, x.start, |source|);
    LaidHead(x, [y] + rest, from, |source|);
    SpliceNext(source, from, x, [y] + rest);
    SpliceNext(source, x.start, y, rest);
    Inserted(source, x.start, Encode(x.replacement), Encode(y.replacement), Splice(source, x.start, rest));
    Regrouped(source[from..x.start], Encode(x.replacement) + Encode(y.replacement), Splice(source, x.start, rest));
  }

  lemma SameTailSplice(source: Bytes, from: nat, z: Fix, r: seq<Fix>, q: seq<Fix>)
    requires from <= z.start <= z.end && Laid(r, z.end, |source|) && Laid(q, z.end, |source|)
    requires Splice(source, z.end, r) == Splice(source, z.end, q)
    ensures Laid([z] + r, from, |source|) && Laid([z] + q, from, |source|)
    ensures Splice(source, from, [z] + r) == Splice(source, from, [z] + q)
  {
    LaidWithin(r, z.end, |source|);
    assert ([z] + r)[1..] == r && ([z] + q)[1..] == q;
  }

  lemma WithoutTail(s: seq<Fix>, j: nat)
    requires 0 < j < |s|
    ensures Without(s, j) == [s[0]] + Without(s[1..], j - 1)
  {
  }

  lemma {:induction false} BringToFront(source: Bytes, from: nat, s: seq<Fix>, j: nat)
    requires Laid(s, from, |source|) && j < |s|
    requires forall i | 0 <= i < j :: Tie(s[i], s[j]) && Exchangeable(s[i], s[j])
    ensures Laid([s[j]] + Without(s, j), from, |source|)
    ensures Splice(source, from, s) == Splice(source, from, [s[j]] + Without(s, j))
    decreases j
  {
    if j == 0 {
      assert [s[0]] + Without(s, 0) == s;
    } else {
      hide Exchangeable, Splice, Without, Tie;
      var z, c, rest := s[0], s[j], s[1..];
      assert s == [z] + rest && c == rest[j - 1];
      forall i | 0 <= i < j - 1
        ensures Tie(rest[i], c) && Exchangeable(rest[i], c)
      {
        assert rest[i] == s[i + 1];
      }
      BringToFront(source, z.end, rest, j - 1);
      var others := Without(rest, j - 1);
      SameTailSplice(source, from, z, rest, [c] + others);
      TwoAsOne(z, c, others);
      SameOrInsertion(z, c);
      SwapInsertions(source, from, z, c, others);
      WithoutTail(s, j);
      TwoAsOne(c, z, others);
    }
  }

  lemma LaidHead(z: Fix, rest: seq<Fix>, from: nat, len: nat)
    requires from <= z.start <= z.end && Laid(rest, z.end, len)
    ensures Laid([z] + rest, from, len)
  {
    assert ([z] + rest)[1..] == rest;
  }

  lemma SameOrInsertion(x: Fix, y: Fix)
    requires Exchangeable(x, y)
    ensures x == y || x.start == x.end
  {
  }

  /** What stands in front of the other list's first fix is an insertion at its place. */
  lemma TiesInFront(s: seq<Fix>, t: seq<Fix>, from: nat, len: nat, j: nat, i: nat)
    requires Laid(s, from, len) && Laid(t, from, len) && multiset(s) == multiset(t)
    requires s != [] && i < j < |t| && t[j] == s[0]
    ensures Tie(t[i], s[0]) && t[i] in s
  {
    assert t[i] in multiset(t) && t[i] in multiset(s);
    var k :| 0 <= k < |s| && s[k] == t[i];
    LaidApart(t, from, len, i, j);
    if k > 0 {
      LaidApart(s, from, len, 0, k);
    }
  }

  lemma SameRest(s: seq<Fix>, t: seq<Fix>, j: nat)
    requires multiset(s) == multiset(t) && s != [] && j < |t| && t[j] == s[0]
    ensures multiset(s[1..]) == multiset(Without(t, j))
  {
    hide Without;
    RemoveOne(t, j);
    assert s == [s[0]] + s[1..];
    assert multiset(s[1..]) == multiset(s) - multiset{s[0]};
    assert multiset(Without(t, j)) == multiset(t) - multiset{s[0]};
  }

  lemma {:induction false} SpliceOfPermutation(source: Bytes, from: nat, s: seq<Fix>, t: seq<Fix>)
    requires Laid(s, from, |source|) && Laid(t, from, |source|) && multiset(s) == multiset(t)
    requires forall x, y | x in s && y in s && Tie(x, y) :: Exchangeable(x, y)
    ensures Splice(source, from, s) == Splice(source, from, t)
    decreases |s|
  {
    hide Exchangeable, Splice, Without, Tie;
    if s == [] {
      assert |multiset(t)| == 0;
    } else {
      var c := s[0];
      assert c in multiset(t);
      var j :| 0 <= j < |t| && t[j] == c;
      forall i | 0 <= i < j
        ensures Tie(t[i], c) && Exchangeable(t[i], c)
      {
        TiesInFront(s, t, from, |source|, j, i);
      }
      BringToFront(source, from, t, j);
      var rest := Without(t, j);
      SameRest(s, t, j);
      assert ([c] + rest)[1..] == rest && s == [c] + s[1..];
      SpliceOfPermutation(source, c.end, s[1..], rest);
      SameTailSplice(source, from, c, s[1..], rest);
    }
  }

  lemma SettledIsOutputFree(source: Bytes, a: seq<Fix>, b: seq<Fix>)
    requires Settled(source, a) && multiset(a) == multiset(b)
    ensures Edited(source, a) == Edited(source, b)
  {
    hide Selected, Candidates, Taken, Exchangeable, Splice;
    var len := |source|;
    var ka, kb := Kept(source, Selected(a, len)), Kept(source, Selected(b, len));
    SelectedAreLaid(a, len);
    SelectedAreLaid(b, len);
    KeptAreLaid(source, Selected(a, len), 0);
    KeptAreLaid(source, Selected(b, len), 0);
    SameKept(source, a, b);
    TakenAreChosen(a, len);
    forall x | x in ka
      ensures x in Selected(a, len) && OnBoundaries(source, x)
    {
      KeptCount(source, Selected(a, len), x);
      assert x in multiset(ka);
      assert x in multiset(Selected(a, len));
    }
    SpliceOfPermutation(source, 0, ka, kb);
  }

  // ----- Two arrangements that put a pair of rivals one way and the other -----

  lemma {:induction false} InsertedAt(x: Fix, s: seq<Fix>, q: nat)
    requires q <= |s| && (forall i | 0 <= i < q :: !FixLe(x, s[i])) && (q < |s| ==> FixLe(x, s[q]))
    ensures InsertBy(x, s, FixLe) == s[..q] + ([x] + s[q..])
  {
    if q == 0 {
      assert s[..0] == [] && s[0..] == s;
    } else {
      assert !FixLe(x, s[0]);
      InsertedAt(x, s[1..], q - 1);
      SplitTail(s, q, [x]);
    }
  }

  lemma SplitTail(s: seq<Fix>, q: nat, mid: seq<Fix>)
    requires 0 < q <= |s|
    ensures [s[0]] + (s[1..][..q - 1] + (mid + s[1..][q - 1..])) == s[..q] + (mid + s[q..])
  {
  }

  lemma Put(u: seq<Fix>, y: Fix, v: seq<Fix>) returns (r: seq<Fix>)
    ensures r == u + ([y] + v) && |r| == |u| + 1 + |v| && r[|u|] == y
    ensures r[..|u|] == u && r[|u|..] == [y] + v
    ensures forall i | 0 <= i < |u| :: r[i] == u[i]
  {
    r := u + ([y] + v);
  }

  lemma TwoAsOne(x: Fix, y: Fix, v: seq<Fix>)
    ensures [x] + ([y] + v) == [x, y] + v
  {
  }

  lemma {:induction false} PlaceFor(x: Fix, s: seq<Fix>) returns (q: nat)
    ensures q <= |s| && (forall i | 0 <= i < q :: !FixLe(x, s[i])) && (q < |s| ==> FixLe(x, s[q]))
  {
    q := 0;
    if s != [] && !FixLe(x, s[0]) {
      var k := PlaceFor(x, s[1..]);
      q := k + 1;
    }
  }

  lemma InsertTie(x: Fix, y: Fix, s: seq<Fix>, q: nat)
    requires Tie(x, y)
    requires q <= |s| && (forall i | 0 <= i < q :: !FixLe(x, s[i])) && (q < |s| ==> FixLe(x, s[q]))
    ensures InsertBy(x, InsertBy(y, s, FixLe), FixLe) == s[..q] + ([x, y] + s[q..])
  {
    hide InsertBy;
    InsertedAt(y, s, q);
    var r := Put(s[..q], y, s[q..]);
    InsertedAt(x, r, q);
    TwoAsOne(x, y, s[q..]);
  }

  /** Two ties inserted into a list come to stand in front of their other ties, the last inserted first. */
  lemma InsertTwo(x: Fix, y: Fix, s: seq<Fix>) returns (q: nat)
    requires Tie(x, y)
    ensures q <= |s|
    ensures InsertBy(x, InsertBy(y, s, FixLe), FixLe) == s[..q] + ([x, y] + s[q..])
    ensures InsertBy(y, InsertBy(x, s, FixLe), FixLe) == s[..q] + ([y, x] + s[q..])
    ensures forall i | 0 <= i < q :: !Tie(s[i], x)
  {
    hide InsertBy;
    q := PlaceFor(x, s);
    InsertTie(x, y, s, q);
    InsertTie(y, x, s, q);
  }

  /** Choosing on from what is chosen already. */
  function Extend(chosen: seq<Fix>, v: seq<Fix>): seq<Fix>
    decreases |v|
  {
    if v == [] then chosen
    else Extend(if Claimed(chosen, v[0]) then chosen else chosen + [v[0]], v[1..])
  }

  lemma {:induction false} ChosenExtends(s: seq<Fix>, v: seq<Fix>)
    ensures Chosen(s + v) == Extend(Chosen(s), v)
    decreases |v|
  {
    if v == [] {
      assert s + v == s;
    } else {
      assert s + v == (s + [v[0]]) + v[1..];
      assert (s + [v[0]])[..|s|] == s;
      ChosenExtends(s + [v[0]], v[1..]);
    }
  }

  /** What is chosen after `last` depends on its range. */
  function After(last: Fix, v: seq<Fix>): seq<Fix>
    decreases |v|
  {
    if v == [] then []
    else if Overlaps(last, v[0]) then After(last, v[1..])
    else [v[0]] + After(v[0], v[1..])
  }

  lemma {:induction false} ExtendAfter(before: seq<Fix>, last: Fix, v: seq<Fix>)
    ensures Extend(before + [last], v) == before + [last] + After(last, v)
    decreases |v|
  {
    if v == [] {
      assert before + [last] + [] == before + [last];
    } else if Overlaps(last, v[0]) {
      ExtendAfter(before, last, v[1..]);
    } else {
      ExtendAfter(before + [last], v[0], v[1..]);
      assert before + [last] + [v[0]] + After(v[0], v[1..]) == before + [last] + After(last, v);
    }
  }

  lemma {:induction false} AfterTie(x: Fix, y: Fix, v: seq<Fix>)
    requires Tie(x, y)
    ensures After(x, v) == After(y, v)
    decreases |v|
  {
    if v != [] && Overlaps(x, v[0]) {
      AfterTie(x, y, v[1..]);
    }
  }

  /** A picked pair of ties: both, if they are insertions, else the first. */
  function Pair(x: Fix, y: Fix): seq<Fix> {
    if x.start == x.end then [x, y] else [x]
  }

  lemma ChosenPair(u: seq<Fix>, x: Fix, y: Fix, v: seq<Fix>)
    requires Tie(x, y) && x.start <= x.end && !Claimed(Chosen(u), x)
    ensures Chosen(u + ([x, y] + v)) == Chosen(u) + Pair(x, y) + After(x, v)
  {
    var before := Chosen(u);
    ChosenExtends(u, [x, y] + v);
    assert ([x, y] + v)[1..] == [y] + v && ([y] + v)[1..] == v;
    assert Extend(before, [x, y] + v) == Extend(before + [x], [y] + v);
    if x.start == x.end {
      ExtendAfter(before + [x], y, v);
      AfterTie(x, y, v);
      assert before + [x] + [y] == before + [x, y];
    } else {
      ExtendAfter(before, x, v);
    }
  }

  lemma {:induction false} KeptConcat(source: Bytes, a: seq<Fix>, b: seq<Fix>)
    ensures Kept(source, a + b) == Kept(source, a) + Kept(source, b)
  {
    if a == [] {
      assert a + b == b;
    } else {
      assert (a + b)[1..] == a[1..] + b;
      KeptConcat(source, a[1..], b);
    }
  }

  lemma KeptPair(source: Bytes, a: seq<Fix>, x: Fix, y: Fix, b: seq<Fix>)
    requires Tie(x, y) && OnBoundaries(source, x)
    ensures Kept(source, a + Pair(x, y) + b) == Kept(source, a) + Pair(x, y) + Kept(source, b)
  {
    hide OnBoundaries;
    KeptConcat(source, a + Pair(x, y), b);
    KeptConcat(source, a, Pair(x, y));
    SameBoundaries(source, x, y);
    KeptOne(source, x);
    KeptOne(source, y);
    KeptConcat(source, [x], [y]);
    assert [x] + [y] == [x, y];
  }

  lemma KeptOne(source: Bytes, x: Fix)
    requires OnBoundaries(source, x)
    ensures Kept(source, [x]) == [x]
  {
    assert [x][1..] == [];
    assert Kept(source, []) == [];
  }

  lemma SameBoundaries(source: Bytes, x: Fix, y: Fix)
    requires Tie(x, y)
    ensures OnBoundaries(source, x) == OnBoundaries(source, y)
  {
  }

  // ----- What their texts have in common -----

  /** The text edited up to `stop`. */
  function Upto(source: Bytes, from: nat, fixes: seq<Fix>, stop: nat): Bytes
    requires Laid(fixes, from, stop) && stop <= |source|
    decreases |fixes|
  {
    LaidWithin(fixes, from, stop);
    if fixes == [] then source[from..stop]
    else
      LaidWithin(fixes[1..], fixes[0].end, stop);
      source[from..fixes[0].start] + (Encode(fixes[0].replacement) + Upto(source, fixes[0].end, fixes[1..], stop))
  }

  lemma {:induction false} LaidAround(a: seq<Fix>, c: Fix, b: seq<Fix>, from: nat, len: nat)
    requires Laid(a + ([c] + b), from, len)
    ensures c.start <= c.end <= len && Laid(a, from, c.start) && Laid(b, c.end, len)
    decreases |a|
  {
    if a == [] {
      assert a + ([c] + b) == [c] + b && ([c] + b)[1..] == b;
      LaidWithin(b, c.end, len);
    } else {
      assert (a + ([c] + b))[1..] == a[1..] + ([c] + b);
      LaidAround(a[1..], c, b, a[0].end, len);
    }
  }

  lemma UptoNext(source: Bytes, from: nat, a: seq<Fix>, stop: nat)
    requires a != [] && Laid(a, from, stop) && stop <= |source|
    ensures from <= a[0].start <= a[0].end <= stop && Laid(a[1..], a[0].end, stop)
    ensures Upto(source, from, a, stop)
         == source[from..a[0].start] + (Encode(a[0].replacement) + Upto(source, a[0].end, a[1..], stop))
  {
    LaidWithin(a[1..], a[0].end, stop);
  }

  lemma SpliceNext(source: Bytes, from: nat, c: Fix, b: seq<Fix>)
    requires Laid([c] + b, from, |source|)
    ensures from <= c.start <= c.end <= |source| && Laid(b, c.end, |source|)
    ensures Splice(source, from, [c] + b)
         == source[from..c.start] + (Encode(c.replacement) + Splice(source, c.end, b))
  {
    hide Encode;
    assert ([c] + b)[1..] == b;
    LaidWithin(b, c.end, |source|);
  }

  /** The text in front of an edit, the edit, and what follows it. */
  lemma {:induction false} SpliceAround(source: Bytes, from: nat, a: seq<Fix>, c: Fix, b: seq<Fix>)
    requires Laid(a + ([c] + b), from, |source|)
    ensures c.start <= c.end <= |source| && Laid(a, from, c.start) && Laid(b, c.end, |source|)
    ensures Splice(source, from, a + ([c] + b))
         == Upto(source, from, a, c.start) + (Encode(c.replacement) + Splice(source, c.end, b))
    decreases |a|
  {
    LaidAround(a, c, b, from, |source|);
    if a == [] {
      assert a + ([c] + b) == [c] + b;
      SpliceNext(source, from, c, b);
    } else {
      hide Encode, Splice, Upto, Laid;
      var z, rest := a[0], a[1..];
      assert a == [z] + rest;
      assert a + ([c] + b) == [z] + (rest + ([c] + b));
      SpliceNext(source, from, z, rest + ([c] + b));
      SpliceAround(source, z.end, rest, c, b);
      UptoNext(source, from, a, c.start);
      var head, mid, last := source[from..z.start], Upto(source, z.end, rest, c.start), Splice(source, c.end, b);
      Regrouped(Encode(z.replacement), mid, Encode(c.replacement) + last);
      Regrouped(head, Encode(z.replacement) + mid, Encode(c.replacement) + last);
    }
  }

  // ----- A rival that cannot be exchanged changes the text -----

  lemma PairInFront(fixes: seq<Fix>, len: nat, x: Fix, y: Fix) returns (rest: seq<Fix>)
    requires x in Candidates(fixes, len) && y in Candidates(fixes, len) && x != y
    ensures multiset([x, y] + rest) == multiset(fixes) && multiset([y, x] + rest) == multiset(fixes)
  {
    hide Candidates, Without;
    CandidatesOfPermutation(fixes, len, x);
    CandidatesOfPermutation(fixes, len, y);
    assert x in multiset(Candidates(fixes, len)) && y in multiset(Candidates(fixes, len));
    assert x in multiset(fixes) && y in multiset(fixes);
    var j :| 0 <= j < |fixes| && fixes[j] == x;
    var others := Without(fixes, j);
    RemoveOne(fixes, j);
    assert y in multiset(others);
    var k :| 0 <= k < |others| && others[k] == y;
    rest := Without(others, k);
    RemoveOne(others, k);
  }

  lemma SortedPair(x: Fix, y: Fix, rest: seq<Fix>, len: nat) returns (u: seq<Fix>, v: seq<Fix>)
    requires Eligible(x, len) && Eligible(y, len) && Tie(x, y)
    ensures SortedCandidates([x, y] + rest, len) == u + ([x, y] + v)
    ensures SortedCandidates([y, x] + rest, len) == u + ([y, x] + v)
    ensures forall f | f in u :: !Tie(f, x)
  {
    hide Candidates, InsertBy;
    SortedTwo(x, y, rest, len);
    SortedTwo(y, x, rest, len);
    var s := SortedCandidates(rest, len);
    var q := InsertTwo(x, y, s);
    u, v := s[..q], s[q..];
  }

  lemma SortedTwo(x: Fix, y: Fix, rest: seq<Fix>, len: nat)
    requires Eligible(x, len) && Eligible(y, len)
    ensures SortedCandidates([x, y] + rest, len) == InsertBy(x, InsertBy(y, SortedCandidates(rest, len), FixLe), FixLe)
  {
    hide Candidates, InsertBy, SortBy;
    TwoAsOne(x, y, rest);
    CandidatesCons(x, [y] + rest, len);
    CandidatesCons(y, rest, len);
    var c := Candidates(rest, len);
    SortByCons(y, c);
    SortByCons(x, [y] + c);
  }

  lemma SortByCons(x: Fix, s: seq<Fix>)
    ensures SortBy([x] + s, FixLe) == InsertBy(x, SortBy(s, FixLe), FixLe)
  {
    assert ([x] + s)[1..] == s;
  }

  /** The first of the ties for a taken range is chosen, whatever the order of the fixes. */
  lemma TakenIsPicked(fixes: seq<Fix>, b: seq<Fix>, len: nat, x: Fix, u: seq<Fix>, v: seq<Fix>)
    requires multiset(b) == multiset(fixes) && (x.start, x.end) in Taken(fixes, len)
    requires SortedCandidates(b, len) == u + ([x] + v) && forall f | f in u :: !Tie(f, x)
    ensures !Claimed(Chosen(u), x)
  {
    hide Candidates, Taken, SortedCandidates, Chosen, Claimed;
    var sorted := SortedCandidates(b, len);
    var i := PickOfTaken(fixes, b, len, x);
    SortedCandidatesAreSorted(b, len);
    var first := FirstOfTies(sorted, i);
    assert sorted[|u|] == x && sorted[..|u|] == u;
    assert Tie(sorted[|u|], sorted[i]);
    forall m | 0 <= m < |u|
      ensures !Tie(sorted[m], x)
    {
      assert sorted[m] == u[m] && u[m] in u;
    }
    assert first == |u|;
  }

  lemma PickOfTaken(fixes: seq<Fix>, b: seq<Fix>, len: nat, x: Fix) returns (i: nat)
    requires multiset(b) == multiset(fixes) && (x.start, x.end) in Taken(fixes, len)
    ensures i < |SortedCandidates(b, len)|
    ensures Tie(SortedCandidates(b, len)[i], x) && IsPicked(SortedCandidates(b, len), i)
  {
    hide Candidates, Taken, SortBy, Chosen, Claimed, Picks, Ranges;
    var sorted := SortedCandidates(b, len);
    SameChosenRanges(fixes, b, len);
    TakenAreChosen(fixes, len);
    var k :| 0 <= k < |Taken(fixes, len)| && Taken(fixes, len)[k] == (x.start, x.end);
    assert Ranges(Selected(b, len))[k] == (x.start, x.end);
    i := Picks(sorted)[k];
    PicksArePicked(sorted, i);
  }

  /** What a picked pair of ties puts in the text. */
  function Piece(x: Fix, y: Fix): Bytes {
    if x.start == x.end then Encode(x.replacement) + Encode(y.replacement) else Encode(x.replacement)
  }

  lemma SpliceOfPair(source: Bytes, a: seq<Fix>, x: Fix, y: Fix, b: seq<Fix>)
    requires Tie(x, y) && Laid(a + (Pair(x, y) + b), 0, |source|)
    ensures x.start <= x.end <= |source| && Laid(a, 0, x.start) && Laid(b, x.end, |source|)
    ensures Splice(source, 0, a + (Pair(x, y) + b))
         == Upto(source, 0, a, x.start) + (Piece(x, y) + Splice(source, x.end, b))
  {
    hide Splice, Upto, Laid, Encode;
    if x.start == x.end {
      TwoAsOne(x, y, b);
      SpliceAround(source, 0, a, x, [y] + b);
      SpliceNext(source, x.end, y, b);
      Inserted(source, x.end, Encode(x.replacement), Encode(y.replacement), Splice(source, x.end, b));
    } else {
      SpliceAround(source, 0, a, x, b);
    }
  }

  lemma Inserted(source: Bytes, at: nat, p: Bytes, q: Bytes, r: Bytes)
    requires at <= |source|
    ensures p + (source[at..at] + (q + r)) == (p + q) + r
  {
  }

  lemma PairText(source: Bytes, b: seq<Fix>, x: Fix, y: Fix, u: seq<Fix>, v: seq<Fix>)
    requires SortedCandidates(b, |source|) == u + ([x, y] + v)
    requires Tie(x, y) && x.start <= x.end && OnBoundaries(source, x) && !Claimed(Chosen(u), x)
    ensures var before, after := Kept(source, Chosen(u)), Kept(source, After(x, v));
      && x.end <= |source| && Laid(before, 0, x.start) && Laid(after, x.end, |source|)
      && Edited(source, b)
         == Upto(source, 0, before, x.start) + (Piece(x, y) + Splice(source, x.end, after))
  {
    hide Splice, Upto, Laid, Encode, Candidates, SortBy, Chosen, Claimed, Kept, After, OnBoundaries, Piece, Pair;
    ChosenPair(u, x, y, v);
    KeptPair(source, Chosen(u), x, y, After(x, v));
    SelectedAreLaid(b, |source|);
    KeptAreLaid(source, Selected(b, |source|), 0);
    var before, after := Kept(source, Chosen(u)), Kept(source, After(x, v));
    assert before + Pair(x, y) + after == before + (Pair(x, y) + after);
    SpliceOfPair(source, before, x, y, after);
  }

  lemma Cancelled(p: Bytes, a: Bytes, b: Bytes, q: Bytes)
    requires p + (a + q) == p + (b + q)
    ensures a == b
  {
    assert |a| == |b|;
    forall i | 0 <= i < |a|
      ensures a[i] == b[i]
    {
      assert (p + (a + q))[|p| + i] == a[i] && (p + (b + q))[|p| + i] == b[i];
    }
  }

  lemma SamePieceIsExchangeable(x: Fix, y: Fix)
    requires Tie(x, y) && x.safe == y.safe && Piece(x, y) == Piece(y, x)
    ensures Exchangeable(x, y)
  {
    if x.start == x.end {
      EncodeConcat(x.replacement, y.replacement);
      EncodeConcat(y.replacement, x.replacement);
      EncodeInjective(x.replacement + y.replacement, y.replacement + x.replacement);
    } else {
      EncodeInjective(x.replacement, y.replacement);
    }
  }

  lemma RivalsAreExchangeable(source: Bytes, fixes: seq<Fix>, x: Fix, y: Fix)
    requires OutputFree(source, fixes) && x in Candidates(fixes, |source|) && y in Candidates(fixes, |source|)
    requires Tie(x, y) && (x.start, x.end) in Taken(fixes, |source|) && OnBoundaries(source, x)
    ensures Exchangeable(x, y)
  {
    hide Candidates, Taken, SortedCandidates, Chosen, Claimed, Kept, After, OnBoundaries, Piece, Splice, Upto, Laid,
         Edited;
    if x != y {
      var len := |source|;
      var rest := PairInFront(fixes, len, x, y);
      var u, v := SortedPair(x, y, rest, len);
      var a, b := [x, y] + rest, [y, x] + rest;
      TwoAsOne(x, y, v);
      TwoAsOne(y, x, v);
      SameBoundaries(source, x, y);
      TakenIsPicked(fixes, a, len, x, u, [y] + v);
      TakenIsPicked(fixes, b, len, y, u, [x] + v);
      PairText(source, a, x, y, u, v);
      PairText(source, b, y, x, u, v);
      AfterTie(x, y, v);
      assert Edited(source, a) == Edited(source, b);
      Cancelled(Upto(source, 0, Kept(source, Chosen(u)), x.start), Piece(x, y), Piece(y, x),
                Splice(source, x.end, Kept(source, After(x, v))));
      SamePieceIsExchangeable(x, y);
    }
  }

  /** The edited text depends on the fixes alone exactly when no fix edited in has a rival that cannot be exchanged
    * for it. */
  lemma OutputFreeExactly(source: Bytes, fixes: seq<Fix>)
    ensures OutputFree(source, fixes) <==> Settled(source, fixes)
  {
    hide Candidates, Taken, OnBoundaries, Exchangeable, Edited;
    if Settled(source, fixes) {
      forall other: seq<Fix> | multiset(other) == multiset(fixes)
        ensures Edited(source, other) == Edited(source, fixes)
      {
        SettledIsOutputFree(source, fixes, other);
      }
    }
    if OutputFree(source, fixes) {
      forall x, y | x in Candidates(fixes, |source|) && y in Candidates(fixes, |source|) && Tie(x, y)
                    && (x.start, x.end) in Taken(fixes, |source|) && OnBoundaries(source, x)
        ensures Exchangeable(x, y)
      {
        RivalsAreExchangeable(source, fixes, x, y);
      }
    }
  }

  /** One byte, two replacements for it: the order decides which is written. */
  lemma TextCounterexample()
    ensures !OutputFree([0x78], [Fix(0, 1, "a", true), Fix(0, 1, "b", true)])
  {
    hide Taken, OutputFree, Candidates;
    var x, y := Fix(0, 1, "a", true), Fix(0, 1, "b", true);
    PairIsTaken(x, y, 1);
    assert x in [x, y] && y in [x, y] && Tie(x, y) && OnBoundaries([0x78], x) && !Exchangeable(x, y);
    OutputFreeExactly([0x78], [x, y]);
  }

  /** Rivals inside a character are chosen one way or the other, and neither is edited in. */
  lemma DeclinedRivalsAreHarmless()
    ensures var source, fixes := Encode("\U{E9}"), [Fix(1, 2, "a", true), Fix(1, 2, "b", true)];
      OutputFree(source, fixes) && !OrderFree(fixes, |source|)
  {
    hide Taken, OutputFree, OrderFree, Candidates;
    var x, y := Fix(1, 2, "a", true), Fix(1, 2, "b", true);
    var source := Encode("\U{E9}");
    assert source == EncodeChar('\U{E9}') + [] == [0xC3, 0xA9];
    PairIsTaken(x, y, 2);
    assert x in [x, y] && y in [x, y] && Tie(x, y) && x != y;
    OrderFreeExactly([x, y], 2);
    assert !OnBoundaries(source, x) && !OnBoundaries(source, y);
    OutputFreeExactly(source, [x, y]);
  }
}
