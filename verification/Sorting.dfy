/** Byte order, and the stable sort and ordered-map iteration of Rust's standard library. */
module Sorting {
  import opened Words
  import Utf8

  // ----- Byte order -----

  datatype Ordering = Less | Equal | Greater {
    function Reverse(): Ordering {
      match this
      case Less => Greater
      case Equal => Equal
      case Greater => Less
    }

    function Then(next: Ordering): Ordering {
      if Equal? then next else this
    }
  }

  /** Lexicographic comparison of byte strings: a strict prefix comes first. */
  function Compare(a: Bytes, b: Bytes): Ordering {
    if a == [] then (if b == [] then Equal else Less)
    else if b == [] then Greater
    else if a[0] < b[0] then Less
    else if b[0] < a[0] then Greater
    else Compare(a[1..], b[1..])
  }

  /** `str::cmp` compares the bytes of the two texts. */
  function CompareText(a: string, b: string): Ordering {
    Compare(Utf8.Encode(a), Utf8.Encode(b))
  }

  lemma {:induction false} CompareEqual(a: Bytes, b: Bytes)
    ensures Compare(a, b).Equal? <==> a == b
  {
    if a != [] && b != [] && a[0] == b[0] {
      CompareEqual(a[1..], b[1..]);
      assert a == [a[0]] + a[1..] && b == [b[0]] + b[1..];
    }
  }

  lemma {:induction false} CompareReverse(a: Bytes, b: Bytes)
    ensures Compare(b, a) == Compare(a, b).Reverse()
  {
    if a != [] && b != [] {
      CompareReverse(a[1..], b[1..]);
    }
  }

  lemma {:induction false} CompareTransitive(a: Bytes, b: Bytes, c: Bytes)
    requires !Compare(a, b).Greater? && !Compare(b, c).Greater?
    ensures !Compare(a, c).Greater?
    ensures Compare(a, b).Less? || Compare(b, c).Less? ==> Compare(a, c).Less?
  {
    if a != [] && b != [] && c != [] && a[0] == b[0] == c[0] {
      CompareTransitive(a[1..], b[1..], c[1..]);
    }
  }

  lemma {:induction false} CompareCommonPrefix(p: Bytes, a: Bytes, b: Bytes)
    ensures Compare(p + a, p + b) == Compare(a, b)
  {
    if p == [] {
      assert p + a == a && p + b == b;
    } else {
      assert (p + a)[1..] == p[1..] + a && (p + b)[1..] == p[1..] + b;
      CompareCommonPrefix(p[1..], a, b);
    }
  }

  /** The two agree up to a byte, which is smaller in the first. */
  predicate PartsBelow(a: Bytes, b: Bytes, n: nat) {
    n < |a| && n < |b| && a[..n] == b[..n] && a[n] < b[n]
  }

  lemma CompareParted(a: Bytes, b: Bytes, n: nat)
    requires PartsBelow(a, b, n)
    ensures Compare(a, b).Less?
  {
    hide Compare;
    assert a == a[..n] + a[n..] && b == a[..n] + b[n..];
    CompareCommonPrefix(a[..n], a[n..], b[n..]);
    FirstByteDecides(a[n..], b[n..]);
  }

  lemma FirstByteDecides(a: Bytes, b: Bytes)
    requires a != [] && b != [] && a[0] < b[0]
    ensures Compare(a, b).Less?
  {
  }

  lemma {:induction false} WhereTheyPart(a: Bytes, b: Bytes) returns (n: nat)
    requires Compare(a, b).Less? && !(a <= b)
    ensures PartsBelow(a, b, n)
  {
    if a[0] == b[0] {
      var m := WhereTheyPart(a[1..], b[1..]);
      n := m + 1;
      assert a[..n] == [a[0]] + a[1..][..m] && b[..n] == [b[0]] + b[1..][..m];
    } else {
      n := 0;
    }
  }

  /** Byte strings are ordered by the first byte they differ in, and a strict prefix comes first. */
  lemma CompareExactly(a: Bytes, b: Bytes)
    ensures Compare(a, b).Less? <==> (a <= b && a != b) || exists n :: PartsBelow(a, b, n)
  {
    hide Compare, PartsBelow;
    if Compare(a, b).Less? && !(a <= b) {
      var n := WhereTheyPart(a, b);
    }
    if Compare(a, b).Less? && a == b {
      CompareEqual(a, b);
    }
    if a <= b && a != b {
      assert b == a + b[|a|..] && a == a + [];
      CompareCommonPrefix(a, [], b[|a|..]);
      NothingIsFirst(b[|a|..]);
    }
    if n :| PartsBelow(a, b, n) {
      CompareParted(a, b, n);
    }
  }

  lemma NothingIsFirst(b: Bytes)
    requires b != []
    ensures Compare([], b).Less?
  {
  }

  lemma CompareTextEqual(a: string, b: string)
    ensures CompareText(a, b).Equal? <==> a == b
  {
    CompareEqual(Utf8.Encode(a), Utf8.Encode(b));
    if Utf8.Encode(a) == Utf8.Encode(b) {
      Utf8.EncodeInjective(a, b);
    }
  }

  /** How three comparisons of three things hang together: strictness included. */
  ghost predicate Chains(ab: Ordering, bc: Ordering, ac: Ordering) {
    !ab.Greater? && !bc.Greater? ==>
      && !ac.Greater?
      && (ab.Less? || bc.Less? ==> ac.Less?)
      && (ab.Equal? && bc.Equal? ==> ac.Equal?)
  }

  lemma CompareTextChains(a: string, b: string, c: string)
    ensures Chains(CompareText(a, b), CompareText(b, c), CompareText(a, c))
  {
    var x, y, z := Utf8.Encode(a), Utf8.Encode(b), Utf8.Encode(c);
    CompareEqual(x, y);
    CompareEqual(y, z);
    CompareEqual(x, z);
    if !Compare(x, y).Greater? && !Compare(y, z).Greater? {
      CompareTransitive(x, y, z);
    }
  }

  lemma CompareTextReverse(a: string, b: string)
    ensures CompareText(b, a) == CompareText(a, b).Reverse()
  {
    CompareReverse(Utf8.Encode(a), Utf8.Encode(b));
  }

  predicate BytesLe(a: Bytes, b: Bytes) {
    !Compare(a, b).Greater?
  }

  lemma BytesLeIsTotalOrder()
    ensures Preorder(BytesLe)
    ensures forall a, b :: BytesLe(a, b) && BytesLe(b, a) ==> a == b
  {
    forall a, b
      ensures BytesLe(a, b) || BytesLe(b, a)
      ensures BytesLe(a, b) && BytesLe(b, a) ==> a == b
    {
      CompareReverse(a, b);
      CompareEqual(a, b);
    }
    forall a, b, c | BytesLe(a, b) && BytesLe(b, c)
      ensures BytesLe(a, c)
    {
      CompareTransitive(a, b, c);
    }
  }

  // ----- Stable sorting -----

  ghost predicate Preorder<T(!new)>(le: (T, T) -> bool) {
    && (forall x, y :: le(x, y) || le(y, x))
    && (forall x, y, z :: le(x, y) && le(y, z) ==> le(x, z))
  }

  ghost predicate SortedBy<T>(s: seq<T>, le: (T, T) -> bool) {
    forall i, j | 0 <= i < j < |s| :: le(s[i], s[j])
  }

  /** `x` goes in front of everything it is not after, so equal elements keep their order. */
  function InsertBy<T>(x: T, s: seq<T>, le: (T, T) -> bool): (r: seq<T>)
    ensures multiset(r) == multiset{x} + multiset(s)
  {
    if s == [] then [x]
    else if le(x, s[0]) then [x] + s
    else
      assert s == [s[0]] + s[1..];
      [s[0]] + InsertBy(x, s[1..], le)
  }

  /** `slice::sort_by`. */
  function SortBy<T>(s: seq<T>, le: (T, T) -> bool): (r: seq<T>)
    ensures multiset(r) == multiset(s)
    ensures |r| == |s|
  {
    if s == [] then []
    else
      assert s == [s[0]] + s[1..];
      var r := InsertBy(s[0], SortBy(s[1..], le), le);
      assert |multiset(r)| == |multiset(s)|;
      r
  }

  lemma SortByMembers<T>(s: seq<T>, le: (T, T) -> bool)
    ensures forall x :: x in SortBy(s, le) <==> x in s
  {
    forall x
      ensures x in SortBy(s, le) <==> x in s
    {
      assert x in multiset(SortBy(s, le)) <==> x in multiset(s);
    }
  }

  lemma {:induction false} InsertBySorted<T(!new)>(x: T, s: seq<T>, le: (T, T) -> bool)
    requires Preorder(le) && SortedBy(s, le)
    ensures SortedBy(InsertBy(x, s, le), le)
  {
    if s != [] && !le(x, s[0]) {
      var rest := InsertBy(x, s[1..], le);
      InsertBySorted(x, s[1..], le);
      forall y | y in rest
        ensures le(s[0], y)
      {
        assert y in multiset(rest);
        assert y == x || y in s[1..];
      }
    }
  }

  lemma {:induction false} SortBySorted<T(!new)>(s: seq<T>, le: (T, T) -> bool)
    requires Preorder(le)
    ensures SortedBy(SortBy(s, le), le)
  {
    if s != [] {
      SortBySorted(s[1..], le);
      InsertBySorted(s[0], SortBy(s[1..], le), le);
    }
  }

  /** Without ties, there is only one way to put a multiset in order. */
  lemma {:induction false} SortedIsUnique<T(!new)>(a: seq<T>, b: seq<T>, le: (T, T) -> bool)
    requires multiset(a) == multiset(b)
    requires SortedBy(a, le) && SortedBy(b, le)
    requires forall x, y | x in a && y in a && le(x, y) && le(y, x) :: x == y
    ensures a == b
  {
    assert |multiset(a)| == |multiset(b)|;
    if a != [] {
      SortedHead(a, b, le);
      SameTail(a, b);
      SortedIsUnique(a[1..], b[1..], le);
    }
  }

  lemma SameTail<T>(a: seq<T>, b: seq<T>)
    requires a != [] && b != [] && multiset(a) == multiset(b) && a[0] == b[0]
    ensures multiset(a[1..]) == multiset(b[1..])
  {
    assert a == [a[0]] + a[1..] && b == [b[0]] + b[1..];
    assert multiset(a[1..]) == multiset(a) - multiset{a[0]};
  }

  lemma SortedHead<T(!new)>(a: seq<T>, b: seq<T>, le: (T, T) -> bool)
    requires a != [] && b != [] && multiset(a) == multiset(b)
    requires SortedBy(a, le) && SortedBy(b, le)
    requires forall x, y | x in a && y in a && le(x, y) && le(y, x) :: x == y
    ensures a[0] == b[0]
  {
    assert a[0] in multiset(b) && b[0] in multiset(a);
    var i :| 0 <= i < |b| && b[i] == a[0];
    var j :| 0 <= j < |a| && a[j] == b[0];
    if i != 0 && j != 0 {
      assert le(b[0], b[i]) && le(a[0], a[j]);
    }
  }

  // ----- Taking one element out -----

  function Without<T>(s: seq<T>, j: nat): (r: seq<T>)
    requires j < |s|
  {
    s[..j] + s[j + 1..]
  }

  lemma OneMore<T>(s: seq<T>, x: T)
    ensures multiset(s + [x]) == multiset(s) + multiset{x}
  {
  }

  lemma OneMoreOnEither<T>(a: multiset<T>, b: multiset<T>, x: T)
    ensures (a + multiset{x}) + b == a + b + multiset{x} == a + (b + multiset{x})
  {
  }

  lemma RemoveOne<T>(s: seq<T>, j: nat)
    requires j < |s|
    ensures multiset(s) == multiset(Without(s, j)) + multiset{s[j]}
  {
    assert s == s[..j] + ([s[j]] + s[j + 1..]);
    assert multiset([s[j]] + s[j + 1..]) == multiset{s[j]} + multiset(s[j + 1..]);
  }

  lemma WithoutIsShorter<T>(s: seq<T>, j: nat)
    requires j < |s|
    ensures |Without(s, j)| == |s| - 1
  {
  }

  // ----- Iterating a set or a map's keys in order -----

  /** The elements of a set in order: how a `BTreeMap` yields its keys. */
  ghost function InOrder<T(!new)>(s: set<T>, le: (T, T) -> bool): (r: seq<T>)
    ensures multiset(r) == multiset(s)
  {
    SortBy(Elements(s), le)
  }

  lemma InOrderMembers<T(!new)>(s: set<T>, le: (T, T) -> bool)
    ensures forall x :: x in InOrder(s, le) <==> x in s
  {
    forall x
      ensures x in InOrder(s, le) <==> x in s
    {
      assert x in multiset(InOrder(s, le)) <==> x in multiset(s);
    }
  }

  ghost function Elements<T(!new)>(s: set<T>): (r: seq<T>)
    ensures multiset(r) == multiset(s)
  {
    if s == {} then []
    else
      var x :| x in s;
      assert multiset(s) == multiset{x} + multiset(s - {x});
      [x] + Elements(s - {x})
  }

  /** Any enumeration, once sorted, is the ordered one. */
  method SortedElements<T(==, !new)>(s: set<T>, le: (T, T) -> bool) returns (r: seq<T>)
    requires Preorder(le)
    requires forall x, y | x in s && y in s && le(x, y) && le(y, x) :: x == y
    ensures r == InOrder(s, le)
  {
    var left, picked := s, [];
    while left != {}
      invariant multiset(picked) + multiset(left) == multiset(s)
      decreases left
    {
      var x :| x in left;
      assert multiset(left) == multiset{x} + multiset(left - {x});
      assert multiset(picked + [x]) == multiset(picked) + multiset{x};
      picked := picked + [x];
      left := left - {x};
    }
    r := SortBy(picked, le);
    SortBySorted(picked, le);
    SortBySorted(Elements(s), le);
    assert multiset(r) == multiset(s);
    forall x | x in r
      ensures x in s
    {
      assert x in multiset(r);
      assert x in multiset(s);
    }
    SortedIsUnique(r, InOrder(s, le), le);
  }

  // ----- Sorting with duplicates removed -----

  lemma AppearsTwice<T>(s: seq<T>, i: nat, j: nat)
    requires i < j < |s| && s[i] == s[j]
    ensures multiset(s)[s[i]] >= 2
  {
    assert s == s[..j] + [s[j]] + s[j + 1..];
    assert s[i] == s[..j][i];
    assert s[i] in multiset(s[..j]);
  }

  lemma InOrderIsDistinct<T(!new)>(s: set<T>, le: (T, T) -> bool)
    ensures Distinct(InOrder(s, le))
  {
    var r := InOrder(s, le);
    forall i, j | 0 <= i < j < |r|
      ensures r[i] != r[j]
    {
      assert multiset(r)[r[i]] <= 1;
      if r[i] == r[j] {
        AppearsTwice(r, i, j);
      }
    }
  }

  /** `Vec::dedup`: of a run of equal elements, the first. */
  function Dedup<T(==)>(s: seq<T>): seq<T> {
    if |s| < 2 then s
    else if s[0] == s[1] then Dedup(s[1..])
    else [s[0]] + Dedup(s[1..])
  }

  ghost predicate Distinct<T(!new)>(s: seq<T>) {
    forall i, j | 0 <= i < j < |s| :: s[i] != s[j]
  }

  ghost predicate Antisymmetric<T(!new)>(le: (T, T) -> bool) {
    forall x, y :: le(x, y) && le(y, x) ==> x == y
  }

  lemma {:induction false} DedupSorted<T(!new)>(s: seq<T>, le: (T, T) -> bool)
    requires Preorder(le) && Antisymmetric(le) && SortedBy(s, le)
    ensures forall x :: x in Dedup(s) <==> x in s
    ensures s != [] ==> Dedup(s) != [] && Dedup(s)[0] == s[0]
    ensures SortedBy(Dedup(s), le) && Distinct(Dedup(s))
  {
    if |s| >= 2 {
      var rest := Dedup(s[1..]);
      DedupSorted(s[1..], le);
      assert forall x :: x in s <==> x == s[0] || x in s[1..];
      if s[0] != s[1] {
        forall i | 0 <= i < |rest|
          ensures le(s[0], rest[i]) && s[0] != rest[i]
        {
          assert rest[i] in s[1..];
          assert le(s[1], rest[i]) by {
            assert i > 0 ==> le(rest[0], rest[i]);
            assert le(s[1], s[1]);
          }
        }
      }
    }
  }

  lemma {:induction false} DistinctMultiset<T(!new)>(s: seq<T>)
    requires Distinct(s)
    ensures multiset(s) == multiset(set x | x in s)
  {
    if s != [] {
      var front, last := s[..|s| - 1], s[|s| - 1];
      DistinctMultiset(front);
      assert s == front + [last];
      assert last !in front;
      assert (set x | x in s) == (set x | x in front) + {last};
    }
  }

  /** Sorting a list and dropping repetitions puts the set of its elements in order. */
  lemma DedupIsInOrder<T(!new)>(s: seq<T>, le: (T, T) -> bool)
    requires Preorder(le) && Antisymmetric(le)
    ensures Dedup(SortBy(s, le)) == InOrder((set x | x in s), le)
  {
    var sorted, elements := SortBy(s, le), (set x | x in s);
    SortBySorted(s, le);
    SortByMembers(s, le);
    DedupSorted(sorted, le);
    var d := Dedup(sorted);
    DistinctMultiset(d);
    assert (set x | x in d) == elements;
    SortBySorted(Elements(elements), le);
    SortedIsUnique(d, InOrder(elements, le), le);
  }
}
