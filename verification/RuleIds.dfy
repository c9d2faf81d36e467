/** Rule identity: strict parsing, display, and the order every report is sorted in. */
module RuleIds {
  import opened Wrappers
  import opened Words
  import opened Sorting
  import opened Text
  import Utf8

  datatype RuleId = RuleId(namespace: string, name: string)

  datatype Reason = NotAscii | Uppercase | BadCharacter | EdgeHyphen | DoubleHyphen

  datatype ParseError =
    | MissingNamespace(id: string)
    | TooManySeparators(id: string)
    | InvalidNamespace(name: string, id: string, reason: Reason)
    | EmptyName(id: string)
    | InvalidName(name: string, id: string, reason: Reason)

  predicate IsLower(c: char) { 'a' <= c <= 'z' }
  predicate IsUpper(c: char) { 'A' <= c <= 'Z' }
  predicate IsDigit(c: char) { '0' <= c <= '9' }

  /** Lowercase kebab-case: non-empty words of letters and digits, one hyphen between two words. */
  predicate IsKebab(s: string) {
    && s != ""
    && (forall i | 0 <= i < |s| :: IsLower(s[i]) || IsDigit(s[i]) || s[i] == '-')
    && (forall i | 0 <= i < |s| :: s[i] == '-' ==> 0 < i < |s| - 1 && s[i + 1] != '-')
  }

  predicate Valid(id: RuleId) {
    IsKebab(id.namespace) && IsKebab(id.name)
  }

  /** `validate_name`, check by check in the order the source makes them. */
  function ValidateName(name: string, id: string): Option<ParseError> {
    if name == "" then Some(EmptyName(id))
    else if exists c | c in name :: c as int >= 0x80 then Some(InvalidName(name, id, NotAscii))
    else if exists c | c in name :: IsUpper(c) then Some(InvalidName(name, id, Uppercase))
    else if exists c | c in name :: !(IsLower(c) || IsDigit(c) || c == '-') then
      Some(InvalidName(name, id, BadCharacter))
    else if name[0] == '-' || name[|name| - 1] == '-' then Some(InvalidName(name, id, EdgeHyphen))
    else if exists i | 0 <= i < |name| - 1 :: name[i] == '-' && name[i + 1] == '-' then
      Some(InvalidName(name, id, DoubleHyphen))
    else None
  }

  /** `RuleId::from_str`. */
  function Parse(s: string): Result<RuleId, ParseError> {
    var parts := SplitSlash(s);
    if |parts| < 2 then Err(MissingNamespace(s))
    else if |parts| > 2 then Err(TooManySeparators(s))
    else
      var namespace, name := parts[0], parts[1];
      if namespace == "" then Err(MissingNamespace(s))
      else
        match ValidateName(namespace, s)
        case Some(InvalidName(n, id, reason)) => Err(InvalidNamespace(n, id, reason))
        case Some(other) => Err(other)
        case None =>
          match ValidateName(name, s)
          case Some(error) => Err(error)
          case None => Ok(RuleId(namespace, name))
  }

  /** `Display`. */
  function Show(id: RuleId): string {
    id.namespace + "/" + id.name
  }

  // ----- Parsing -----

  lemma NameAccepted(name: string, id: string)
    ensures ValidateName(name, id).None? <==> IsKebab(name)
  {
    if IsKebab(name) {
      assert name[0] != '-' && name[|name| - 1] != '-';
    }
    if ValidateName(name, id).None? {
      forall i | 0 <= i < |name|
        ensures IsLower(name[i]) || IsDigit(name[i]) || name[i] == '-'
      {
        assert name[i] in name;
      }
    }
  }

  /** Parsing inverts display, and accepts nothing else. */
  lemma ParseExact(s: string, id: RuleId)
    ensures Parse(s) == Ok(id) <==> Valid(id) && s == Show(id)
  {
    SplitSlashBack(s);
    if Parse(s) == Ok(id) {
      NameAccepted(id.namespace, s);
      NameAccepted(id.name, s);
    }
    if Valid(id) && s == Show(id) {
      SplitSlashFirst(id.namespace, id.name);
      SplitSlashNone(id.name);
      assert s == id.namespace + ("/" + id.name);
      NameAccepted(id.namespace, s);
      NameAccepted(id.name, s);
    }
  }

  // ----- What an id is made of, and what is wrong with other texts -----

  /** Words of lower-case letters and digits. */
  ghost predicate AreWords(words: seq<string>) {
    && words != []
    && forall i | 0 <= i < |words| ::
         words[i] != "" && forall c | c in words[i] :: 'a' <= c <= 'z' || '0' <= c <= '9'
  }

  lemma {:induction false} WordsAreKebab(words: seq<string>)
    requires AreWords(words)
    ensures IsKebab(Join(words, "-"))
    ensures Join(words, "-")[0] != '-'
  {
    var first := words[0];
    assert forall i | 0 <= i < |first| :: first[i] in first;
    if |words| > 1 {
      var rest := Join(words[1..], "-");
      WordsAreKebab(words[1..]);
      var s := Join(words, "-");
      assert s == first + ("-" + rest);
      forall i | 0 <= i < |s|
        ensures IsLower(s[i]) || IsDigit(s[i]) || s[i] == '-'
        ensures s[i] == '-' ==> 0 < i < |s| - 1 && s[i + 1] != '-'
      {
        if i > |first| {
          assert s[i] == rest[i - |first| - 1];
          assert i + 1 < |s| ==> s[i + 1] == rest[i - |first|];
        } else if i == |first| {
          assert s[i + 1] == rest[0];
        }
      }
    }
  }

  lemma {:induction false} KebabIsWords(s: string) returns (words: seq<string>)
    requires IsKebab(s)
    ensures AreWords(words) && s == Join(words, "-")
  {
    if '-' !in s {
      words := [s];
      assert forall c | c in s :: exists i | 0 <= i < |s| :: s[i] == c;
    } else {
      var n := FirstHyphen(s);
      assert s[n + 1..][0] != '-';
      var rest := KebabIsWords(s[n + 1..]);
      words := [s[..n]] + rest;
      assert words[1..] == rest;
      assert s == s[..n] + ("-" + s[n + 1..]);
      forall c | c in s[..n]
        ensures 'a' <= c <= 'z' || '0' <= c <= '9'
      {
        var i :| 0 <= i < n && s[..n][i] == c;
        assert s[i] == c;
      }
    }
  }

  lemma {:induction false} FirstHyphen(s: string) returns (n: nat)
    requires '-' in s
    ensures n < |s| && s[n] == '-' && '-' !in s[..n]
  {
    if s[0] == '-' {
      n := 0;
    } else {
      var m := FirstHyphen(s[1..]);
      n := m + 1;
      assert s[..n] == [s[0]] + s[1..][..m];
    }
  }

  /** A namespace or a name is words joined by single hyphens. */
  lemma KebabExactly(s: string)
    ensures IsKebab(s) <==> exists words :: AreWords(words) && s == Join(words, "-")
  {
    hide IsKebab, AreWords;
    if IsKebab(s) {
      var words := KebabIsWords(s);
    }
    if words :| AreWords(words) && s == Join(words, "-") {
      WordsAreKebab(words);
    }
  }

  /** What is wrong with a namespace or a name: the first of these that applies. */
  function Flaw(s: string): Option<Reason> {
    if exists c | c in s :: c as int >= 128 then Some(NotAscii)
    else if exists c | c in s :: 'A' <= c <= 'Z' then Some(Uppercase)
    else if exists c | c in s :: !('a' <= c <= 'z' || '0' <= c <= '9' || c == '-') then Some(BadCharacter)
    else if "-" <= s || (s != "" && s[|s| - 1..] == "-") then Some(EdgeHyphen)
    else if exists i | 1 <= i < |s| :: s[i] == s[i - 1] == '-' then Some(DoubleHyphen)
    else None
  }

  lemma ValidatedExactly(name: string, id: string)
    ensures ValidateName(name, id) ==
      if name == "" then Some(EmptyName(id))
      else match Flaw(name) case None => None case Some(reason) => Some(InvalidName(name, id, reason))
  {
    if name != "" {
      assert "-" <= name <==> name[0] == '-';
      assert name[|name| - 1..] == [name[|name| - 1]];
      if i :| 0 <= i < |name| - 1 && name[i] == '-' && name[i + 1] == '-' {
        assert name[i + 1] == name[i + 1 - 1] == '-';
      }
      if i :| 1 <= i < |name| && name[i] == name[i - 1] == '-' {
        assert name[i - 1] == '-' && name[i - 1 + 1] == '-';
      }
    }
  }

  /** With one slash, between two parts, the namespace's flaw is told before the name's. */
  lemma OneSlash(namespace: string, name: string)
    requires '/' !in namespace && '/' !in name
    ensures var s := namespace + "/" + name;
      Parse(s) ==
        if namespace == "" then Err(MissingNamespace(s))
        else if Flaw(namespace).Some? then Err(InvalidNamespace(namespace, s, Flaw(namespace).value))
        else if name == "" then Err(EmptyName(s))
        else if Flaw(name).Some? then Err(InvalidName(name, s, Flaw(name).value))
        else Ok(RuleId(namespace, name))
  {
    hide ValidateName, Flaw;
    var s := namespace + "/" + name;
    assert s == namespace + ("/" + name);
    SplitSlashFirst(namespace, name);
    SplitSlashNone(name);
    ValidatedExactly(namespace, s);
    ValidatedExactly(name, s);
  }

  /** Without a slash there is no namespace, and with two there are too many. */
  lemma OtherSlashes(s: string, a: string, b: string, c: string)
    ensures '/' !in s ==> Parse(s) == Err(MissingNamespace(s))
    ensures s == a + "/" + b + "/" + c ==> Parse(s) == Err(TooManySeparators(s))
  {
    hide ValidateName, SplitSlash;
    if '/' !in s {
      SplitSlashNone(s);
    }
    if s == a + "/" + b + "/" + c {
      SlashesGroup(a, b, c);
      SplitSlashCount(a, b + ("/" + c));
      SplitSlashCount(b, c);
    }
  }

  lemma SlashesGroup(a: string, b: string, c: string)
    ensures a + "/" + b + "/" + c == a + ("/" + (b + ("/" + c)))
  {
    var tail := "/" + c;
    assert a + "/" + b + "/" + c == a + "/" + b + tail == a + "/" + (b + tail) == a + ("/" + (b + tail));
  }

  lemma {:induction false} SplitSlashCount(a: string, rest: string)
    ensures |SplitSlash(a + ("/" + rest))| == |SplitSlash(a)| + |SplitSlash(rest)|
  {
    if a == "" {
      assert ("" + ("/" + rest))[1..] == rest;
    } else {
      assert (a + ("/" + rest))[1..] == a[1..] + ("/" + rest);
      SplitSlashCount(a[1..], rest);
    }
  }

  // ----- Order -----

  /** `Ord for RuleId`: by namespace, then by name. */
  function CompareIds(a: RuleId, b: RuleId): Ordering {
    CompareText(a.namespace, b.namespace).Then(CompareText(a.name, b.name))
  }

  lemma CompareIdsEqual(a: RuleId, b: RuleId)
    ensures CompareIds(a, b).Equal? <==> a == b
  {
    CompareTextEqual(a.namespace, b.namespace);
    CompareTextEqual(a.name, b.name);
  }

  lemma CompareIdsReverse(a: RuleId, b: RuleId)
    ensures CompareIds(b, a) == CompareIds(a, b).Reverse()
  {
    CompareTextReverse(a.namespace, b.namespace);
    CompareTextReverse(a.name, b.name);
  }

  lemma CompareIdsChains(a: RuleId, b: RuleId, c: RuleId)
    ensures Chains(CompareIds(a, b), CompareIds(b, c), CompareIds(a, c))
  {
    hide CompareText;
    CompareTextChains(a.namespace, b.namespace, c.namespace);
    CompareTextChains(a.name, b.name, c.name);
  }

  lemma {:induction false} AsciiBytes(s: string)
    requires forall i | 0 <= i < |s| :: s[i] as int < 0x80
    ensures |Utf8.Encode(s)| == |s|
    ensures forall i | 0 <= i < |s| :: Utf8.Encode(s)[i] == s[i] as int
  {
    if s != "" {
      AsciiBytes(s[1..]);
    }
  }

  /** One namespace is the other followed by a hyphen: `local` and `local-rules`. */
  predicate HyphenExtends(a: string, b: string) {
    a + "-" <= b
  }

  function CommonPrefix(a: Bytes, b: Bytes): (n: nat)
    ensures n <= |a| && n <= |b| && a[..n] == b[..n]
    ensures n < |a| && n < |b| ==> a[n] != b[n]
  {
    if a == [] || b == [] || a[0] != b[0] then 0 else CommonPrefix(a[1..], b[1..]) + 1
  }

  /** Two namespaces that part at byte `n` are ordered there, whatever follows them. */
  lemma {:induction false} PartedOrder(x: Bytes, y: Bytes, tx: Bytes, ty: Bytes)
    requires CommonPrefix(x, y) < |x| && CommonPrefix(x, y) < |y|
    ensures Compare(x + tx, y + ty) == Compare(x, y)
  {
    if x[0] == y[0] {
      assert (x + tx)[1..] == x[1..] + tx && (y + ty)[1..] == y[1..] + ty;
      PartedOrder(x[1..], y[1..], tx, ty);
    }
  }

  /** A namespace that is a strict prefix sorts first, unless the `/` behind it sorts later. */
  lemma {:induction false} PrefixOrder(x: Bytes, y: Bytes, tx: Bytes, ty: Bytes)
    requires CommonPrefix(x, y) == |x| < |y|
    requires tx != [] && tx[0] != y[|x|]
    ensures Compare(x, y).Less?
    ensures Compare(x + tx, y + ty) == if tx[0] < y[|x|] then Less else Greater
  {
    if x == [] {
      assert x + tx == tx;
    } else {
      assert (x + tx)[1..] == x[1..] + tx && (y + ty)[1..] == y[1..] + ty;
      PrefixOrder(x[1..], y[1..], tx, ty);
    }
  }

  lemma CommonPrefixSymmetric(x: Bytes, y: Bytes)
    ensures CommonPrefix(x, y) == CommonPrefix(y, x)
  {
  }

  /**
    Comparing `(namespace, name)` agrees with comparing the rendered ids in every case but one:
    `-` is the one character of a namespace that sorts before the `/` closing a shorter one.
  */
  lemma OrderIsRenderedOrder(a: RuleId, b: RuleId)
    requires Valid(a) && Valid(b)
    ensures CompareIds(a, b) == CompareText(Show(a), Show(b)) <==>
            !HyphenExtends(a.namespace, b.namespace) && !HyphenExtends(b.namespace, a.namespace)
  {
    hide Compare, CommonPrefix, Utf8.EncodeChar;
    var x, y := Utf8.Encode(a.namespace), Utf8.Encode(b.namespace);
    var n := CommonPrefix(x, y);
    CommonPrefixSymmetric(x, y);
    AsciiBytes(a.namespace);
    AsciiBytes(b.namespace);
    ShowBytes(a);
    ShowBytes(b);
    PrefixByHyphen(a.namespace, b.namespace, n);
    PrefixByHyphen(b.namespace, a.namespace, n);
    var tx, ty := [0x2F] + Utf8.Encode(a.name), [0x2F] + Utf8.Encode(b.name);
    CompareEqual(x, y);
    if n < |x| && n < |y| {
      PartedOrder(x, y, tx, ty);
    } else if n < |y| {
      PrefixOrder(x, y, tx, ty);
    } else if n < |x| {
      PrefixOrder(y, x, ty, tx);
      CompareReverse(x, y);
      CompareReverse(x + tx, y + ty);
    } else {
      assert x == x[..n] && y == y[..n];
      CompareCommonPrefix(x, tx, ty);
      CompareCommonPrefix([0x2F], Utf8.Encode(a.name), Utf8.Encode(b.name));
    }
  }

  lemma ShowBytes(id: RuleId)
    requires Valid(id)
    ensures Utf8.Encode(Show(id)) == Utf8.Encode(id.namespace) + ([0x2F] + Utf8.Encode(id.name))
  {
    assert Show(id) == id.namespace + ("/" + id.name);
    Utf8.EncodeConcat(id.namespace, "/" + id.name);
    Utf8.EncodeConcat("/", id.name);
    assert Utf8.Encode("/") == Utf8.EncodeChar('/') + [];
  }

  lemma PrefixByHyphen(a: string, b: string, n: nat)
    requires IsKebab(a) && IsKebab(b)
    requires n == CommonPrefix(Utf8.Encode(a), Utf8.Encode(b))
    requires |Utf8.Encode(a)| == |a| && forall i | 0 <= i < |a| :: Utf8.Encode(a)[i] == a[i] as int
    requires |Utf8.Encode(b)| == |b| && forall i | 0 <= i < |b| :: Utf8.Encode(b)[i] == b[i] as int
    ensures HyphenExtends(a, b) <==> n == |a| < |b| && b[n] == '-'
  {
    hide Utf8.Encode, IsKebab;
    var x, y := Utf8.Encode(a), Utf8.Encode(b);
    if HyphenExtends(a, b) {
      assert forall i | 0 <= i < |a| :: b[i] == (a + "-")[i] == a[i];
      assert b[|a|] == (a + "-")[|a|];
    }
    if n == |a| < |b| && b[n] == '-' {
      forall i | 0 <= i < |a|
        ensures a[i] == b[i]
      {
        assert x[..n][i] == y[..n][i];
        assert x[i] == y[i];
        assert a[i] as int as char == b[i] as int as char;
      }
      assert b[..|a| + 1] == a + "-";
    }
  }

  lemma HyphenComesFirst()
    ensures CompareText("a", "a-b").Less? && CompareText("a/x", "a-b/x").Greater?
  {
    hide Utf8.Encode, Utf8.EncodeChar;
    AsciiBytes("a");
    AsciiBytes("a-b");
    AsciiBytes("a/x");
    AsciiBytes("a-b/x");
    var a, ab := Utf8.Encode("a"), Utf8.Encode("a-b");
    assert a[0] == ab[0] && a[1..] == [];
    assert Compare(a, ab) == Compare(a[1..], ab[1..]) == Less;
    var x, y := Utf8.Encode("a/x"), Utf8.Encode("a-b/x");
    assert x[0] == y[0] && x[1..][0] == 0x2F && y[1..][0] == 0x2D;
    assert Compare(x, y) == Compare(x[1..], y[1..]) == Greater;
  }

  /** `a/x` comes before `a-b/x`, and is rendered after it. */
  lemma HyphenCounterexample()
    ensures var a, b := RuleId("a", "x"), RuleId("a-b", "x");
      Valid(a) && Valid(b) && CompareIds(a, b).Less? && CompareText(Show(a), Show(b)).Greater?
  {
    HyphenComesFirst();
    assert Show(RuleId("a", "x")) == "a/x" && Show(RuleId("a-b", "x")) == "a-b/x";
  }
}
