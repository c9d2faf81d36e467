/**
  Reading and writing the pieces of a cache entry. A codec is exact when reading at a position
  succeeds on the bytes its writer produces there and on no others. Sequencing, repetition,
  tagging and renaming keep exactness, and exactness of a whole entry is what its round trip,
  the prefix law and canonicity come down to.
*/
module Wire {
  import opened Wrappers
  import opened Words
  import opened RuleIds
  import Utf8

  ghost predicate HasAt(b: Bytes, at: nat, piece: Bytes) {
    at + |piece| <= |b| && b[at..at + |piece|] == piece
  }

  lemma HasAtConcat(b: Bytes, at: nat, p: Bytes, q: Bytes)
    ensures HasAt(b, at, p + q) <==> HasAt(b, at, p) && HasAt(b, at + |p|, q)
  {
    if at + |p| + |q| <= |b| {
      var whole := b[at..at + |p| + |q|];
      assert whole == b[at..at + |p|] + b[at + |p|..at + |p| + |q|];
      assert whole == p + q ==> whole[..|p|] == p && whole[|p|..] == q;
      assert whole[..|p|] == b[at..at + |p|] && whole[|p|..] == b[at + |p|..at + |p| + |q|];
    }
  }

  // ----- Codecs -----

  /** How a value is written, how one is read at a position, and which values can be written. */
  datatype Codec<!T> = Codec(write: T -> Bytes, read: (Bytes, nat) -> Option<(T, nat)>, fits: T -> bool)

  ghost predicate ExactAt<T>(c: Codec<T>, b: Bytes, at: nat, v: T, n: nat) {
    c.read(b, at) == Some((v, n)) <==> c.fits(v) && n == at + |c.write(v)| && HasAt(b, at, c.write(v))
  }

  ghost predicate Exact<T(!new)>(c: Codec<T>) {
    forall b: Bytes, at: nat, v: T, n: nat | at <= |b| :: ExactAt(c, b, at, v, n)
  }

  // ----- Words -----

  function Take(b: Bytes, at: nat, count: nat): Option<(Bytes, nat)> {
    if at + count <= |b| then Some((b[at..at + count], at + count)) else None
  }

  function ReadU8(b: Bytes, at: nat): Option<(u8, nat)> {
    var (bytes, next) :- Take(b, at, 1);
    Some((bytes[0], next))
  }

  function ReadU16(b: Bytes, at: nat): Option<(u16, nat)> {
    var (bytes, next) :- Take(b, at, 2);
    Some((Word16(bytes), next))
  }

  function ReadU32(b: Bytes, at: nat): Option<(u32, nat)> {
    var (bytes, next) :- Take(b, at, 4);
    Some((Word32(bytes), next))
  }

  function Word16(bytes: Bytes): u16
    requires |bytes| == 2
  {
    FromLeThenLe(bytes);
    WordSizes();
    FromLe(bytes)
  }

  function Word32(bytes: Bytes): u32
    requires |bytes| == 4
  {
    FromLeThenLe(bytes);
    WordSizes();
    FromLe(bytes)
  }

  const U8: Codec<u8> := Codec((v: u8) => [v], ReadU8, (v: u8) => true)
  const U16: Codec<u16> := Codec((v: u16) => Le(v, 2), ReadU16, (v: u16) => true)
  const U32: Codec<u32> := Codec((v: u32) => Le(v, 4), ReadU32, (v: u32) => true)

  /** `write_len`: saturating, so a count that does not fit cannot encode as a small one. */
  function WriteLen(n: nat): Bytes {
    Le(Narrowed(n), 4)
  }

  function ReadLen(b: Bytes, at: nat): Option<(nat, nat)> {
    match ReadU32(b, at)
    case None => None
    case Some((n, next)) => Some((n, next))
  }

  const LEN: Codec<nat> := Codec(WriteLen, ReadLen, (n: nat) => n <= U32_MAX)

  lemma U8Exact(b: Bytes, at: nat, v: u8, n: nat)
    ensures ReadU8(b, at) == Some((v, n)) <==> n == at + 1 && HasAt(b, at, [v])
  {
    if at + 1 <= |b| {
      assert b[at..at + 1] == [b[at]];
    }
  }

  lemma U16Exact(b: Bytes, at: nat, v: u16, n: nat)
    ensures ReadU16(b, at) == Some((v, n)) <==> n == at + 2 && HasAt(b, at, Le(v, 2))
  {
    WordSizes();
    LeThenFromLe(v, 2);
    if at + 2 <= |b| {
      FromLeThenLe(b[at..at + 2]);
    }
  }

  lemma U32Exact(b: Bytes, at: nat, v: u32, n: nat)
    ensures ReadU32(b, at) == Some((v, n)) <==> n == at + 4 && HasAt(b, at, Le(v, 4))
  {
    WordSizes();
    LeThenFromLe(v, 4);
    if at + 4 <= |b| {
      FromLeThenLe(b[at..at + 4]);
    }
  }

  lemma WordsExact()
    ensures Exact(U8) && Exact(U16) && Exact(U32) && Exact(LEN)
  {
    forall b: Bytes, at: nat, v: u8, n: nat
      ensures ExactAt(U8, b, at, v, n)
    {
      U8Exact(b, at, v, n);
    }
    forall b: Bytes, at: nat, v: u16, n: nat
      ensures ExactAt(U16, b, at, v, n)
    {
      U16Exact(b, at, v, n);
    }
    forall b: Bytes, at: nat, v: u32, n: nat
      ensures ExactAt(U32, b, at, v, n)
    {
      U32Exact(b, at, v, n);
    }
    forall b: Bytes, at: nat, v: nat, n: nat
      ensures ExactAt(LEN, b, at, v, n)
    {
      if v <= U32_MAX {
        U32Exact(b, at, v, n);
      }
    }
  }

  // ----- Text and rule ids -----

  /** `write_str`. */
  function WriteText(text: string): Bytes {
    WriteLen(|Utf8.Encode(text)|) + Utf8.Encode(text)
  }

  /** `read_str`: a length, that many bytes, and only if they are UTF-8. */
  function ReadText(b: Bytes, at: nat): Option<(string, nat)> {
    var (len, start) :- ReadU32(b, at);
    var (bytes, next) :- Take(b, start, len);
    var text :- Utf8.Decode(bytes);
    Some((text, next))
  }

  predicate TextFits(text: string) {
    |Utf8.Encode(text)| <= U32_MAX
  }

  const TEXT: Codec<string> := Codec(WriteText, ReadText, TextFits)

  function WriteRule(id: RuleId): Bytes {
    WriteText(Show(id))
  }

  function ReadRule(b: Bytes, at: nat): Option<(RuleId, nat)> {
    var (text, next) :- ReadText(b, at);
    match Parse(text)
    case Ok(id) => Some((id, next))
    case Err(_) => None
  }

  predicate RuleFits(id: RuleId) {
    Valid(id) && TextFits(Show(id))
  }

  const RULE: Codec<RuleId> := Codec(WriteRule, ReadRule, RuleFits)

  lemma TextRead(b: Bytes, at: nat)
    requires ReadText(b, at).Some?
    ensures var (text, next) := ReadText(b, at).value;
            TextFits(text) && next == at + |WriteText(text)| && HasAt(b, at, WriteText(text))
  {
    hide ReadU32, Utf8.Encode, Utf8.Decode, Le;
    var (len, start) := ReadU32(b, at).value;
    var bytes := b[start..start + len];
    var text := Utf8.Decode(bytes).value;
    U32Exact(b, at, len, start);
    Utf8.DecodeThenEncode(bytes);
    assert WriteText(text) == Le(len, 4) + bytes;
    assert HasAt(b, start, bytes);
    HasAtConcat(b, at, Le(len, 4), bytes);
  }

  lemma TextWritten(b: Bytes, at: nat, text: string)
    requires TextFits(text) && HasAt(b, at, WriteText(text))
    ensures ReadText(b, at) == Some((text, at + |WriteText(text)|))
  {
    hide ReadU32, Utf8.Encode, Utf8.Decode, Le;
    var bytes := Utf8.Encode(text);
    HasAtConcat(b, at, Le(|bytes|, 4), bytes);
    U32Exact(b, at, |bytes|, at + 4);
    Utf8.EncodeThenDecode(text);
  }

  lemma TextExact(b: Bytes, at: nat, v: string, n: nat)
    ensures ReadText(b, at) == Some((v, n)) <==> TextFits(v) && n == at + |WriteText(v)| && HasAt(b, at, WriteText(v))
  {
    if ReadText(b, at).Some? {
      TextRead(b, at);
    }
    if TextFits(v) && HasAt(b, at, WriteText(v)) {
      TextWritten(b, at, v);
    }
  }

  lemma RuleExact(b: Bytes, at: nat, v: RuleId, n: nat)
    ensures ReadRule(b, at) == Some((v, n)) <==> RuleFits(v) && n == at + |WriteRule(v)| && HasAt(b, at, WriteRule(v))
  {
    TextExact(b, at, Show(v), n);
    ParseExact(Show(v), v);
    if ReadRule(b, at) == Some((v, n)) {
      ParseExact(ReadText(b, at).value.0, v);
    }
  }

  lemma TextsExact()
    ensures Exact(TEXT) && Exact(RULE)
  {
    forall b: Bytes, at: nat, v: string, n: nat
      ensures ExactAt(TEXT, b, at, v, n)
    {
      TextExact(b, at, v, n);
    }
    forall b: Bytes, at: nat, v: RuleId, n: nat
      ensures ExactAt(RULE, b, at, v, n)
    {
      RuleExact(b, at, v, n);
    }
  }

  // ----- Codes: one byte standing for one of a few values -----

  function ReadCode<T>(decode: u8 -> Option<T>, b: Bytes, at: nat): Option<(T, nat)> {
    var (code, next) :- ReadU8(b, at);
    var v :- decode(code);
    Some((v, next))
  }

  function Code<T>(encode: T -> u8, decode: u8 -> Option<T>): Codec<T> {
    Codec((v: T) => [encode(v)], (b: Bytes, at: nat) => ReadCode(decode, b, at), (v: T) => true)
  }

  lemma CodeExact<T(!new)>(encode: T -> u8, decode: u8 -> Option<T>)
    requires forall code, v :: decode(code) == Some(v) <==> code == encode(v)
    ensures Exact(Code(encode, decode))
  {
    forall b: Bytes, at: nat, v: T, n: nat
      ensures ExactAt(Code(encode, decode), b, at, v, n)
    {
      U8Exact(b, at, encode(v), n);
      assert decode(encode(v)) == Some(v);
    }
  }

  // ----- One after the other -----

  function ReadPair<A, B>(c: Codec<A>, d: Codec<B>, b: Bytes, at: nat): Option<((A, B), nat)> {
    match c.read(b, at)
    case None => None
    case Some((x, mid)) =>
      match d.read(b, mid)
      case None => None
      case Some((y, end)) => Some(((x, y), end))
  }

  function Pair<A, B>(c: Codec<A>, d: Codec<B>): Codec<(A, B)> {
    Codec((v: (A, B)) => c.write(v.0) + d.write(v.1),
          (b: Bytes, at: nat) => ReadPair(c, d, b, at),
          (v: (A, B)) => c.fits(v.0) && d.fits(v.1))
  }

  lemma PairFits<A, B>(c: Codec<A>, d: Codec<B>, v: (A, B))
    ensures Pair(c, d).fits(v) <==> c.fits(v.0) && d.fits(v.1)
  {
  }

  lemma PairExact<A(!new), B(!new)>(c: Codec<A>, d: Codec<B>)
    requires Exact(c) && Exact(d)
    ensures Exact(Pair(c, d))
  {
    forall b: Bytes, at: nat, v: (A, B), n: nat | at <= |b|
      ensures ExactAt(Pair(c, d), b, at, v, n)
    {
      var mid := at + |c.write(v.0)|;
      HasAtConcat(b, at, c.write(v.0), d.write(v.1));
      assert ExactAt(c, b, at, v.0, mid);
      if mid <= |b| {
        assert ExactAt(d, b, mid, v.1, n);
      }
      if c.read(b, at).Some? {
        assert ExactAt(c, b, at, c.read(b, at).value.0, c.read(b, at).value.1);
      }
    }
  }

  // ----- The same bytes under another shape -----

  function ReadAs<A, B>(c: Codec<A>, to: A -> B, b: Bytes, at: nat): Option<(B, nat)> {
    match c.read(b, at)
    case None => None
    case Some((x, end)) => Some((to(x), end))
  }

  function As<A, B>(c: Codec<A>, to: A -> B, from: B -> A): Codec<B> {
    Codec((v: B) => c.write(from(v)), (b: Bytes, at: nat) => ReadAs(c, to, b, at), (v: B) => c.fits(from(v)))
  }

  lemma AsExact<A(!new), B(!new)>(c: Codec<A>, to: A -> B, from: B -> A)
    requires Exact(c)
    requires forall x :: from(to(x)) == x
    requires forall y :: to(from(y)) == y
    ensures Exact(As(c, to, from))
  {
    forall b: Bytes, at: nat, v: B, n: nat | at <= |b|
      ensures ExactAt(As(c, to, from), b, at, v, n)
    {
      assert ExactAt(c, b, at, from(v), n);
      if c.read(b, at).Some? {
        var x := c.read(b, at).value.0;
        assert from(to(x)) == x;
      }
    }
  }

  // ----- Only the values that pass a check -----

  function ReadOnly<T>(c: Codec<T>, ok: T -> bool, b: Bytes, at: nat): Option<(T, nat)> {
    match c.read(b, at)
    case None => None
    case Some((x, end)) => if ok(x) then Some((x, end)) else None
  }

  function Only<T>(c: Codec<T>, ok: T -> bool): Codec<T> {
    Codec((v: T) => c.write(v), (b: Bytes, at: nat) => ReadOnly(c, ok, b, at), (v: T) => c.fits(v) && ok(v))
  }

  lemma OnlyExact<T(!new)>(c: Codec<T>, ok: T -> bool)
    requires Exact(c)
    ensures Exact(Only(c, ok))
  {
    forall b: Bytes, at: nat, v: T, n: nat | at <= |b|
      ensures ExactAt(Only(c, ok), b, at, v, n)
    {
      assert ExactAt(c, b, at, v, n);
    }
  }

  // ----- Tagged options -----

  function ReadOption<T>(c: Codec<T>, b: Bytes, at: nat): Option<(Option<T>, nat)> {
    match ReadU8(b, at)
    case None => None
    case Some((tag, next)) =>
      if tag == 0 then Some((None, next))
      else if tag == 1 then
        match c.read(b, next)
        case None => None
        case Some((x, end)) => Some((Some(x), end))
      else None
  }

  function WriteOption<T>(c: Codec<T>, v: Option<T>): Bytes {
    match v
    case None => [0]
    case Some(x) => [1] + c.write(x)
  }

  function Optional<T>(c: Codec<T>): Codec<Option<T>> {
    Codec((v: Option<T>) => WriteOption(c, v),
          (b: Bytes, at: nat) => ReadOption(c, b, at),
          (v: Option<T>) => v.Some? ==> c.fits(v.value))
  }

  lemma OptionalExact<T(!new)>(c: Codec<T>)
    requires Exact(c)
    ensures Exact(Optional(c))
  {
    forall b: Bytes, at: nat, v: Option<T>, n: nat | at <= |b|
      ensures ExactAt(Optional(c), b, at, v, n)
    {
      U8Exact(b, at, 0, at + 1);
      U8Exact(b, at, 1, at + 1);
      if v.Some? {
        HasAtConcat(b, at, [1], c.write(v.value));
        if at + 1 <= |b| {
          assert ExactAt(c, b, at + 1, v.value, n);
        }
      }
    }
  }

  // ----- Counted lists -----

  function WriteMany<T>(c: Codec<T>, items: seq<T>): Bytes {
    if items == [] then [] else c.write(items[0]) + WriteMany(c, items[1..])
  }

  function ReadMany<T>(c: Codec<T>, b: Bytes, at: nat, count: nat): Option<(seq<T>, nat)>
    decreases count
  {
    if count == 0 then Some(([], at))
    else
      match c.read(b, at)
      case None => None
      case Some((item, next)) =>
        match ReadMany(c, b, next, count - 1)
        case None => None
        case Some((rest, end)) => Some(([item] + rest, end))
  }

  function WriteList<T>(c: Codec<T>, items: seq<T>): Bytes {
    WriteLen(|items|) + WriteMany(c, items)
  }

  function ReadList<T>(c: Codec<T>, b: Bytes, at: nat): Option<(seq<T>, nat)> {
    match ReadU32(b, at)
    case None => None
    case Some((count, start)) => ReadMany(c, b, start, count)
  }

  predicate ListFits<T>(c: Codec<T>, items: seq<T>) {
    |items| <= U32_MAX && forall i | 0 <= i < |items| :: c.fits(items[i])
  }

  function List<T>(c: Codec<T>): Codec<seq<T>> {
    Codec((v: seq<T>) => WriteList(c, v), (b: Bytes, at: nat) => ReadList(c, b, at), (v: seq<T>) => ListFits(c, v))
  }

  lemma {:induction false} ManyRead<T(!new)>(c: Codec<T>, b: Bytes, at: nat, count: nat)
    requires Exact(c) && at <= |b| && ReadMany(c, b, at, count).Some?
    ensures var (items, n) := ReadMany(c, b, at, count).value;
            && |items| == count
            && (forall i | 0 <= i < |items| :: c.fits(items[i]))
            && n == at + |WriteMany(c, items)| && HasAt(b, at, WriteMany(c, items))
    decreases count
  {
    if count > 0 {
      var (item, next) := c.read(b, at).value;
      assert ExactAt(c, b, at, item, next);
      ManyRead(c, b, next, count - 1);
      var (rest, n) := ReadMany(c, b, next, count - 1).value;
      assert ([item] + rest)[1..] == rest;
      HasAtConcat(b, at, c.write(item), WriteMany(c, rest));
    }
  }

  lemma {:induction false} ManyWritten<T(!new)>(c: Codec<T>, b: Bytes, at: nat, items: seq<T>)
    requires Exact(c) && HasAt(b, at, WriteMany(c, items))
    requires forall i | 0 <= i < |items| :: c.fits(items[i])
    ensures ReadMany(c, b, at, |items|) == Some((items, at + |WriteMany(c, items)|))
    decreases |items|
  {
    if items != [] {
      var next := at + |c.write(items[0])|;
      HasAtConcat(b, at, c.write(items[0]), WriteMany(c, items[1..]));
      assert ExactAt(c, b, at, items[0], next);
      ManyWritten(c, b, next, items[1..]);
      assert [items[0]] + items[1..] == items;
    }
  }

  lemma ListRead<T(!new)>(c: Codec<T>, b: Bytes, at: nat)
    requires Exact(c) && ReadList(c, b, at).Some?
    ensures var (items, n) := ReadList(c, b, at).value;
            ListFits(c, items) && n == at + |WriteList(c, items)| && HasAt(b, at, WriteList(c, items))
  {
    var (count, start) := ReadU32(b, at).value;
    U32Exact(b, at, count, start);
    ManyRead(c, b, start, count);
    HasAtConcat(b, at, Le(count, 4), WriteMany(c, ReadMany(c, b, start, count).value.0));
  }

  lemma ListWritten<T(!new)>(c: Codec<T>, b: Bytes, at: nat, items: seq<T>)
    requires Exact(c) && ListFits(c, items) && HasAt(b, at, WriteList(c, items))
    ensures ReadList(c, b, at) == Some((items, at + |WriteList(c, items)|))
  {
    HasAtConcat(b, at, Le(|items|, 4), WriteMany(c, items));
    U32Exact(b, at, |items|, at + 4);
    ManyWritten(c, b, at + 4, items);
  }

  lemma ListExact<T(!new)>(c: Codec<T>)
    requires Exact(c)
    ensures Exact(List(c))
  {
    forall b: Bytes, at: nat, v: seq<T>, n: nat
      ensures ExactAt(List(c), b, at, v, n)
    {
      if ReadList(c, b, at).Some? {
        ListRead(c, b, at);
      }
      if ListFits(c, v) && HasAt(b, at, WriteList(c, v)) {
        ListWritten(c, b, at, v);
      }
    }
  }

  // ----- Reading a list one item at a time -----

  ghost function Prepend<T>(done: seq<T>, rest: Option<(seq<T>, nat)>): Option<(seq<T>, nat)> {
    match rest
    case None => None
    case Some((items, end)) => Some((done + items, end))
  }

  lemma PrependNothing<T>(r: Option<(seq<T>, nat)>)
    ensures Prepend([], r) == r
  {
    if r.Some? {
      assert [] + r.value.0 == r.value.0;
    }
  }

  lemma PrependDone<T>(c: Codec<T>, done: seq<T>, b: Bytes, at: nat)
    ensures Prepend(done, ReadMany(c, b, at, 0)) == Some((done, at))
  {
    assert done + [] == done;
  }

  lemma PrependStep<T>(c: Codec<T>, done: seq<T>, b: Bytes, at: nat, count: nat)
    requires count > 0
    ensures Prepend(done, ReadMany(c, b, at, count))
            == match c.read(b, at)
               case None => None
               case Some((item, next)) => Prepend(done + [item], ReadMany(c, b, next, count - 1))
  {
    match c.read(b, at)
    case None =>
    case Some((item, next)) =>
      match ReadMany(c, b, next, count - 1)
      case None =>
      case Some((rest, end)) => assert done + ([item] + rest) == done + [item] + rest;
  }
}
