/** The cache file: a header, a count, and length-framed entries in key order. */
module Stores {
  import opened Wrappers
  import opened Words
  import opened Sorting
  import opened Wire
  import opened Entries
  import opened CacheKeys
  import EntryDecoder
  import EntryEncoder

  /** `LKCACHE\x04`. */
  const MAGIC: Bytes := [0x4C, 0x4B, 0x43, 0x41, 0x43, 0x48, 0x45, 0x04]
  const HEADER: Bytes := MAGIC + Le(FORMAT_VERSION, 4)

  type Item = (CacheKey, Entry)

  // ----- Framed entries -----

  function ReadKey(b: Bytes, at: nat): Option<(CacheKey, nat)> {
    var (bytes, next) :- Take(b, at, 32);
    Some((bytes, next))
  }

  const KEY: Codec<CacheKey> := Codec((k: CacheKey) => k, ReadKey, (k: CacheKey) => true)

  function ReadU64(b: Bytes, at: nat): Option<(u64, nat)> {
    var (bytes, next) :- Take(b, at, 8);
    Some((Word64(bytes), next))
  }

  function Word64(bytes: Bytes): u64
    requires |bytes| == 8
  {
    FromLeThenLe(bytes);
    WordSizes();
    FromLe(bytes)
  }

  lemma U64Exact(b: Bytes, at: nat, v: u64, n: nat)
    ensures ReadU64(b, at) == Some((v, n)) <==> n == at + 8 && HasAt(b, at, Le(v, 8))
  {
    WordSizes();
    LeThenFromLe(v, 8);
    if at + 8 <= |b| {
      FromLeThenLe(b[at..at + 8]);
    }
  }

  function WritePayload(e: Entry): Bytes {
    Le(|Encode(e)|, 8) + Encode(e)
  }

  /** The payload's own bytes, handed to the entry decoder; paths still as they stand. */
  function ReadPayload(b: Bytes, at: nat): Option<(Entry, nat)> {
    var (len, start) :- ReadU64(b, at);
    var (payload, next) :- Take(b, start, len);
    var e :- DecodeRaw(payload);
    Some((e, next))
  }

  predicate PayloadFits(e: Entry) {
    Fits(e) && |Encode(e)| <= U64_MAX
  }

  const PAYLOAD: Codec<Entry> := Codec(WritePayload, ReadPayload, PayloadFits)
  const ITEM: Codec<Item> := Pair(KEY, PAYLOAD)

  lemma PayloadRead(b: Bytes, at: nat)
    requires ReadPayload(b, at).Some?
    ensures var (v, n) := ReadPayload(b, at).value;
            PayloadFits(v) && n == at + |WritePayload(v)| && HasAt(b, at, WritePayload(v))
  {
    hide Encode, DecodeRaw, Fits, ReadU64;
    var (len, start) := ReadU64(b, at).value;
    var v := ReadPayload(b, at).value.0;
    U64Exact(b, at, len, start);
    var payload := b[start..start + len];
    RawExact(payload, v);
    assert HasAt(b, start, payload);
    HasAtConcat(b, at, Le(len, 8), payload);
  }

  lemma PayloadWritten(b: Bytes, at: nat, v: Entry)
    requires PayloadFits(v) && HasAt(b, at, WritePayload(v))
    ensures ReadPayload(b, at) == Some((v, at + |WritePayload(v)|))
  {
    hide Encode, DecodeRaw, Fits;
    HasAtConcat(b, at, Le(|Encode(v)|, 8), Encode(v));
    U64Exact(b, at, |Encode(v)|, at + 8);
    RawExact(Encode(v), v);
  }

  lemma ItemsExact()
    ensures Exact(ITEM)
  {
    hide WritePayload, ReadPayload, PayloadFits;
    forall b: Bytes, at: nat, v: CacheKey, n: nat
      ensures ExactAt(KEY, b, at, v, n)
    {
    }
    forall b: Bytes, at: nat, v: Entry, n: nat
      ensures ExactAt(PAYLOAD, b, at, v, n)
    {
      if ReadPayload(b, at).Some? {
        PayloadRead(b, at);
      }
      if PayloadFits(v) && HasAt(b, at, WritePayload(v)) {
        PayloadWritten(b, at, v);
      }
    }
    PairExact(KEY, PAYLOAD);
  }

  // ----- Whole files -----

  function WriteItems(items: seq<Item>): Bytes {
    HEADER + (Le(|items|, 8) + WriteMany(ITEM, items))
  }

  /** The framed items of a file whose header is ours and whose last byte is the last item's. */
  function ReadItems(b: Bytes): Option<seq<Item>> {
    if !(HEADER <= b) then None
    else
      var (count, start) :- ReadU64(b, |HEADER|);
      var (items, end) :- ReadMany(ITEM, b, start, count);
      if end == |b| then Some(items) else None
  }

  /** Inserting in the order read: a key that comes again replaces what it had. */
  function Collect(items: seq<Item>): map<CacheKey, Entry> {
    if items == [] then map[]
    else
      var (key, e) := items[|items| - 1];
      Collect(items[..|items| - 1])[key := WithFilePaths(e)]
  }

  /** `Store::decode`. */
  function Decode(b: Bytes): Option<map<CacheKey, Entry>> {
    match ReadItems(b)
    case None => None
    case Some(items) => Some(Collect(items))
  }

  predicate KeyLe(a: CacheKey, b: CacheKey) {
    BytesLe(a, b)
  }

  lemma KeyLeIsTotalOrder()
    ensures Preorder(KeyLe)
    ensures forall a, b :: KeyLe(a, b) && KeyLe(b, a) ==> a == b
  {
    BytesLeIsTotalOrder();
  }

  ghost function Keys(entries: map<CacheKey, Entry>): (r: seq<CacheKey>)
    ensures multiset(r) == multiset(entries.Keys)
    ensures |r| == |entries|
    ensures forall k | k in r :: k in entries
  {
    var r := InOrder(entries.Keys, KeyLe);
    assert |multiset(r)| == |multiset(entries.Keys)|;
    assert forall k | k in r :: k in multiset(r);
    r
  }

  /** The keys a file holds are in the order of their bytes, each once. */
  lemma KeysAreInOrder(entries: map<CacheKey, Entry>, i: nat, j: nat)
    requires i < j < |Keys(entries)|
    ensures Compare(Keys(entries)[i], Keys(entries)[j]).Less?
  {
    hide Compare;
    KeyLeIsTotalOrder();
    SortBySorted(Elements(entries.Keys), KeyLe);
    InOrderIsDistinct(entries.Keys, KeyLe);
    CompareEqual(Keys(entries)[i], Keys(entries)[j]);
  }

  ghost function ItemsOf(entries: map<CacheKey, Entry>, keys: seq<CacheKey>): (r: seq<Item>)
    requires forall k | k in keys :: k in entries
    ensures |r| == |keys| && forall i | 0 <= i < |keys| :: r[i] == (keys[i], entries[keys[i]])
  {
    seq(|keys|, i requires 0 <= i < |keys| => (keys[i], entries[keys[i]]))
  }

  /** `Store::encode`: `BTreeMap` iteration is key order, so equal maps are equal files. */
  ghost function EncodeMap(entries: map<CacheKey, Entry>): Bytes {
    WriteItems(ItemsOf(entries, Keys(entries)))
  }

  /** Sizes are `usize`: nothing in memory is longer than 64 bits can count. */
  ghost predicate InMemory(entries: map<CacheKey, Entry>) {
    |entries| <= U64_MAX && forall k | k in entries :: |Encode(entries[k])| <= U64_MAX
  }

  predicate ItemsFit(items: seq<Item>) {
    |items| <= U64_MAX && forall i | 0 <= i < |items| :: PayloadFits(items[i].1)
  }

  lemma ItemFits(item: Item)
    ensures ITEM.fits(item) <==> PayloadFits(item.1)
  {
    PairFits(KEY, PAYLOAD, item);
  }

  lemma HeaderAt(b: Bytes, rest: Bytes)
    ensures b == HEADER + rest <==> HEADER <= b && b[|HEADER|..] == rest
  {
  }

  lemma ItemsRead(b: Bytes)
    requires ReadItems(b).Some?
    ensures ItemsFit(ReadItems(b).value) && b == WriteItems(ReadItems(b).value)
  {
    hide ReadMany, WriteMany;
    var (count, start) := ReadU64(b, |HEADER|).value;
    ItemsExact();
    U64Exact(b, |HEADER|, count, start);
    ManyRead(ITEM, b, start, count);
    var items := ReadItems(b).value;
    forall i | 0 <= i < |items|
      ensures PayloadFits(items[i].1)
    {
      ItemFits(items[i]);
    }
    HasAtConcat(b, |HEADER|, Le(count, 8), WriteMany(ITEM, items));
    HeaderAt(b, Le(count, 8) + WriteMany(ITEM, items));
    assert b[|HEADER|..] == b[|HEADER|..|b|];
  }

  /** Reading a file that starts with these items finds exactly them. */
  lemma ItemsFound(b: Bytes, items: seq<Item>)
    requires ItemsFit(items) && WriteItems(items) <= b
    ensures HEADER <= b
    ensures ReadU64(b, |HEADER|) == Some((|items|, |HEADER| + 8))
    ensures ReadMany(ITEM, b, |HEADER| + 8, |items|) == Some((items, |WriteItems(items)|))
  {
    hide WriteMany, ReadMany;
    var body := Le(|items|, 8) + WriteMany(ITEM, items);
    ItemsExact();
    forall i | 0 <= i < |items|
      ensures ITEM.fits(items[i])
    {
      ItemFits(items[i]);
    }
    assert HasAt(b, 0, HEADER + body);
    HasAtConcat(b, 0, HEADER, body);
    HasAtConcat(b, |HEADER|, Le(|items|, 8), WriteMany(ITEM, items));
    U64Exact(b, |HEADER|, |items|, |HEADER| + 8);
    ManyWritten(ITEM, b, |HEADER| + 8, items);
  }

  lemma FileExact(b: Bytes, items: seq<Item>)
    ensures ReadItems(b) == Some(items) <==> ItemsFit(items) && b == WriteItems(items)
  {
    hide ReadMany, WriteMany;
    if ReadItems(b).Some? {
      ItemsRead(b);
    }
    if ItemsFit(items) && b == WriteItems(items) {
      ItemsFound(b, items);
    }
  }

  /** A torn or overlong file is no file: neither a strict prefix nor an extension loads. */
  lemma TruncationIsRejected(items: seq<Item>, p: Bytes)
    requires ItemsFit(items) && p < WriteItems(items)
    ensures Decode(p).None?
  {
    hide WriteItems;
    ItemsFound(WriteItems(items), items);
    if ReadItems(p).Some? {
      ItemsRead(p);
      ItemsFound(WriteItems(items), ReadItems(p).value);
    }
  }

  lemma ExtensionIsRejected(items: seq<Item>, b: Bytes)
    requires ItemsFit(items) && WriteItems(items) < b
    ensures Decode(b).None?
  {
    ItemsFound(b, items);
  }

  // ----- Maps -----

  lemma {:induction false} CollectedLast(items: seq<Item>, i: nat)
    requires i < |items|
    requires forall j | i < j < |items| :: items[j].0 != items[i].0
    ensures items[i].0 in Collect(items) && Collect(items)[items[i].0] == WithFilePaths(items[i].1)
  {
    var n := |items| - 1;
    if i < n {
      assert items[n].0 != items[i].0;
      CollectedLast(items[..n], i);
    }
  }

  lemma {:induction false} CollectedFrom(items: seq<Item>, k: CacheKey) returns (i: nat)
    requires k in Collect(items)
    ensures i < |items| && items[i].0 == k
    ensures forall j | i < j < |items| :: items[j].0 != k
  {
    var n := |items| - 1;
    if items[n].0 == k {
      i := n;
    } else {
      i := CollectedFrom(items[..n], k);
    }
  }

  lemma KeysAreDistinct(entries: map<CacheKey, Entry>, i: nat, j: nat)
    requires i < j < |Keys(entries)|
    ensures Keys(entries)[i] != Keys(entries)[j]
  {
    var keys := Keys(entries);
    assert multiset(keys)[keys[i]] <= 1;
    assert keys == keys[..j] + [keys[j]] + keys[j + 1..];
    assert keys[i] == keys[..j][i];
    assert keys[i] in multiset(keys[..j]);
  }

  /** Collecting a map's own items normalizes its entries' paths and changes nothing else. */
  lemma CollectItemsOf(entries: map<CacheKey, Entry>)
    ensures Collect(ItemsOf(entries, Keys(entries))) == map k | k in entries :: WithFilePaths(entries[k])
  {
    hide Collect, WithFilePaths;
    var keys := Keys(entries);
    var items := ItemsOf(entries, keys);
    forall k | k in entries
      ensures k in Collect(items) && Collect(items)[k] == WithFilePaths(entries[k])
    {
      assert k in multiset(keys);
      var i :| 0 <= i < |keys| && keys[i] == k;
      forall j | i < j < |items|
        ensures items[j].0 != items[i].0
      {
        KeysAreDistinct(entries, i, j);
      }
      CollectedLast(items, i);
    }
    forall k | k in Collect(items)
      ensures k in entries
    {
      var i := CollectedFrom(items, k);
      assert keys[i] in keys;
    }
  }

  /** The file of an empty cache: the magic, `LKCACHE` and a four, the version of the entries, eight, and no items. */
  lemma EmptyFile()
    ensures EncodeMap(map[])
         == [0x4C, 0x4B, 0x43, 0x41, 0x43, 0x48, 0x45, 4] + [8, 0, 0, 0] + [0, 0, 0, 0, 0, 0, 0, 0]
  {
    hide Keys, WriteMany;
    var none: map<CacheKey, Entry> := map[];
    assert Keys(none) == [] && ItemsOf(none, []) == [];
    assert WriteMany(ITEM, []) == [] by { NothingWritten(); }
    LittleEight(0);
    LittleFour(8);
  }

  lemma NothingWritten()
    ensures WriteMany(ITEM, []) == []
  {
  }

  ghost predicate Storable(entries: map<CacheKey, Entry>) {
    forall k | k in entries :: Fits(entries[k]) && PathsAreFixed(entries[k])
  }

  lemma ItemsOfFit(entries: map<CacheKey, Entry>)
    requires InMemory(entries) && forall k | k in entries :: Fits(entries[k])
    ensures ItemsFit(ItemsOf(entries, Keys(entries)))
  {
    hide Fits, Encode;
  }

  /** What was decoded fits: normalizing paths only shortens them. */
  lemma DecodedFits(b: Bytes, entries: map<CacheKey, Entry>, k: CacheKey)
    requires Decode(b) == Some(entries) && k in entries
    ensures Fits(entries[k])
  {
    hide WithFilePaths, Fits;
    var items := ReadItems(b).value;
    ItemsRead(b);
    var i := CollectedFrom(items, k);
    CollectedLast(items, i);
    FilePathsFit(items[i].1);
  }

  lemma DecodeOfEncoded(entries: map<CacheKey, Entry>)
    requires InMemory(entries) && forall k | k in entries :: Fits(entries[k])
    ensures Decode(EncodeMap(entries)) == Some(map k | k in entries :: WithFilePaths(entries[k]))
  {
    hide WithFilePaths, Fits, Collect, WriteItems, ReadItems;
    ItemsOfFit(entries);
    FileExact(EncodeMap(entries), ItemsOf(entries, Keys(entries)));
    CollectItemsOf(entries);
  }

  lemma AllFixedPathsStay(entries: map<CacheKey, Entry>)
    ensures (map k | k in entries :: WithFilePaths(entries[k])) == entries
       <==> forall k | k in entries :: PathsAreFixed(entries[k])
  {
    hide WithFilePaths, PathsAreFixed;
    var w := map k | k in entries :: WithFilePaths(entries[k]);
    forall k | k in entries
      ensures PathsAreFixed(entries[k]) <==> w[k] == entries[k]
    {
      FixedPathsStay(entries[k]);
    }
  }

  /** A cache loads back as it was saved exactly when each of its entries does. */
  lemma RoundTrip(entries: map<CacheKey, Entry>)
    requires InMemory(entries)
    ensures Decode(EncodeMap(entries)) == Some(entries) <==> Storable(entries)
  {
    hide WithFilePaths, Fits, PathsAreFixed, Decode, EncodeMap;
    AllFixedPathsStay(entries);
    if Decode(EncodeMap(entries)) == Some(entries) {
      forall k | k in entries
        ensures Fits(entries[k])
      {
        DecodedFits(EncodeMap(entries), entries, k);
      }
    }
    if forall k | k in entries :: Fits(entries[k]) {
      DecodeOfEncoded(entries);
    }
  }

  // ----- One damaged entry -----

  lemma {:induction false} ManyFails(b: Bytes, at: nat, before: nat, count: nat)
    requires before < count && ReadMany(ITEM, b, at, before).Some?
    requires ITEM.read(b, ReadMany(ITEM, b, at, before).value.1).None?
    ensures ReadMany(ITEM, b, at, count).None?
    decreases before
  {
    hide ReadPair;
    if before > 0 {
      ManyFails(b, ITEM.read(b, at).value.1, before - 1, count - 1);
    }
  }

  /** A payload that does not decode discards the whole file, whatever surrounds it. */
  lemma OneBadPayloadRejectsTheFile(before: seq<Item>, count: u64, key: CacheKey, payload: Bytes, rest: Bytes)
    requires ItemsFit(before) && |before| < count && |payload| <= U64_MAX
    requires Entries.Decode(payload).None?
    ensures var bad := key + (Le(|payload|, 8) + (payload + rest));
      Decode(HEADER + (Le(count, 8) + (WriteMany(ITEM, before) + bad))).None?
  {
    hide WriteMany, ReadMany, DecodeRaw, ReadPair;
    var tail := key + (Le(|payload|, 8) + (payload + rest));
    var body := WriteMany(ITEM, before) + tail;
    var b := HEADER + (Le(count, 8) + body);
    var start := |HEADER| + 8;
    var bad := start + |WriteMany(ITEM, before)|;
    assert HasAt(b, 0, b);
    HasAtConcat(b, 0, HEADER, Le(count, 8) + body);
    HasAtConcat(b, |HEADER|, Le(count, 8), body);
    HasAtConcat(b, start, WriteMany(ITEM, before), tail);
    HasAtConcat(b, bad, key, Le(|payload|, 8) + (payload + rest));
    HasAtConcat(b, bad + 32, Le(|payload|, 8), payload + rest);
    HasAtConcat(b, bad + 40, payload, rest);
    U64Exact(b, |HEADER|, count, start);
    U64Exact(b, bad + 32, |payload|, bad + 40);
    BadItem(b, bad, payload);
    ItemsExact();
    forall i | 0 <= i < |before|
      ensures ITEM.fits(before[i])
    {
      ItemFits(before[i]);
    }
    ManyWritten(ITEM, b, start, before);
    ManyFails(b, start, |before|, count);
  }

  lemma BadItem(b: Bytes, at: nat, payload: Bytes)
    requires at + 40 + |payload| <= |b| && b[at + 40..at + 40 + |payload|] == payload
    requires ReadU64(b, at + 32) == Some((|payload|, at + 40))
    requires DecodeRaw(payload).None?
    ensures ITEM.read(b, at).None?
  {
    hide DecodeRaw;
    assert ReadPayload(b, at + 32).None?;
    assert ITEM.read(b, at) == ReadPair(KEY, PAYLOAD, b, at);
  }

  // ----- The store -----

  lemma ItemBytes(key: CacheKey, e: Entry)
    ensures ITEM.write((key, e)) == key + (Le(|Encode(e)|, 8) + Encode(e))
  {
    hide Encode;
    assert ITEM.write((key, e)) == KEY.write(key) + PAYLOAD.write(e);
  }

  class Store {
    var entries: map<CacheKey, Entry>

    constructor ()
      ensures entries == map[]
    {
      entries := map[];
    }

    method Insert(key: CacheKey, entry: Entry)
      modifies this
      ensures entries == old(entries)[key := entry]
    {
      entries := entries[key := entry];
    }

    method OrderedKeys() returns (keys: seq<CacheKey>)
      ensures keys == Keys(entries)
    {
      KeyLeIsTotalOrder();
      keys := SortedElements(entries.Keys, KeyLe);
    }

    /** The bytes depend on what is held and not on how it came to be held. */
    method EncodeFile() returns (bytes: Bytes)
      ensures bytes == EncodeMap(entries)
    {
      hide Keys, WriteMany, Le;
      var out := new EntryEncoder.ByteBuffer();
      out.Extend(MAGIC);
      out.Extend(Le(FORMAT_VERSION, 4));
      assert out.data == HEADER;
      out.Extend(Le(|entries|, 8));
      var keys := OrderedKeys();
      PutItems(out, keys);
      bytes := out.data;
      ghost var items := ItemsOf(entries, keys);
      Regrouped(HEADER, Le(|items|, 8), WriteMany(ITEM, items));
      assert bytes == WriteItems(items);
    }

    method PutItems(out: EntryEncoder.ByteBuffer, keys: seq<CacheKey>)
      requires forall k | k in keys :: k in entries
      modifies out
      ensures out.data == old(out.data) + WriteMany(ITEM, ItemsOf(entries, keys))
      ensures entries == old(entries)
    {
      hide ReadPair, Pair;
      ghost var items := ItemsOf(entries, keys);
      ghost var was := out.data;
      var payload := new EntryEncoder.ByteBuffer();
      assert items[0..] == items;
      for i := 0 to |keys|
        invariant entries == old(entries)
        invariant was + WriteMany(ITEM, items) == out.data + WriteMany(ITEM, items[i..])
      {
        assert items[i..][1..] == items[i + 1..];
        Regrouped(out.data, ITEM.write(items[i]), WriteMany(ITEM, items[i + 1..]));
        PutItem(out, payload, keys[i], entries[keys[i]]);
      }
      assert out.data + [] == out.data;
    }
  }

  /** One key, and its entry framed by its length; the payload buffer is reused. */
  method PutItem(out: EntryEncoder.ByteBuffer, payload: EntryEncoder.ByteBuffer, key: CacheKey, entry: Entry)
    requires out != payload
    modifies out, payload
    ensures out.data == old(out.data) + ITEM.write((key, entry))
  {
    hide Encode;
    ItemBytes(key, entry);
    ghost var len := Le(|Encode(entry)|, 8);
    Regrouped(out.data, key, len + Encode(entry));
    out.Extend(key);
    payload.Clear();
    payload.PutEntry(entry);
    assert payload.data == Encode(entry);
    Regrouped(out.data, len, Encode(entry));
    out.Extend(Le(|payload.data|, 8));
    out.Extend(payload.data);
  }

  lemma HeaderIs(b: Bytes)
    ensures HEADER <= b <==> |b| >= 12 && b[0..8] == MAGIC && Word32(b[8..12]) == FORMAT_VERSION
  {
    WordSizes();
    LeThenFromLe(FORMAT_VERSION, 4);
    if |b| >= 12 {
      FromLeThenLe(b[8..12]);
      assert b[..12] == b[0..8] + b[8..12];
      assert HEADER[0..8] == MAGIC && HEADER[8..12] == Le(FORMAT_VERSION, 4);
      assert HEADER <= b ==> b[0..8] == HEADER[0..8] && b[8..12] == HEADER[8..12];
    }
  }

  /** One framed entry, field by field. */
  lemma ItemReads(b: Bytes, at: nat)
    ensures ITEM.read(b, at)
            == if at + 32 > |b| then None
               else
                 match ReadPayload(b, at + 32)
                 case None => None
                 case Some((e, end)) => Some(((b[at..at + 32], e), end))
  {
    hide ReadPayload;
    assert ITEM.read(b, at) == ReadPair(KEY, PAYLOAD, b, at);
  }

  /** `Store::decode`, offset by offset. */
  method DecodeFile(bytes: Bytes) returns (r: Option<map<CacheKey, Entry>>)
    ensures r == Decode(bytes)
  {
    hide Entries.Decode, DecodeRaw, Collect, ReadMany;
    HeaderIs(bytes);
    var at := 0;
    if at + |MAGIC| > |bytes| || bytes[at..at + |MAGIC|] != MAGIC {
      return None;
    }
    at := at + |MAGIC|;
    if at + 4 > |bytes| || Word32(bytes[at..at + 4]) != FORMAT_VERSION {
      return None;
    }
    at := at + 4;
    if at + 8 > |bytes| {
      return None;
    }
    var count := Word64(bytes[at..at + 8]);
    at := at + 8;
    ghost var items;
    r, at, items := DecodeItems(bytes, at, count);
    if r.Some? && at != |bytes| {
      r := None;
    }
  }

  /** The loop of `decode`: framed entries inserted as they are read. */
  method DecodeItems(bytes: Bytes, start: nat, count: u64)
    returns (r: Option<map<CacheKey, Entry>>, at: nat, ghost items: seq<Item>)
    requires start <= |bytes|
    ensures r.None? ==> ReadMany(ITEM, bytes, start, count).None?
    ensures r.Some? ==> ReadMany(ITEM, bytes, start, count) == Some((items, at)) && r.value == Collect(items)
  {
    hide Entries.DecodeRaw, WithFilePaths, ReadPair;
    var entries: map<CacheKey, Entry> := map[];
    ghost var left: nat := count;
    at, items := start, [];
    PrependNothing(ReadMany(ITEM, bytes, start, count));
    for i := 0 to count
      invariant at <= |bytes|
      invariant left == count - i
      invariant entries == Collect(items)
      invariant ReadMany(ITEM, bytes, start, count) == Prepend(items, ReadMany(ITEM, bytes, at, left))
    {
      PrependStep(ITEM, items, bytes, at, left);
      var item, next, raw := DecodeItem(bytes, at);
      if item.None? {
        return None, at, items;
      }
      var (key, entry) := item.value;
      at := next;
      entries := entries[key := entry];
      assert (items + [(key, raw)])[..|items|] == items;
      items := items + [(key, raw)];
      left := left - 1;
    }
    PrependDone(ITEM, items, bytes, at);
    return Some(entries), at, items;
  }

  method DecodeItem(bytes: Bytes, start: nat) returns (r: Option<Item>, at: nat, ghost raw: Entry)
    requires start <= |bytes|
    ensures r.None? ==> ITEM.read(bytes, start).None?
    ensures r.Some? ==> at <= |bytes| && ITEM.read(bytes, start) == Some(((r.value.0, raw), at))
    ensures r.Some? ==> r.value.1 == WithFilePaths(raw)
  {
    hide DecodeRaw, WithFilePaths;
    ItemReads(bytes, start);
    raw := Entry([], [], [], [], []);
    at := start;
    if at + 32 > |bytes| {
      return None, at, raw;
    }
    var key := bytes[at..at + 32];
    at := at + 32;
    if at + 8 > |bytes| {
      return None, at, raw;
    }
    var len := Word64(bytes[at..at + 8]);
    at := at + 8;
    if at + len > |bytes| {
      return None, at, raw;
    }
    var payload := bytes[at..at + len];
    at := at + len;
    var entry, _ := EntryDecoder.Decode(payload);
    if entry.None? {
      return None, at, raw;
    }
    return Some((key, entry.value)), at, DecodeRaw(payload).value;
  }
}
