/** Cache keys: the bytes a run and a file are hashed from, and that no two inputs share them. */
module CacheKeys {
  import opened Wrappers
  import opened Words
  import opened Reports
  import Utf8

  const FORMAT_VERSION: u32 := 8

  type CacheKey = b: Bytes | |b| == 32 witness seq(32, _ => 0)

  datatype Grammar = Grammar(id: string, digest: ContentHash)

  datatype Run = Run(
    engineVersion: string, hostApi: Bytes, compileEnv: Bytes, analysis: Bytes,
    ruleset: Bytes, config: Bytes, grammars: seq<Grammar>)

  /** What one file adds; the date only when its result depends on it. */
  datatype FileInput = FileInput(path: string, content: ContentHash, today: Option<string>)

  /** `lanekeep-cache`. */
  const DOMAIN: Bytes := [0x6C, 0x61, 0x6E, 0x65, 0x6B, 0x65, 0x65, 0x70, 0x2D, 0x63, 0x61, 0x63, 0x68, 0x65]

  // ----- The bytes hashed -----

  /** `write_field`: length-prefixed, so concatenation is unambiguous. */
  function Field(bytes: Bytes): Bytes {
    Le(|bytes|, 8) + bytes
  }

  function GrammarFields(grammars: seq<Grammar>, rest: Bytes): Bytes {
    if grammars == [] then rest
    else Field(Utf8.Encode(grammars[0].id)) + (Field(grammars[0].digest) + GrammarFields(grammars[1..], rest))
  }

  function RunFields(r: Run, rest: Bytes): Bytes {
    Field(DOMAIN) + (Field(Le(FORMAT_VERSION, 4)) + (Field(Utf8.Encode(r.engineVersion)) + DigestFields(r, rest)))
  }

  function DigestFields(r: Run, rest: Bytes): Bytes {
    Field(r.hostApi) + (Field(r.compileEnv) + (Field(r.analysis) + ConfigFields(r, rest)))
  }

  function ConfigFields(r: Run, rest: Bytes): Bytes {
    Field(r.ruleset) + (Field(r.config) + (Field(Le(|r.grammars|, 8)) + GrammarFields(r.grammars, rest)))
  }

  function FileFields(f: FileInput): Bytes {
    Field(Utf8.Encode(f.path)) + (Field(f.content) + (if f.today.Some? then Field(Utf8.Encode(f.today.value)) else []))
  }

  /** Everything absorbed before the digest is taken. */
  function Preimage(r: Run, f: FileInput): Bytes {
    RunFields(r, FileFields(f))
  }

  predicate Countable(bytes: Bytes) {
    |bytes| <= U64_MAX
  }

  /** Sizes are `usize`. */
  predicate RunInMemory(r: Run) {
    && Countable(Utf8.Encode(r.engineVersion)) && Countable(r.hostApi) && Countable(r.compileEnv)
    && Countable(r.analysis) && Countable(r.ruleset) && Countable(r.config)
    && |r.grammars| <= U64_MAX
    && forall i | 0 <= i < |r.grammars| :: Countable(Utf8.Encode(r.grammars[i].id))
  }

  predicate FileInMemory(f: FileInput) {
    Countable(Utf8.Encode(f.path)) && (f.today.Some? ==> Countable(Utf8.Encode(f.today.value)))
  }

  // ----- No two inputs share them -----

  lemma FieldCancels(a: Bytes, x: Bytes, b: Bytes, y: Bytes)
    requires Countable(a) && Countable(b)
    requires Field(a) + x == Field(b) + y
    ensures a == b && x == y
  {
    var p, q := Le(|a|, 8), Le(|b|, 8);
    assert (Field(a) + x)[..8] == p && (Field(b) + y)[..8] == q;
    WordSizes();
    LeThenFromLe(|a|, 8);
    LeThenFromLe(|b|, 8);
    assert (Field(a) + x)[8..8 + |a|] == a && (Field(b) + y)[8..8 + |b|] == b;
    assert (Field(a) + x)[8 + |a|..] == x && (Field(b) + y)[8 + |b|..] == y;
  }

  lemma TextFieldCancels(a: string, x: Bytes, b: string, y: Bytes)
    requires Countable(Utf8.Encode(a)) && Countable(Utf8.Encode(b))
    requires Field(Utf8.Encode(a)) + x == Field(Utf8.Encode(b)) + y
    ensures a == b && x == y
  {
    FieldCancels(Utf8.Encode(a), x, Utf8.Encode(b), y);
    Utf8.EncodeInjective(a, b);
  }

  lemma {:induction false} GrammarsCancel(g: seq<Grammar>, x: Bytes, h: seq<Grammar>, y: Bytes)
    requires |g| == |h| && GrammarFields(g, x) == GrammarFields(h, y)
    requires forall i | 0 <= i < |g| :: Countable(Utf8.Encode(g[i].id))
    requires forall i | 0 <= i < |h| :: Countable(Utf8.Encode(h[i].id))
    ensures g == h && x == y
  {
    hide Field;
    if g != [] {
      var restG, restH := GrammarFields(g[1..], x), GrammarFields(h[1..], y);
      TextFieldCancels(g[0].id, Field(g[0].digest) + restG, h[0].id, Field(h[0].digest) + restH);
      FieldCancels(g[0].digest, restG, h[0].digest, restH);
      GrammarsCancel(g[1..], x, h[1..], y);
      assert g == [g[0]] + g[1..] && h == [h[0]] + h[1..];
    }
  }

  lemma ConfigCancels(r: Run, x: Bytes, s: Run, y: Bytes)
    requires RunInMemory(r) && RunInMemory(s)
    requires ConfigFields(r, x) == ConfigFields(s, y)
    ensures r.ruleset == s.ruleset && r.config == s.config && r.grammars == s.grammars && x == y
  {
    hide Field, GrammarFields;
    var gr, gs := GrammarFields(r.grammars, x), GrammarFields(s.grammars, y);
    var nr, ns := Le(|r.grammars|, 8), Le(|s.grammars|, 8);
    FieldCancels(r.ruleset, Field(r.config) + (Field(nr) + gr), s.ruleset, Field(s.config) + (Field(ns) + gs));
    FieldCancels(r.config, Field(nr) + gr, s.config, Field(ns) + gs);
    FieldCancels(nr, gr, ns, gs);
    WordSizes();
    LeThenFromLe(|r.grammars|, 8);
    LeThenFromLe(|s.grammars|, 8);
    GrammarsCancel(r.grammars, x, s.grammars, y);
  }

  lemma DigestsCancel(r: Run, x: Bytes, s: Run, y: Bytes)
    requires RunInMemory(r) && RunInMemory(s)
    requires DigestFields(r, x) == DigestFields(s, y)
    ensures r.hostApi == s.hostApi && r.compileEnv == s.compileEnv && r.analysis == s.analysis
    ensures ConfigFields(r, x) == ConfigFields(s, y)
  {
    hide Field, ConfigFields;
    var cr, cs := ConfigFields(r, x), ConfigFields(s, y);
    FieldCancels(
      r.hostApi, Field(r.compileEnv) + (Field(r.analysis) + cr),
      s.hostApi, Field(s.compileEnv) + (Field(s.analysis) + cs));
    FieldCancels(r.compileEnv, Field(r.analysis) + cr, s.compileEnv, Field(s.analysis) + cs);
    FieldCancels(r.analysis, cr, s.analysis, cs);
  }

  lemma RunCancels(r: Run, x: Bytes, s: Run, y: Bytes)
    requires RunInMemory(r) && RunInMemory(s)
    requires RunFields(r, x) == RunFields(s, y)
    ensures r == s && x == y
  {
    hide Field, DigestFields, ConfigFields;
    var dr, ds := DigestFields(r, x), DigestFields(s, y);
    var version := Field(Le(FORMAT_VERSION, 4));
    var engineR, engineS := Field(Utf8.Encode(r.engineVersion)), Field(Utf8.Encode(s.engineVersion));
    FieldCancels(DOMAIN, version + (engineR + dr), DOMAIN, version + (engineS + ds));
    FieldCancels(Le(FORMAT_VERSION, 4), engineR + dr, Le(FORMAT_VERSION, 4), engineS + ds);
    TextFieldCancels(r.engineVersion, dr, s.engineVersion, ds);
    DigestsCancel(r, x, s, y);
    ConfigCancels(r, x, s, y);
  }

  lemma FileCancels(f: FileInput, g: FileInput)
    requires FileInMemory(f) && FileInMemory(g)
    requires FileFields(f) == FileFields(g)
    ensures f == g
  {
    var df := if f.today.Some? then Field(Utf8.Encode(f.today.value)) else [];
    var dg := if g.today.Some? then Field(Utf8.Encode(g.today.value)) else [];
    TextFieldCancels(f.path, Field(f.content) + df, g.path, Field(g.content) + dg);
    FieldCancels(f.content, df, g.content, dg);
    if f.today.Some? && g.today.Some? {
      assert df + [] == df && dg + [] == dg;
      TextFieldCancels(f.today.value, [], g.today.value, []);
    }
  }

  /** Equal bytes come from equal inputs, field for field; a dated key is never an undated one. */
  lemma PreimageInjective(r: Run, f: FileInput, s: Run, g: FileInput)
    requires RunInMemory(r) && RunInMemory(s) && FileInMemory(f) && FileInMemory(g)
    ensures Preimage(r, f) == Preimage(s, g) <==> r == s && f == g
  {
    hide RunFields, FileFields;
    if Preimage(r, f) == Preimage(s, g) {
      RunCancels(r, FileFields(f), s, FileFields(g));
      FileCancels(f, g);
    }
  }

  /** Every preimage starts with the domain, `lanekeep-cache`, and the version of the entries, eight, each behind its
    * length. */
  lemma PreimageStarts(r: Run, f: FileInput)
    ensures [14, 0, 0, 0, 0, 0, 0, 0]
            + [0x6C, 0x61, 0x6E, 0x65, 0x6B, 0x65, 0x65, 0x70, 0x2D, 0x63, 0x61, 0x63, 0x68, 0x65]
            + [4, 0, 0, 0, 0, 0, 0, 0] + [8, 0, 0, 0] <= Preimage(r, f)
  {
    hide DigestFields, Utf8.Encode, Le;
    LittleFour(8);
    LittleEight(14);
    LittleEight(4);
    var rest := Field(Utf8.Encode(r.engineVersion)) + DigestFields(r, FileFields(f));
    assert Field(DOMAIN) == [14, 0, 0, 0, 0, 0, 0, 0] + DOMAIN;
    assert Field(Le(FORMAT_VERSION, 4)) == [4, 0, 0, 0, 0, 0, 0, 0] + [8, 0, 0, 0];
    assert Preimage(r, f) == Field(DOMAIN) + Field(Le(FORMAT_VERSION, 4)) + rest;
  }

  lemma LittleFour(n: u8)
    ensures Le(n, 4) == [n, 0, 0, 0]
  {
    assert Le(n, 4) == [n] + Le(0, 3);
    assert Le(0, 3) == [0] + Le(0, 2);
    assert Le(0, 2) == [0] + Le(0, 1);
    assert Le(0, 1) == [0] + Le(0, 0);
  }

  lemma LittleEight(n: u8)
    ensures Le(n, 8) == [n, 0, 0, 0, 0, 0, 0, 0]
  {
    LittleFour(0);
    assert Le(n, 8) == [n] + Le(0, 7);
    assert Le(0, 7) == [0] + Le(0, 6);
    assert Le(0, 6) == [0] + Le(0, 5);
    assert Le(0, 5) == [0] + Le(0, 4);
  }

  // ----- The hasher -----

  /** What a `blake3::Hasher` has absorbed. */
  class Hasher {
    var absorbed: Bytes

    constructor (absorbed: Bytes)
      ensures this.absorbed == absorbed
    {
      this.absorbed := absorbed;
    }

    method Update(bytes: Bytes)
      modifies this
      ensures absorbed == old(absorbed) + bytes
    {
      absorbed := absorbed + bytes;
    }

    method WriteField(bytes: Bytes)
      modifies this
      ensures absorbed == old(absorbed) + Field(bytes)
    {
      Update(Le(|bytes|, 8));
      Update(bytes);
    }
  }

  /** A run's inputs, absorbed once; every file's key continues from a copy. */
  class RunKey {
    const prefix: Hasher
    ghost const run: Run

    ghost predicate Valid()
      reads prefix
    {
      prefix.absorbed == RunFields(run, [])
    }

    constructor (r: Run)
      ensures Valid() && run == r && fresh(prefix)
    {
      var h := new Hasher([]);
      prefix := h;
      run := r;
      new;
      hide Field, GrammarFields, ConfigFields, DigestFields;
      h.WriteField(DOMAIN);
      h.WriteField(Le(FORMAT_VERSION, 4));
      h.WriteField(Utf8.Encode(r.engineVersion));
      RunFieldsStart(r);
      AbsorbDigests(h, r);
      AbsorbConfig(h, r);
    }

    /** `for_file` and `for_dated_file`: the bytes the key is the digest of. */
    method ForFile(f: FileInput) returns (h: Hasher)
      requires Valid()
      ensures fresh(h) && h.absorbed == Preimage(run, f)
    {
      hide Field, RunFields;
      RunFieldsAppend(run, FileFields(f));
      h := new Hasher(prefix.absorbed);
      ghost var date := if f.today.Some? then Field(Utf8.Encode(f.today.value)) else [];
      Regrouped(h.absorbed, Field(Utf8.Encode(f.path)), Field(f.content) + date);
      h.WriteField(Utf8.Encode(f.path));
      Regrouped(h.absorbed, Field(f.content), date);
      h.WriteField(f.content);
      if f.today.Some? {
        h.WriteField(Utf8.Encode(f.today.value));
      } else {
        assert h.absorbed + [] == h.absorbed;
      }
    }
  }

  lemma RunFieldsStart(r: Run)
    ensures RunFields(r, [])
         == [] + Field(DOMAIN) + Field(Le(FORMAT_VERSION, 4)) + Field(Utf8.Encode(r.engineVersion))
           + DigestFields(r, [])
  {
    hide Field, DigestFields;
    var v, e, d := Field(Le(FORMAT_VERSION, 4)), Field(Utf8.Encode(r.engineVersion)), DigestFields(r, []);
    Regrouped(Field(DOMAIN), v, e + d);
    Regrouped(Field(DOMAIN) + v, e, d);
  }

  method AbsorbDigests(h: Hasher, r: Run)
    modifies h
    ensures h.absorbed + ConfigFields(r, []) == old(h.absorbed) + DigestFields(r, [])
  {
    hide Field, ConfigFields;
    var c := ConfigFields(r, []);
    Regrouped(h.absorbed, Field(r.hostApi), Field(r.compileEnv) + (Field(r.analysis) + c));
    h.WriteField(r.hostApi);
    Regrouped(h.absorbed, Field(r.compileEnv), Field(r.analysis) + c);
    h.WriteField(r.compileEnv);
    Regrouped(h.absorbed, Field(r.analysis), c);
    h.WriteField(r.analysis);
  }

  method AbsorbConfig(h: Hasher, r: Run)
    modifies h
    ensures h.absorbed == old(h.absorbed) + ConfigFields(r, [])
  {
    hide Field;
    ghost var g := GrammarFields(r.grammars, []);
    ghost var count := Field(Le(|r.grammars|, 8));
    Regrouped(h.absorbed, Field(r.ruleset), Field(r.config) + (count + g));
    h.WriteField(r.ruleset);
    Regrouped(h.absorbed, Field(r.config), count + g);
    h.WriteField(r.config);
    Regrouped(h.absorbed, count, g);
    h.WriteField(Le(|r.grammars|, 8));
    ghost var was := h.absorbed;
    assert r.grammars[0..] == r.grammars;
    for i := 0 to |r.grammars|
      invariant was + g == h.absorbed + GrammarFields(r.grammars[i..], [])
    {
      assert r.grammars[i..][1..] == r.grammars[i + 1..];
      ghost var rest := GrammarFields(r.grammars[i + 1..], []);
      var grammar := r.grammars[i];
      Regrouped(h.absorbed, Field(Utf8.Encode(grammar.id)), Field(grammar.digest) + rest);
      h.WriteField(Utf8.Encode(grammar.id));
      Regrouped(h.absorbed, Field(grammar.digest), rest);
      h.WriteField(grammar.digest);
    }
    assert h.absorbed + [] == h.absorbed;
  }

  lemma {:induction false} GrammarFieldsAppend(g: seq<Grammar>, rest: Bytes)
    ensures GrammarFields(g, rest) == GrammarFields(g, []) + rest
  {
    hide Field;
    if g == [] {
      assert [] + rest == rest;
    } else {
      GrammarFieldsAppend(g[1..], rest);
      var a, b, c := Field(Utf8.Encode(g[0].id)), Field(g[0].digest), GrammarFields(g[1..], []);
      Regrouped(b, c, rest);
      Regrouped(a, b + c, rest);
    }
  }

  lemma RunFieldsAppend(r: Run, rest: Bytes)
    ensures RunFields(r, rest) == RunFields(r, []) + rest
  {
    hide Field, GrammarFields;
    GrammarFieldsAppend(r.grammars, rest);
    var g, n := GrammarFields(r.grammars, []), Field(Le(|r.grammars|, 8));
    Regrouped(n, g, rest);
    Regrouped(Field(r.config), n + g, rest);
    Regrouped(Field(r.ruleset), Field(r.config) + (n + g), rest);
    DigestsAppend(r, rest);
  }

  lemma DigestsAppend(r: Run, rest: Bytes)
    requires ConfigFields(r, rest) == ConfigFields(r, []) + rest
    ensures RunFields(r, rest) == RunFields(r, []) + rest
  {
    hide Field, ConfigFields;
    var c := ConfigFields(r, []);
    var d := Field(r.analysis) + c;
    Regrouped(Field(r.analysis), c, rest);
    Regrouped(Field(r.compileEnv), d, rest);
    Regrouped(Field(r.hostApi), Field(r.compileEnv) + d, rest);
    var digests := DigestFields(r, []);
    var e, v := Field(Utf8.Encode(r.engineVersion)), Field(Le(FORMAT_VERSION, 4));
    Regrouped(e, digests, rest);
    Regrouped(v, e + digests, rest);
    Regrouped(Field(DOMAIN), v + (e + digests), rest);
  }
}
