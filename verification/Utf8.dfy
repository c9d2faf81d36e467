/**
  UTF-8, as Rust's `String` and `str::from_utf8` fix it: well-formed byte sequences are exactly
  those of RFC 3629, section 4, and a text is a sequence of Unicode scalar values.
*/
module Utf8 {
  import opened Wrappers
  import opened Words

  function EncodeChar(c: char): (b: Bytes)
    ensures 1 <= |b| <= 4
  {
    var n := c as int;
    if n < 0x80 then [n]
    else if n < 0x800 then [0xC0 + n / 64, 0x80 + n % 64]
    else if n < 0x1_0000 then [0xE0 + n / 4096, 0x80 + n / 64 % 64, 0x80 + n % 64]
    else [0xF0 + n / 262144, 0x80 + n / 4096 % 64, 0x80 + n / 64 % 64, 0x80 + n % 64]
  }

  /** `text.as_bytes()`. */
  function Encode(text: string): Bytes {
    if text == "" then [] else EncodeChar(text[0]) + Encode(text[1..])
  }

  predicate Continuation(b: u8) {
    0x80 <= b < 0xC0
  }

  /** Six bits at a time: the payload of two, three and four byte sequences. */
  function Join2(x: int, y: int): int {
    x * 64 + y
  }

  function Join3(x: int, y: int, z: int): int {
    Join2(x, y) * 64 + z
  }

  function Join4(x: int, y: int, z: int, w: int): int {
    Join3(x, y, z) * 64 + w
  }

  /** The character a byte sequence starts with, by the syntax of RFC 3629, section 4. */
  function DecodeChar(b: Bytes): (r: Option<(char, nat)>)
    ensures r.Some? ==> 1 <= r.value.1 <= 4 && r.value.1 <= |b|
  {
    if |b| >= 1 && b[0] < 0x80 then
      Some((b[0] as char, 1))
    else if |b| >= 2 && 0xC2 <= b[0] <= 0xDF && Continuation(b[1]) then
      Some((Join2(b[0] - 0xC0, b[1] - 0x80) as char, 2))
    else if |b| >= 3 && 0xE0 <= b[0] <= 0xEF && Continuation(b[1]) && Continuation(b[2])
            && (b[0] == 0xE0 ==> 0xA0 <= b[1]) && (b[0] == 0xED ==> b[1] <= 0x9F) then
      Some((Join3(b[0] - 0xE0, b[1] - 0x80, b[2] - 0x80) as char, 3))
    else if |b| >= 4 && 0xF0 <= b[0] <= 0xF4 && Continuation(b[1]) && Continuation(b[2]) && Continuation(b[3])
            && (b[0] == 0xF0 ==> 0x90 <= b[1]) && (b[0] == 0xF4 ==> b[1] <= 0x8F) then
      Some((Join4(b[0] - 0xF0, b[1] - 0x80, b[2] - 0x80, b[3] - 0x80) as char, 4))
    else None
  }

  /** `str::from_utf8`. */
  function Decode(b: Bytes): Option<string>
    decreases |b|
  {
    if b == [] then Some("")
    else
      var (c, n) :- DecodeChar(b);
      var rest :- Decode(b[n..]);
      Some([c] + rest)
  }

  predicate Valid(b: Bytes) {
    Decode(b).Some?
  }

  /** `str::is_char_boundary`. */
  predicate IsBoundary(b: Bytes, i: nat) {
    i == 0 || i == |b| || (i < |b| && !Continuation(b[i]))
  }

  // ----- Decoding and encoding are inverse -----

  lemma JoinDigits(x: int, y: int, z: int, w: int)
    requires 0 <= y < 64 && 0 <= z < 64 && 0 <= w < 64
    ensures Join2(x, y) / 64 == x && Join2(x, y) % 64 == y
    ensures Join3(x, y, z) / 4096 == x && Join3(x, y, z) / 64 % 64 == y && Join3(x, y, z) % 64 == z
    ensures Join4(x, y, z, w) / 262144 == x && Join4(x, y, z, w) / 4096 % 64 == y
    ensures Join4(x, y, z, w) / 64 % 64 == z && Join4(x, y, z, w) % 64 == w
  {
  }

  lemma DigitsJoin(n: nat)
    ensures Join2(n / 64, n % 64) == n
    ensures Join3(n / 4096, n / 64 % 64, n % 64) == n
    ensures Join4(n / 262144, n / 4096 % 64, n / 64 % 64, n % 64) == n
  {
    assert n / 4096 == n / 64 / 64;
    assert n / 262144 == n / 4096 / 64;
  }

  lemma CharShape(c: char)
    ensures !Continuation(EncodeChar(c)[0])
    ensures forall i | 1 <= i < |EncodeChar(c)| :: Continuation(EncodeChar(c)[i])
    ensures DecodeChar(EncodeChar(c)) == Some((c, |EncodeChar(c)|))
  {
    var n := c as int;
    DigitsJoin(n);
    assert n < 0xD800 || 0xE000 <= n < 0x11_0000;
    var b := EncodeChar(c);
    if |b| == 3 {
      assert b[0] == 0xE0 ==> n / 4096 == 0;
      assert b[0] == 0xED ==> n < 0xD800;
    } else if |b| == 4 {
      assert n / 262144 <= 4;
    }
  }

  /** Decoding a character looks at that character's bytes only. */
  lemma DecodeCharPrefix(b: Bytes, rest: Bytes)
    requires DecodeChar(b).Some?
    ensures DecodeChar(b + rest) == DecodeChar(b)
  {
  }

  lemma TwoBytesEncode(b: Bytes)
    requires |b| >= 2 && 0xC2 <= b[0] <= 0xDF && Continuation(b[1])
    ensures EncodeChar(Join2(b[0] - 0xC0, b[1] - 0x80) as char) == b[..2]
  {
    JoinDigits(b[0] as int - 0xC0, b[1] - 0x80, 0, 0);
  }

  lemma ThreeBytesEncode(b: Bytes)
    requires |b| >= 3 && 0xE0 <= b[0] <= 0xEF && Continuation(b[1]) && Continuation(b[2])
    requires (b[0] == 0xE0 ==> 0xA0 <= b[1]) && (b[0] == 0xED ==> b[1] <= 0x9F)
    ensures EncodeChar(Join3(b[0] - 0xE0, b[1] - 0x80, b[2] - 0x80) as char) == b[..3]
  {
    JoinDigits(b[0] as int - 0xE0, b[1] - 0x80, b[2] - 0x80, 0);
  }

  lemma FourBytesEncode(b: Bytes)
    requires |b| >= 4 && 0xF0 <= b[0] <= 0xF4 && Continuation(b[1]) && Continuation(b[2]) && Continuation(b[3])
    requires (b[0] == 0xF0 ==> 0x90 <= b[1]) && (b[0] == 0xF4 ==> b[1] <= 0x8F)
    ensures EncodeChar(Join4(b[0] - 0xF0, b[1] - 0x80, b[2] - 0x80, b[3] - 0x80) as char) == b[..4]
  {
    JoinDigits(b[0] as int - 0xF0, b[1] - 0x80, b[2] - 0x80, b[3] - 0x80);
  }

  lemma DecodedCharEncodes(b: Bytes)
    requires DecodeChar(b).Some?
    ensures var (c, n) := DecodeChar(b).value; EncodeChar(c) == b[..n]
  {
    hide Join2, Join3, Join4;
    match DecodeChar(b).value.1
    case 1 => assert EncodeChar(b[0] as char) == [b[0]] == b[..1];
    case 2 => TwoBytesEncode(b);
    case 3 => ThreeBytesEncode(b);
    case _ => FourBytesEncode(b);
  }

  lemma {:induction false} EncodeThenDecode(text: string)
    ensures Decode(Encode(text)) == Some(text)
  {
    if text != "" {
      var head := EncodeChar(text[0]);
      CharShape(text[0]);
      DecodeCharPrefix(head, Encode(text[1..]));
      assert Encode(text)[|head|..] == Encode(text[1..]);
      EncodeThenDecode(text[1..]);
      assert [text[0]] + text[1..] == text;
    }
  }

  lemma {:induction false} DecodeThenEncode(b: Bytes)
    requires Valid(b)
    ensures Encode(Decode(b).value) == b
    decreases |b|
  {
    hide DecodeChar, EncodeChar;
    if b != [] {
      var (c, n) := DecodeChar(b).value;
      DecodedCharEncodes(b);
      DecodeThenEncode(b[n..]);
      var text := Decode(b).value;
      assert text[0] == c && text[1..] == Decode(b[n..]).value;
    }
  }

  /** The bytes of a text are the only ones that decode to it. */
  lemma DecodeExact(b: Bytes, text: string)
    ensures Decode(b) == Some(text) <==> b == Encode(text)
  {
    EncodeThenDecode(text);
    if Decode(b) == Some(text) {
      DecodeThenEncode(b);
    }
  }

  lemma EncodeInjective(a: string, b: string)
    requires Encode(a) == Encode(b)
    ensures a == b
  {
    EncodeThenDecode(a);
    EncodeThenDecode(b);
  }

  lemma {:induction false} EncodeConcat(a: string, b: string)
    ensures Encode(a + b) == Encode(a) + Encode(b)
  {
    if a == "" {
      assert a + b == b;
    } else {
      assert (a + b)[1..] == a[1..] + b;
      EncodeConcat(a[1..], b);
    }
  }

  // ----- Character boundaries -----

  lemma ValidConcat(a: Bytes, b: Bytes)
    requires Valid(a) && Valid(b)
    ensures Valid(a + b)
  {
    DecodeThenEncode(a);
    DecodeThenEncode(b);
    EncodeConcat(Decode(a).value, Decode(b).value);
    EncodeThenDecode(Decode(a).value + Decode(b).value);
  }

  lemma ValidStart(b: Bytes)
    requires Valid(b) && b != []
    ensures !Continuation(b[0])
  {
  }

  lemma SomeChar(b: Bytes)
    requires Valid(b) && b != []
    ensures DecodeChar(b).Some?
  {
  }

  lemma NothingIsValid()
    ensures Valid([])
  {
  }

  /** The first character's bytes: no boundary falls inside them, and they are a text. */
  lemma FirstChar(b: Bytes)
    requires Valid(b) && b != []
    ensures var n := DecodeChar(b).value.1;
      Valid(b[..n]) && Valid(b[n..]) && forall k | 1 <= k < n :: Continuation(b[k])
  {
    hide DecodeChar, EncodeChar;
    var (c, n) := DecodeChar(b).value;
    DecodedCharEncodes(b);
    CharShape(c);
    assert forall k | 1 <= k < n :: b[..n][k] == b[k];
    assert [c][1..] == "" && EncodeChar(c) + [] == EncodeChar(c);
    assert Encode([c]) == b[..n];
    EncodeThenDecode([c]);
  }

  /** Cutting a text at a character boundary leaves two texts. */
  lemma {:induction false} SplitAtBoundary(b: Bytes, i: nat)
    requires Valid(b) && i <= |b| && IsBoundary(b, i)
    ensures Valid(b[..i]) && Valid(b[i..])
    decreases |b|
  {
    hide DecodeChar, Valid;
    if i == 0 || i == |b| {
      assert Valid([]) by { NothingIsValid(); }
      assert b[..i] == (if i == 0 then [] else b) && b[i..] == (if i == 0 then b else []);
    } else {
      SomeChar(b);
      var n := DecodeChar(b).value.1;
      FirstChar(b);
      var rest := b[n..];
      SplitAtBoundary(rest, i - n);
      assert b[..i] == b[..n] + rest[..i - n] && b[i..] == rest[i - n..];
      ValidConcat(b[..n], rest[..i - n]);
    }
  }

  lemma EncodeSplit(s: string, i: nat)
    requires i <= |s|
    ensures Encode(s) == Encode(s[..i]) + Encode(s[i..])
  {
    assert s == s[..i] + s[i..];
    EncodeConcat(s[..i], s[i..]);
  }

  lemma FirstByte(s: string)
    requires s != ""
    ensures Encode(s) != [] && !Continuation(Encode(s)[0])
  {
    CharShape(s[0]);
  }

  /** An encoding is a prefix of another exactly when its text is. */
  lemma PrefixOfEncoding(a: string, b: string)
    ensures Encode(a) <= Encode(b) <==> a <= b
  {
    hide Encode;
    if a <= b {
      EncodeSplit(b, |a|);
      assert b[..|a|] == a;
    }
    if Encode(a) <= Encode(b) {
      SamePrefix(a, b);
    }
  }

  lemma {:induction false} SamePrefix(a: string, b: string)
    requires Encode(a) <= Encode(b)
    ensures a <= b
  {
    hide EncodeChar, DecodeChar;
    if a != "" {
      FirstByte(a);
      assert b != "";
      var p, q := EncodeChar(a[0]), EncodeChar(b[0]);
      CharShape(a[0]);
      CharShape(b[0]);
      var rest := Encode(b)[|Encode(a)|..];
      assert Encode(b) == p + (Encode(a[1..]) + rest) == q + Encode(b[1..]);
      DecodeCharPrefix(p, Encode(a[1..]) + rest);
      DecodeCharPrefix(q, Encode(b[1..]));
      assert Encode(b)[|p|..] == Encode(a[1..]) + rest == Encode(b[1..]);
      SamePrefix(a[1..], b[1..]);
    }
  }

  /** The boundaries are the places in front of which there is a text. */
  lemma BoundaryExactly(b: Bytes, i: nat)
    requires Valid(b)
    ensures IsBoundary(b, i) <==> i <= |b| && Valid(b[..i])
  {
    hide DecodeChar, Decode, Encode, Valid;
    if i <= |b| {
      if IsBoundary(b, i) {
        SplitAtBoundary(b, i);
      }
      if Valid(b[..i]) && i < |b| {
        RestOfText(b, i);
        ValidStart(b[i..]);
        assert b[i..][0] == b[i];
      }
    }
  }

  lemma RestOfText(b: Bytes, i: nat)
    requires Valid(b) && i <= |b| && Valid(b[..i])
    ensures Valid(b[i..])
  {
    var text, front := Decode(b).value, Decode(b[..i]).value;
    hide Decode, Encode;
    DecodeThenEncode(b);
    DecodeThenEncode(b[..i]);
    SamePrefix(front, text);
    EncodeSplit(text, |front|);
    assert text[..|front|] == front;
    assert b[i..] == Encode(text[|front|..]);
    EncodeThenDecode(text[|front|..]);
  }
}
