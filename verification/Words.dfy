/** Fixed-width machine words, bytes, and the little-endian layout the cache formats use. */
module Words {
  type u8 = n: int | 0 <= n < 0x100
  type u16 = n: int | 0 <= n < 0x1_0000
  type u32 = n: int | 0 <= n < 0x1_0000_0000
  type u64 = n: int | 0 <= n < 0x1_0000_0000_0000_0000

  const U32_MAX: int := 0xFFFF_FFFF
  const U64_MAX: int := 0xFFFF_FFFF_FFFF_FFFF

  type Bytes = seq<u8>

  /** Moving the first remaining piece from what is to come to what is done. */
  lemma Regrouped(done: Bytes, piece: Bytes, rest: Bytes)
    ensures done + (piece + rest) == (done + piece) + rest
  {
  }

  function Pow256(width: nat): nat {
    if width == 0 then 1 else 256 * Pow256(width - 1)
  }

  /** `n.to_le_bytes()` for a word of `width` bytes. */
  function Le(n: nat, width: nat): (b: Bytes)
    ensures |b| == width
    decreases width
  {
    if width == 0 then [] else [n % 256] + Le(n / 256, width - 1)
  }

  /** `from_le_bytes`. */
  function FromLe(b: Bytes): nat {
    if b == [] then 0 else b[0] + 256 * FromLe(b[1..])
  }

  lemma {:induction false} LeThenFromLe(n: nat, width: nat)
    requires n < Pow256(width)
    ensures FromLe(Le(n, width)) == n
    decreases width
  {
    if width > 0 {
      assert n / 256 < Pow256(width - 1);
      LeThenFromLe(n / 256, width - 1);
      assert Le(n, width)[1..] == Le(n / 256, width - 1);
    }
  }

  lemma {:induction false} FromLeThenLe(b: Bytes)
    ensures FromLe(b) < Pow256(|b|)
    ensures Le(FromLe(b), |b|) == b
  {
    if b != [] {
      FromLeThenLe(b[1..]);
      assert FromLe(b) % 256 == b[0] && FromLe(b) / 256 == FromLe(b[1..]);
    }
  }

  lemma WordSizes()
    ensures Pow256(2) == 0x1_0000
    ensures Pow256(4) == 0x1_0000_0000
    ensures Pow256(8) == 0x1_0000_0000_0000_0000
  {
    assert Pow256(2) == 256 * Pow256(1);
    assert Pow256(4) == 256 * 256 * Pow256(2);
    assert Pow256(8) == 256 * 256 * 256 * 256 * Pow256(4);
  }

  /** `a.saturating_add(b)` on a `u64`. */
  function SaturatingAdd(a: u64, b: u64): u64 {
    if a + b > U64_MAX then U64_MAX else a + b
  }

  /** The same on a `u32`. */
  function SaturatingAdd32(a: u32, b: u32): u32 {
    if a + b > U32_MAX then U32_MAX else a + b
  }

  /** `u32::try_from(n).unwrap_or(u32::MAX)`. */
  function Narrowed(n: nat): u32 {
    if n > U32_MAX then U32_MAX else n
  }

  /** `a.saturating_sub(b)` on a `u64`. */
  function SaturatingSub(a: u64, b: u64): u64 {
    if a < b then 0 else a - b
  }
}
