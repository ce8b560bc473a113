/** Machine integers as bounded ints, and their little-endian byte form. */
module Bytes {
  type byte = b: int | 0 <= b < 0x100
  type u16 = n: int | 0 <= n < 0x1_0000
  type u32 = n: int | 0 <= n < 0x1_0000_0000
  type u64 = n: int | 0 <= n < 0x1_0000_0000_0000_0000
  type u128 = n: int | 0 <= n < 0x1_0000_0000_0000_0000_0000_0000_0000_0000

  type Bytes = seq<byte>

  const U16_MAX: int := 0xFFFF
  const U32_MAX: int := 0xFFFF_FFFF
  const U64_MAX: int := 0xFFFF_FFFF_FFFF_FFFF

  /** Rust's `u64::saturating_add`. */
  function SaturatingAdd(a: u64, b: u64): (r: u64)
    ensures r <= a + b
    ensures a + b <= U64_MAX ==> r == a + b
  {
    if a + b <= U64_MAX then a + b else U64_MAX
  }

  function Pow256(width: nat): (p: nat)
    ensures p > 0
  {
    if width == 0 then 1 else 256 * Pow256(width - 1)
  }

  /** The low `width` bytes of `n`, least significant first. */
  function Le(n: nat, width: nat): (r: Bytes)
    ensures |r| == width
  {
    if width == 0 then [] else [n % 256] + Le(n / 256, width - 1)
  }

  function FromLe(s: Bytes): (n: nat)
    ensures n < Pow256(|s|)
  {
    if s == [] then 0 else s[0] + 256 * FromLe(s[1..])
  }

  lemma {:induction false} FromLeOfLe(n: nat, width: nat)
    requires n < Pow256(width)
    ensures FromLe(Le(n, width)) == n
  {
    if width > 0 {
      FromLeOfLe(n / 256, width - 1);
      assert Le(n, width)[1..] == Le(n / 256, width - 1);
    }
  }

  lemma LeOfDigits(b: byte, n: nat, width: nat)
    ensures Le(b + 256 * n, width + 1) == [b] + Le(n, width)
  {
    assert (b + 256 * n) % 256 == b && (b + 256 * n) / 256 == n;
  }

  lemma {:induction false} LeOfFromLe(s: Bytes)
    ensures Le(FromLe(s), |s|) == s
  {
    if s != [] {
      LeOfFromLe(s[1..]);
      LeOfDigits(s[0], FromLe(s[1..]), |s| - 1);
      hide Le;
      assert s == [s[0]] + s[1..];
    }
  }

  lemma PowersOf256()
    ensures Pow256(2) == 0x1_0000
    ensures Pow256(4) == 0x1_0000_0000
    ensures Pow256(8) == 0x1_0000_0000_0000_0000
    ensures Pow256(16) == 0x1_0000_0000_0000_0000_0000_0000_0000_0000
  {
    assert Pow256(4) == 256 * (256 * Pow256(2));
    assert Pow256(8) == 256 * (256 * (256 * (256 * Pow256(4))));
    assert Pow256(16) == 256 * (256 * (256 * (256 * (256 * (256 * (256 * (256 * Pow256(8))))))));
  }

  // ---- Fixed-width fields ----

  function Le16(n: u16): (r: Bytes) ensures |r| == 2 { Le(n, 2) }
  function Le32(n: u32): (r: Bytes) ensures |r| == 4 { Le(n, 4) }
  function Le64(n: u64): (r: Bytes) ensures |r| == 8 { Le(n, 8) }
  function Le128(n: u128): (r: Bytes) ensures |r| == 16 { Le(n, 16) }

  function U16At(s: Bytes, at: nat): u16
    requires at + 2 <= |s|
  {
    PowersOf256();
    FromLe(s[at..at + 2])
  }

  function U32At(s: Bytes, at: nat): u32
    requires at + 4 <= |s|
  {
    PowersOf256();
    FromLe(s[at..at + 4])
  }

  function U64At(s: Bytes, at: nat): u64
    requires at + 8 <= |s|
  {
    PowersOf256();
    FromLe(s[at..at + 8])
  }

  function U128At(s: Bytes, at: nat): u128
    requires at + 16 <= |s|
  {
    PowersOf256();
    FromLe(s[at..at + 16])
  }

  /** Reading a field back where it was written gives the value written. */
  lemma ReadsBack16(s: Bytes, at: nat, n: u16)
    requires at + 2 <= |s| && s[at..at + 2] == Le16(n)
    ensures U16At(s, at) == n
  {
    PowersOf256();
    FromLeOfLe(n, 2);
  }

  lemma ReadsBack32(s: Bytes, at: nat, n: u32)
    requires at + 4 <= |s| && s[at..at + 4] == Le32(n)
    ensures U32At(s, at) == n
  {
    PowersOf256();
    FromLeOfLe(n, 4);
  }

  lemma ReadsBack64(s: Bytes, at: nat, n: u64)
    requires at + 8 <= |s| && s[at..at + 8] == Le64(n)
    ensures U64At(s, at) == n
  {
    PowersOf256();
    FromLeOfLe(n, 8);
  }

  lemma ReadsBack128(s: Bytes, at: nat, n: u128)
    requires at + 16 <= |s| && s[at..at + 16] == Le128(n)
    ensures U128At(s, at) == n
  {
    PowersOf256();
    FromLeOfLe(n, 16);
  }

  /** A field holds the bytes of the number read from it. */
  lemma FieldBytes(s: Bytes, at: nat)
    ensures at + 2 <= |s| ==> s[at..at + 2] == Le16(U16At(s, at))
    ensures at + 4 <= |s| ==> s[at..at + 4] == Le32(U32At(s, at))
    ensures at + 8 <= |s| ==> s[at..at + 8] == Le64(U64At(s, at))
    ensures at + 16 <= |s| ==> s[at..at + 16] == Le128(U128At(s, at))
  {
    hide Le, FromLe;
    if at + 2 <= |s| { LeOfFromLe(s[at..at + 2]); }
    if at + 4 <= |s| { LeOfFromLe(s[at..at + 4]); }
    if at + 8 <= |s| { LeOfFromLe(s[at..at + 8]); }
    if at + 16 <= |s| { LeOfFromLe(s[at..at + 16]); }
  }
}
