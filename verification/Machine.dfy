/** Machine integers as bounded mathematical integers, with the checked,
    saturating and wrapping operations the program names explicitly. */
module Machine {
  import opened Wrappers

  type u8 = x: int | 0 <= x < 256
  type u16 = x: int | 0 <= x < 0x1_0000
  type u32 = x: int | 0 <= x < 0x1_0000_0000
  type u64 = x: int | 0 <= x < 0x1_0000_0000_0000_0000

  const U32_MAX: u32 := 0xFFFF_FFFF
  const U64_MAX: u64 := 0xFFFF_FFFF_FFFF_FFFF

  function CheckedAddU32(a: u32, b: u32): Option<u32> {
    if a + b <= U32_MAX then Some(a + b) else None
  }

  function CheckedSubU32(a: u32, b: u32): Option<u32> {
    if b <= a then Some(a - b) else None
  }

  function SaturatingAddU32(a: u32, b: u32): u32 {
    if a + b <= U32_MAX then a + b else U32_MAX
  }

  function SaturatingMulU32(a: u32, b: u32): u32 {
    assert 0 <= a * b;
    if a * b <= U32_MAX then a * b else U32_MAX
  }

  function SaturatingSubU32(a: u32, b: u32): u32 {
    if b <= a then a - b else 0
  }

  function SaturatingSub(a: nat, b: nat): nat {
    if b <= a then a - b else 0
  }

  // Unchecked 32-bit arithmetic, as a release build performs it.
  function WrapU32(x: nat): u32 { x % 0x1_0000_0000 }

  function CheckedAddU64(a: u64, b: u64): Option<u64> {
    if a + b <= U64_MAX then Some(a + b) else None
  }

  function CheckedSubU64(a: u64, b: u64): Option<u64> {
    if b <= a then Some(a - b) else None
  }

  function CheckedMulU64(a: u64, b: u64): Option<u64> {
    assert 0 <= a * b;
    if a * b <= U64_MAX then Some(a * b) else None
  }

  function CeilDiv(a: nat, b: nat): nat
    requires b > 0
  {
    if a % b == 0 then a / b else a / b + 1
  }

  // Little-endian fields.

  function LeU16(b: seq<u8>, at: nat): u16
    requires at + 2 <= |b|
  {
    var low: int, high: int := b[at], b[at + 1];
    low + 0x100 * high
  }

  function LeU32(b: seq<u8>, at: nat): u32
    requires at + 4 <= |b|
  {
    var low: int, high: int := LeU16(b, at), LeU16(b, at + 2);
    low + 0x1_0000 * high
  }

  function LeU64(b: seq<u8>, at: nat): u64
    requires at + 8 <= |b|
  {
    var low: int, high: int := LeU32(b, at), LeU32(b, at + 4);
    low + 0x1_0000_0000 * high
  }

  // The number little-endian bytes stand for, as a sum of weighted bytes.

  ghost function Number2(b: seq<u8>, at: nat): nat
    requires at + 2 <= |b|
  {
    var b0: int, b1: int := b[at], b[at + 1];
    b0 + 0x100 * b1
  }

  ghost function Number4(b: seq<u8>, at: nat): nat
    requires at + 4 <= |b|
  {
    var b0: int, b1: int, b2: int, b3: int := b[at], b[at + 1], b[at + 2], b[at + 3];
    b0 + 0x100 * b1 + 0x1_0000 * b2 + 0x100_0000 * b3
  }

  ghost function Number8(b: seq<u8>, at: nat): nat
    requires at + 8 <= |b|
  {
    Number4(b, at) + 0x1_0000_0000 * Number4(b, at + 4)
  }

  lemma FieldsAreNumbers(b: seq<u8>, at: nat)
    ensures at + 2 <= |b| ==> LeU16(b, at) == Number2(b, at)
    ensures at + 4 <= |b| ==> LeU32(b, at) == Number4(b, at)
    ensures at + 8 <= |b| ==> LeU64(b, at) == Number8(b, at)
  {
  }

  // Whether bit `place` (a power of two) of x is set.
  predicate Bit(x: nat, place: nat)
    requires place > 0
  {
    x / place % 2 == 1
  }

  lemma MulMono(a: nat, b: nat, c: nat)
    requires a <= b
    ensures a * c <= b * c
  {
  }

  lemma OneMoreFits(n: nat, limit: nat, size: nat)
    requires n < limit
    ensures n * size + size <= limit * size
  {
    MulMono(n + 1, limit, size);
    assert (n + 1) * size == n * size + size;
  }

  lemma DivAtMost(x: nat, d: nat)
    requires d >= 1
    ensures 0 <= x / d <= x && x / d * d <= x < (x / d + 1) * d
  {
    assert x == x / d * d + x % d;
    MulMono(1, d, x / d);
  }

  // Powers of two, for the sizes a volume gives as shifts.

  function Pow2(n: nat): (r: nat)
    ensures r > 0
  {
    if n == 0 then 1 else 2 * Pow2(n - 1)
  }

  lemma SectorSizes()
    ensures Pow2(9) == 512 && Pow2(10) == 1024 && Pow2(11) == 2048 && Pow2(12) == 4096
    ensures Pow2(16) == 0x1_0000 && Pow2(25) == 0x200_0000
  {
    assert Pow2(4) == 16;
    assert Pow2(8) == 256;
    assert Pow2(16) == 0x1_0000;
    assert Pow2(20) == 0x10_0000;
  }

  lemma {:induction false} Pow2AtMost(n: nat, m: nat)
    requires n <= m
    ensures Pow2(n) <= Pow2(m)
  {
    if n < m { Pow2AtMost(n, m - 1); }
  }

  lemma {:induction false} Pow2Sum(a: nat, b: nat)
    ensures Pow2(a) * Pow2(b) == Pow2(a + b)
  {
    if b > 0 {
      Pow2Sum(a, b - 1);
      Doubled(Pow2(a), Pow2(b - 1));
    }
  }

  lemma Doubled(a: nat, b: nat)
    ensures a * (2 * b) == 2 * (a * b)
  {
  }
}
