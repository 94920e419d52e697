/** C integer widths used by the helper headers (LP64 Linux) and small shared helpers. */
module CTypes {

  const U8_LIMIT: int := 0x100
  const U16_LIMIT: int := 0x1_0000
  const U64_LIMIT: int := 0x1_0000_0000_0000_0000
  const I32_MIN: int := -0x8000_0000
  const I32_MAX: int := 0x7fff_ffff
  const I64_MIN: int := -0x8000_0000_0000_0000
  const I64_MAX: int := 0x7fff_ffff_ffff_ffff

  /** `unsigned char` */
  type u8 = x: int | 0 <= x < U8_LIMIT
  /** `unsigned short` */
  type u16 = x: int | 0 <= x < U16_LIMIT
  /** `unsigned long`, `u64` and `unsigned long long` on LP64 Linux */
  type u64 = x: int | 0 <= x < U64_LIMIT
  /** `int` */
  type i32 = x: int | I32_MIN <= x <= I32_MAX
  /** `long` on LP64 Linux */
  type i64 = x: int | I64_MIN <= x <= I64_MAX

  /** A value that may be absent; used for C pointers that may be NULL. */
  datatype Option<T> = None | Some(value: T)

  function Min(a: int, b: int): int { if a < b then a else b }
  function Max(a: int, b: int): int { if a < b then b else a }

  /** Multiplying by a non-negative factor keeps the order. */
  lemma MulMonotone(a: int, b: int, c: nat)
    ensures a <= b ==> a * c <= b * c
  {
  }

  /** Integer division by a positive divisor rounds down. */
  lemma DivFloor(p: nat, d: nat)
    requires d > 0
    ensures 0 <= p / d && (p / d) * d <= p < (p / d + 1) * d
    ensures p >= d ==> p / d >= 1
    ensures p == 0 ==> p / d == 0
  {
  }

  /** Integer division by a positive divisor keeps the order. */
  lemma DivMonotone(p1: nat, p2: nat, d: nat)
    requires d > 0 && p1 <= p2
    ensures p1 / d <= p2 / d
  {
    DivFloor(p1, d);
    DivFloor(p2, d);
    MulMonotone(p2 / d + 1, p1 / d, d);
  }

  lemma DivAtMost(p: nat, d: nat, k: nat)
    requires d > 0 && p <= d * k
    ensures p / d <= k
  {
    DivFloor(p, d);
    MulMonotone(k + 1, p / d, d);
  }
}
