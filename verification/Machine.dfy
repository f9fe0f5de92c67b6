// Fixed-width unsigned integers and the Rust operations on them that saturate.
module Machine {
  const U8_MAX: int := 0xff
  const U32_MAX: int := 0xffff_ffff
  const U64_MAX: int := 0xffff_ffff_ffff_ffff

  type U8 = x: int | 0 <= x <= U8_MAX
  type U32 = x: int | 0 <= x <= U32_MAX
  type U64 = x: int | 0 <= x <= U64_MAX

  datatype Option<+T> = None | Some(value: T)

  function Min(a: int, b: int): int {
    if a <= b then a else b
  }

  function Max(a: int, b: int): int {
    if a >= b then a else b
  }

  function SatAdd32(a: U32, b: U32): U32 {
    Min(a + b, U32_MAX)
  }

  function SatAdd64(a: U64, b: U64): U64 {
    Min(a + b, U64_MAX)
  }

  function SatSub64(a: U64, b: U64): U64 {
    if a < b then 0 else a - b
  }

  function SatMul32(a: U32, b: U32): U32 {
    if a * b <= U32_MAX && 0 <= a * b then a * b else U32_MAX
  }

  function SatMul64(a: U64, b: U64): U64 {
    if a * b <= U64_MAX && 0 <= a * b then a * b else U64_MAX
  }

  lemma {:induction false} MulMonotone(x: int, y: int, b: nat)
    requires x <= y
    ensures x * b <= y * b
  {
    assert 0 <= (y - x) * b;
  }

  lemma {:induction false} MulStep(n: nat, x: int)
    requires 0 < n
    ensures n * x == (n - 1) * x + x
  {
  }

  // Comparing a floored quotient is comparing without division.
  lemma {:induction false} QuotientAtLeast(a: nat, b: nat, t: int)
    requires 0 < b
    ensures t <= a / b <==> t * b <= a
  {
    var q := a / b;
    assert a == q * b + a % b && (q + 1) * b == q * b + b;
    if t <= q {
      MulMonotone(t, q, b);
    } else {
      MulMonotone(q + 1, t, b);
    }
  }
}
