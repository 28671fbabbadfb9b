/** Failure and optional values, and the machine integers of the original program. */
module Wrappers {
  datatype Option<+T> = None | Some(value: T)

  datatype Result<+T, +E> = Ok(value: T) | Err(error: E)

  type uint8 = n: int | 0 <= n < 0x100
  type uint16 = n: int | 0 <= n < 0x1_0000
  type uint32 = n: int | 0 <= n < 0x1_0000_0000
  type uint64 = n: int | 0 <= n < 0x1_0000_0000_0000_0000

  type bytes = seq<uint8>

  /** `u8::wrapping_add` */
  function WrapAdd8(a: uint8, b: uint8): uint8 { (a + b) % 0x100 }

  /** `u8::wrapping_sub` */
  function WrapSub8(a: uint8, b: uint8): uint8 { (a - b) % 0x100 }

  /** `u8::saturating_add` */
  function SatAdd8(a: uint8, b: uint8): uint8 { if a + b < 0x100 then a + b else 0xFF }

  /** One more, as a release build computes it on `u16`. */
  function Succ16(n: uint16): uint16 { if n == 0xFFFF then 0 else n + 1 }

  /** Wrapped successors and distances agree with the unwrapped ones. */
  lemma Mod256Succ(x: int)
    ensures (x % 0x100 + 1) % 0x100 == (x + 1) % 0x100
  {
  }

  lemma Mod256Add(x: int, k: int)
    ensures (x % 0x100 + k) % 0x100 == (x + k) % 0x100
  {
  }

  lemma Mod256Distance(p: int, d: int)
    requires 0 <= d <= 0xFF
    ensures ((p + d) % 0x100 - p % 0x100) % 0x100 == d
  {
  }

  lemma Mod256Back(p: int, a: uint8)
    ensures a == (p + (a - p % 0x100) % 0x100) % 0x100
  {
  }

  lemma Multiples(d: int, x: int)
    requires d > 0
    ensures (x >= 1 ==> d * x >= d) && (x <= -1 ==> d * x <= -d)
  {
  }

  /** A quotient is the number whose multiple is just below. */
  lemma DivideIs(n: int, d: int, k: int)
    requires d > 0 && d * k <= n < d * k + d
    ensures n / d == k
  {
    Multiples(d, k - n / d);
    assert d * (k - n / d) == d * k - d * (n / d);
  }

  /** Dividing twice is dividing by the product. */
  lemma DivDiv(acc: nat, m: nat, n: nat)
    requires m > 0 && n > 0
    ensures m * n > 0 && acc / m / n == acc / (m * n)
  {
    var q := acc / m / n;
    var r1, r2 := acc % m, acc / m % n;
    assert acc == m * (n * q + r2) + r1;
    assert m * (n * q + r2) == m * n * q + m * r2;
    BelowProduct(r1, r2, m, n);
    DivideIs(acc, m * n, q);
  }

  lemma BelowProduct(r1: nat, r2: nat, m: nat, n: nat)
    requires r1 < m && r2 < n
    ensures 0 <= m * r2 + r1 < m * n
  {
    assert m * (n - 1 - r2) >= 0;
    assert m * (n - 1 - r2) == m * n - m - m * r2;
  }
}
