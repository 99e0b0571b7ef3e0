/** Small arithmetic that is shared: the least and greatest of two, powers of two, and what a
    32-bit counter does at its end. */
module Numbers {
  const U32_MAX := 0xFFFF_FFFF

  function Min(a: nat, b: nat): nat { if a <= b then a else b }

  function Max(a: nat, b: nat): nat { if a >= b then a else b }

  function Pow2(n: nat): (p: nat)
    ensures p >= 1
  {
    if n == 0 then 1 else 2 * Pow2(n - 1)
  }

  /** A counter that stops at the end. */
  function SaturatingAdd(a: nat, b: nat): nat { Min(a + b, U32_MAX) }

  function SaturatingMinus(a: nat, b: nat): nat { if a >= b then a - b else 0 }

  /** A counter that goes round: `n`, kept in 32 bits. */
  function Counted(n: nat): nat { n % 0x1_0000_0000 }

  /** Counting on from a counter is counting on. */
  lemma CountsAdd(a: nat, n: nat)
    ensures Counted(Counted(a) + n) == Counted(a + n)
  {
    var sum := a % 0x1_0000_0000 + n;
    var rest := sum % 0x1_0000_0000;
    RemainderIs(a + n, a / 0x1_0000_0000 + sum / 0x1_0000_0000, rest);
  }

  lemma RemainderIs(value: nat, quotient: nat, rest: nat)
    requires value == quotient * 0x1_0000_0000 + rest && rest < 0x1_0000_0000
    ensures value % 0x1_0000_0000 == rest
  {
  }
}
