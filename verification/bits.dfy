/**
  Machine words and the handful of bitwise operators the timer code uses,
  defined on natural numbers bit by bit (least significant bit first) so that
  facts about them are proved rather than taken from a bit-vector decision
  procedure.
 */
module Bits {

  const U32_RANGE: nat := 0x1_0000_0000
  const U64_RANGE: nat := 0x1_0000_0000_0000_0000

  /** The value range of a Rust `u32`. */
  type uint32 = x: nat | x < 0x1_0000_0000

  /** The value range of a Rust `u64`. */
  type uint64 = x: nat | x < 0x1_0000_0000_0000_0000

  function Pow2(n: nat): (r: nat)
    ensures r >= 1
  {
    if n == 0 then 1 else 2 * Pow2(n - 1)
  }

  /** Truncation of an unbounded result to 64 bits, as wrapping `u64`
      arithmetic does. */
  function Wrap64(x: nat): (r: uint64)
    ensures x < U64_RANGE ==> r == x
  {
    x % U64_RANGE
  }

  /** Wrapping an intermediate sum does not change the wrapped total. */
  lemma WrapAddLeft(a: nat, b: nat)
    ensures Wrap64(Wrap64(a) + b) == Wrap64(a + b)
  {
    var q := a / U64_RANGE;
    assert a + b == q * U64_RANGE + (Wrap64(a) + b);
    ModAddMultiple(q, Wrap64(a) + b);
  }

  lemma ModAddMultiple(q: nat, x: nat)
    ensures (q * U64_RANGE + x) % U64_RANGE == x % U64_RANGE
  {
  }

  /** Bit `i` of `x` is one. */
  predicate Bit(x: nat, i: nat)
  {
    if i == 0 then x % 2 == 1 else Bit(x / 2, i - 1)
  }

  /** `a | b` */
  function Or(a: nat, b: nat): nat
    decreases a + b
  {
    if a == 0 && b == 0 then 0
    else 2 * Or(a / 2, b / 2) + (if a % 2 == 1 || b % 2 == 1 then 1 else 0)
  }

  /** `a & b` */
  function And(a: nat, b: nat): nat
    decreases a
  {
    if a == 0 || b == 0 then 0
    else 2 * And(a / 2, b / 2) + (if a % 2 == 1 && b % 2 == 1 then 1 else 0)
  }

  /** `a & !b`: the bits of `a` that `b` does not mask. */
  function AndNot(a: nat, b: nat): (r: nat)
    ensures r <= a
    decreases a
  {
    if a == 0 then 0
    else 2 * AndNot(a / 2, b / 2) + (if a % 2 == 1 && b % 2 == 0 then 1 else 0)
  }

  /** `x >> n` */
  function Shr(x: nat, n: nat): nat
  {
    if n == 0 then x else Shr(x / 2, n - 1)
  }

  /** `x << n` on a `u64`: bits shifted past bit 63 are lost. Shift amounts
      of 64 or more are excluded; the code only shifts by 32. */
  function Shl64(x: uint64, n: nat): (r: uint64)
    requires n < 64
    ensures x < Pow2(64 - n) ==> r == x * Pow2(n)
  {
    if x < Pow2(64 - n) then
      ShiftFits(x, n);
      Wrap64(x * Pow2(n))
    else
      Wrap64(x * Pow2(n))
  }

  lemma ShiftFits(x: nat, n: nat)
    requires n <= 64 && x < Pow2(64 - n)
    ensures x * Pow2(n) < U64_RANGE
  {
    Pow2Add(64 - n, n);
    Pow2Table();
    MulStrict(x, Pow2(64 - n), Pow2(n));
  }

  /** The powers of two the timer code names. */
  lemma Pow2Table()
    ensures Pow2(29) == 0x2000_0000 && Pow2(30) == 0x4000_0000
    ensures Pow2(32) == U32_RANGE && Pow2(64) == U64_RANGE
  {
    assert Pow2(2) == 4;
    Pow2Add(2, 2);
    Pow2Add(4, 4);
    Pow2Add(8, 8);
    Pow2Add(16, 8);
    Pow2Add(24, 4);
    Pow2Add(28, 1);
    Pow2Add(28, 2);
    Pow2Add(16, 16);
    Pow2Add(32, 32);
  }

  lemma MulStrict(a: nat, b: nat, c: nat)
    requires a < b && c >= 1
    ensures a * c < b * c
  {
  }

  lemma {:induction false} Pow2Add(a: nat, b: nat)
    ensures Pow2(a + b) == Pow2(a) * Pow2(b)
    decreases a
  {
    if a > 0 {
      Pow2Add(a - 1, b);
    }
  }

  lemma {:induction false} BitOfZero(i: nat)
    ensures !Bit(0, i)
  {
    if i > 0 {
      BitOfZero(i - 1);
    }
  }

  /** Bit `i` of `2^j` is set exactly when `i == j`. */
  lemma {:induction false} BitOfPow2(j: nat, i: nat)
    ensures Bit(Pow2(j), i) <==> i == j
    decreases i
  {
    if i == 0 {
      if j > 0 {
        assert Pow2(j) % 2 == 0;
      }
    } else if j == 0 {
      assert Pow2(0) / 2 == 0;
      BitOfZero(i - 1);
    } else {
      assert Pow2(j) / 2 == Pow2(j - 1);
      BitOfPow2(j - 1, i - 1);
    }
  }

  /** Testing the lowest bit of `x >> n` tests bit `n` of `x`. */
  lemma {:induction false} ShrLowBit(x: nat, n: nat)
    ensures Bit(x, n) <==> Shr(x, n) % 2 == 1
    decreases n
  {
    if n > 0 {
      ShrLowBit(x / 2, n - 1);
    }
  }

  /** `x & 1` keeps the lowest bit only. */
  lemma AndOne(x: nat)
    ensures And(x, 1) == x % 2
  {
  }

  lemma {:induction false} OrZeroLeft(b: nat)
    ensures Or(0, b) == b
    decreases b
  {
    if b > 0 {
      OrZeroLeft(b / 2);
    }
  }

  /** Or-ing a value into the bits above a narrower one is addition: the two
      operands share no bit. */
  lemma {:induction false} OrDisjointHigh(a: nat, b: nat, k: nat)
    requires a < Pow2(k)
    ensures Or(a, b * Pow2(k)) == a + b * Pow2(k)
    decreases k
  {
    if k == 0 {
      assert a == 0;
      OrZeroLeft(b);
    } else {
      var h := b * Pow2(k);
      assert h == 2 * (b * Pow2(k - 1));
      assert h / 2 == b * Pow2(k - 1) && h % 2 == 0;
      OrDisjointHigh(a / 2, b, k - 1);
      if a != 0 || h != 0 {
        assert Or(a, h) == 2 * Or(a / 2, h / 2) + a % 2;
      }
    }
  }

  /** Or stays inside an `n`-bit word. */
  lemma {:induction false} OrBound(a: nat, b: nat, n: nat)
    requires a < Pow2(n) && b < Pow2(n)
    ensures Or(a, b) < Pow2(n)
    decreases n
  {
    if n > 0 && (a != 0 || b != 0) {
      OrBound(a / 2, b / 2, n - 1);
    }
  }

  /** Bit `i` of `a | b` is set exactly when it is set in `a` or in `b`. */
  lemma {:induction false} OrBit(a: nat, b: nat, i: nat)
    ensures Bit(Or(a, b), i) <==> Bit(a, i) || Bit(b, i)
    decreases i
  {
    if a == 0 && b == 0 {
      BitOfZero(i);
    } else if i > 0 {
      OrBit(a / 2, b / 2, i - 1);
    }
  }

  /** Bit `i` of `a & !b` is set exactly when it is set in `a` and not in `b`. */
  lemma {:induction false} AndNotBit(a: nat, b: nat, i: nat)
    ensures Bit(AndNot(a, b), i) <==> Bit(a, i) && !Bit(b, i)
    decreases i
  {
    if a == 0 {
      BitOfZero(i);
    } else if i > 0 {
      AndNotBit(a / 2, b / 2, i - 1);
    }
  }

  /** Setting bit `k` of `x` changes bit `k` alone. */
  lemma SetBitOnly(x: nat, k: nat)
    ensures Bit(Or(x, Pow2(k)), k)
    ensures forall i :: i != k ==> (Bit(Or(x, Pow2(k)), i) <==> Bit(x, i))
  {
    forall i
      ensures Bit(Or(x, Pow2(k)), i) <==> Bit(x, i) || i == k
    {
      OrBit(x, Pow2(k), i);
      BitOfPow2(k, i);
    }
  }

  /** Clearing bit `k` of `x` changes bit `k` alone. */
  lemma ClearBitOnly(x: nat, k: nat)
    ensures !Bit(AndNot(x, Pow2(k)), k)
    ensures forall i :: i != k ==> (Bit(AndNot(x, Pow2(k)), i) <==> Bit(x, i))
  {
    forall i
      ensures Bit(AndNot(x, Pow2(k)), i) <==> Bit(x, i) && i != k
    {
      AndNotBit(x, Pow2(k), i);
      BitOfPow2(k, i);
    }
  }

  /** `x & !(1 << k)` on a `u32`. */
  function ClearBit32(x: uint32, k: nat): (r: uint32)
    ensures !Bit(r, k)
    ensures forall i :: i != k ==> (Bit(r, i) <==> Bit(x, i))
  {
    ClearBitOnly(x, k);
    AndNot(x, Pow2(k))
  }

  /** `x | (1 << k)` on a `u32`. */
  function SetBit32(x: uint32, k: nat): (r: uint32)
    requires k < 32
    ensures Bit(r, k)
    ensures forall i :: i != k ==> (Bit(r, i) <==> Bit(x, i))
  {
    BitOfWord(k);
    OrBound(x, Pow2(k), 32);
    SetBitOnly(x, k);
    Or(x, Pow2(k))
  }

  /** A single bit below 32 is a `u32` word. */
  lemma BitOfWord(k: nat)
    requires k < 32
    ensures Pow2(k) < Pow2(32) == U32_RANGE
  {
    Pow2Table();
    Pow2Strict(k, 32);
  }

  lemma {:induction false} Pow2Strict(a: nat, b: nat)
    requires a < b
    ensures Pow2(a) < Pow2(b)
    decreases b
  {
    if a < b - 1 {
      Pow2Strict(a, b - 1);
    }
  }
}
