/** Bitwise operators and powers of two on natural numbers, for arithmetic that mixes masks with sums. */
module Bits {

  const U32: nat := 0x1_0000_0000
  const U64: nat := 0x1_0000_0000_0000_0000

  function And(a: nat, b: nat): (r: nat)
    ensures r <= a
  {
    if a == 0 then 0 else 2 * And(a / 2, b / 2) + (if a % 2 == 1 && b % 2 == 1 then 1 else 0)
  }

  function Or(a: nat, b: nat): (r: nat)
    decreases a + b
  {
    if a == 0 && b == 0 then 0
    else 2 * Or(a / 2, b / 2) + (if a % 2 == 1 || b % 2 == 1 then 1 else 0)
  }

  function Pow2(k: nat): (p: nat)
    ensures p > 0
  {
    if k == 0 then 1 else 2 * Pow2(k - 1)
  }

  function ShiftUp(k: nat, m: nat): nat {
    if k == 0 then m else 2 * ShiftUp(k - 1, m)
  }

  lemma EightUp(m: nat)
    ensures ShiftUp(8, m) == 0x100 * m
  {
    assert ShiftUp(1, m) == 2 * m;
    assert ShiftUp(2, m) == 4 * m;
    assert ShiftUp(4, m) == 0x10 * m;
    assert ShiftUp(6, m) == 0x40 * m;
  }

  ghost predicate PowerOfTwo(n: nat) {
    n == 1 || (n > 1 && n % 2 == 0 && PowerOfTwo(n / 2))
  }

  lemma {:induction false} AndSelf(a: nat)
    ensures And(a, a) == a
  {
    if a > 0 { AndSelf(a / 2); }
  }

  /** The test that hashmap_create makes of its size accepts exactly the powers of two. */
  lemma {:induction false} PowerTest(n: nat)
    requires n > 0
    ensures And(n, n - 1) == 0 <==> PowerOfTwo(n)
  {
    if n == 1 {
    } else if n % 2 == 0 {
      assert (n - 1) / 2 == n / 2 - 1;
      PowerTest(n / 2);
    } else {
      assert (n - 1) / 2 == n / 2;
      AndSelf(n / 2);
    }
  }

  /** There is no power of two strictly between 2^k and 2^(k+1). */
  lemma {:induction false} PowerGap(n: nat, k: nat)
    requires PowerOfTwo(n) && n > Pow2(k)
    ensures n >= Pow2(k + 1)
  {
    if k > 0 { PowerGap(n / 2, k - 1); }
  }

  lemma {:induction false} PowIsPower(k: nat)
    ensures PowerOfTwo(Pow2(k))
  {
    if k > 0 {
      PowIsPower(k - 1);
      assert Pow2(k) / 2 == Pow2(k - 1);
    }
  }

  lemma {:induction false} PowGrows(j: nat, k: nat)
    ensures j < k ==> Pow2(j) < Pow2(k)
  {
    if j < k {
      PowGrows(j, k - 1);
    }
  }

  lemma WordPowers()
    ensures Pow2(31) == 0x8000_0000 && Pow2(32) == U32
  {
    assert Pow2(8) == 0x100;
    assert Pow2(16) == 0x1_0000;
    assert Pow2(24) == 0x100_0000;
  }

  lemma TopPower(n: nat)
    requires PowerOfTwo(n) && n < U32
    ensures n <= 0x8000_0000
  {
    WordPowers();
    if n > Pow2(31) {
      PowerGap(n, 31);
    }
  }

  /** Twice a number, in 32 bits. */
  function Doubled(n: nat): (d: nat)
    ensures d < 0x1_0000_0000
  {
    2 * n % 0x1_0000_0000
  }

  /** Doubling a power of two in 32 bits gives the next one, except that the largest wraps to zero. */
  lemma DoubleWraps(n: nat)
    requires PowerOfTwo(n) && n < U32
    ensures Doubled(n) == if n == 0x8000_0000 then 0 else 2 * n
    ensures n != 0x8000_0000 ==> PowerOfTwo(2 * n) && 2 * n < U32
  {
    TopPower(n);
  }
}
