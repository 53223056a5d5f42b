/**
 Unsigned machine arithmetic on natural numbers: wrap-around, bitwise AND, and the
 masks that the driver uses in place of a remainder.
 */
module Bits {

  const U16: nat := 0x1_0000
  const U32: nat := 0x1_0000_0000
  const U64: nat := 0x1_0000_0000_0000_0000

  function Pow2(k: nat): (p: nat)
    ensures p > 0
  {
    if k == 0 then 1 else 2 * Pow2(k - 1)
  }

  ghost predicate IsPow2(n: nat) {
    exists k: nat :: n == Pow2(k)
  }

  /** Bitwise AND, one binary digit at a time. */
  function And(x: nat, y: nat): nat {
    if x == 0 || y == 0 then 0 else (if x % 2 == 1 && y % 2 == 1 then 1 else 0) + 2 * And(x / 2, y / 2)
  }

  lemma HalfMod(x: nat, m: nat)
    requires m > 0
    ensures x % (2 * m) == x % 2 + 2 * ((x / 2) % m)
  {
    var q, r := x / 2 / m, (x / 2) % m;
    assert x == 2 * (q * m + r) + x % 2;
    assert x == q * (2 * m) + (2 * r + x % 2);
    UniqueMod(x, 2 * m, q, 2 * r + x % 2);
  }

  lemma UniqueMod(x: int, m: int, q: int, r: int)
    requires m > 0 && 0 <= r < m && x == q * m + r
    ensures x / m == q && x % m == r
  {
    var d := x / m - q;
    assert x == (x / m) * m + x % m;
    assert d * m == r - x % m;
    assert d > 0 ==> d * m >= m;
    assert d < 0 ==> d * m <= -m;
  }

  lemma OddParts(y: nat, h: nat)
    requires y == 2 * h + 1
    ensures y / 2 == h && y % 2 == 1
  {
  }

  /** Masking with 2^k - 1 takes the remainder modulo 2^k. */
  lemma {:induction false} AndLowMask(x: nat, k: nat)
    ensures And(x, Pow2(k) - 1) == x % Pow2(k)
    decreases k
  {
    if k == 0 {
      assert Pow2(0) == 1;
    } else {
      var m := Pow2(k - 1);
      AndLowMask(x / 2, k - 1);
      HalfMod(x, m);
      OddParts(Pow2(k) - 1, m - 1);
      AndUnfold(x, Pow2(k) - 1);
    }
  }

  /** Two complementary masks split a number. */
  lemma {:induction false} AndComplement(x: nat, y: nat, w: nat)
    requires x < Pow2(w) && y < Pow2(w)
    ensures And(x, y) + And(x, Pow2(w) - 1 - y) == x
    decreases w
  {
    if w == 0 {
    } else {
      var z := Pow2(w) - 1 - y;
      assert z == 2 * (Pow2(w - 1) - 1 - y / 2) + (1 - y % 2);
      AndComplement(x / 2, y / 2, w - 1);
      assert z / 2 == Pow2(w - 1) - 1 - y / 2 && z % 2 == 1 - y % 2;
      AndUnfold(x, y);
      AndUnfold(x, z);
    }
  }

  lemma AndUnfold(x: nat, y: nat)
    ensures And(x, y) == (if x % 2 == 1 && y % 2 == 1 then 1 else 0) + 2 * And(x / 2, y / 2)
  {
  }

  lemma Pow2Is64()
    ensures Pow2(64) == U64
  {
    assert Pow2(8) == 0x100;
    assert Pow2(16) == 0x1_0000;
    assert Pow2(24) == 0x100_0000;
    assert Pow2(32) == 0x1_0000_0000;
    assert Pow2(40) == 0x100_0000_0000;
    assert Pow2(48) == 0x1_0000_0000_0000;
    assert Pow2(56) == 0x100_0000_0000_0000;
  }

  /** For a power of two `n`, `x & (n - 1)` and `x & ~(n - 1)` split a 64-bit `x` at `n`. */
  lemma MaskSplit(x: nat, n: nat)
    requires IsPow2(n) && n <= U64 && x < U64
    ensures And(x, n - 1) == x % n
    ensures And(x, U64 - n) == x - x % n
  {
    var k: nat :| n == Pow2(k);
    Pow2Is64();
    AndLowMask(x, k);
    AndComplement(x, n - 1, 64);
  }

  lemma {:induction false} Pow2Monotone(a: nat, b: nat)
    requires a <= b
    ensures Pow2(a) <= Pow2(b)
    decreases b
  {
    if a < b { Pow2Monotone(a, b - 1); }
  }

  lemma {:induction false} Pow2Add(a: nat, b: nat)
    ensures Pow2(a + b) == Pow2(a) * Pow2(b)
    decreases b
  {
    if b > 0 { Pow2Add(a, b - 1); }
  }

  /** The driver's test `n & (n - 1)`: zero exactly for the powers of two. */
  lemma {:induction false} PowerOfTwoTest(n: nat)
    requires n > 0
    ensures And(n, n - 1) == 0 <==> IsPow2(n)
    decreases n
  {
    if n == 1 {
      assert n == Pow2(0);
    } else if n % 2 == 1 {
      AndUnfold(n, n - 1);
      assert (n - 1) / 2 == n / 2;
      AndSelf(n / 2);
      assert forall k: nat :: Pow2(k) == 1 || Pow2(k) % 2 == 0;
    } else {
      var h := n / 2;
      AndUnfold(n, n - 1);
      assert (n - 1) / 2 == h - 1 && n % 2 == 0;
      PowerOfTwoTest(h);
      if IsPow2(h) {
        var k: nat :| h == Pow2(k);
        assert n == Pow2(k + 1);
      }
      if IsPow2(n) {
        var k: nat :| n == Pow2(k);
        assert h == Pow2(k - 1);
      }
    }
  }

  lemma {:induction false} AndSelf(x: nat)
    ensures And(x, x) == x
    decreases x
  {
    if x > 0 {
      AndSelf(x / 2);
      AndUnfold(x, x);
    }
  }
}
