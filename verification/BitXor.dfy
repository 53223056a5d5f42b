/** Bitwise exclusive or on natural numbers, and the laws that the CRC needs. */
module BitXor {
  import opened Bits

  /** Bitwise XOR, one binary digit at a time. */
  function Xor(x: nat, y: nat): nat {
    if x == 0 then y else if y == 0 then x else Digit(x, y) + 2 * Xor(x / 2, y / 2)
  }

  function Digit(x: nat, y: nat): nat {
    if x % 2 == y % 2 then 0 else 1
  }

  lemma XorUnfold(x: nat, y: nat)
    ensures Xor(x, y) == Digit(x, y) + 2 * Xor(x / 2, y / 2)
  {
  }

  lemma XorParts(x: nat, y: nat)
    ensures Xor(x, y) % 2 == Digit(x, y) && Xor(x, y) / 2 == Xor(x / 2, y / 2)
  {
    XorUnfold(x, y);
    Parts(Xor(x, y), Digit(x, y), Xor(x / 2, y / 2));
  }

  lemma Parts(v: nat, d: nat, h: nat)
    requires v == d + 2 * h && d < 2
    ensures v % 2 == d && v / 2 == h
  {
  }

  /** XOR sets no bit that neither operand has room for. */
  lemma {:induction false} XorBound(x: nat, y: nat, k: nat)
    requires x < Pow2(k) && y < Pow2(k)
    ensures Xor(x, y) < Pow2(k)
    decreases k
  {
    if k > 0 {
      XorUnfold(x, y);
      XorBound(x / 2, y / 2, k - 1);
    }
  }

  lemma {:induction false} XorComm(x: nat, y: nat)
    ensures Xor(x, y) == Xor(y, x)
    decreases x
  {
    if x > 0 && y > 0 { XorComm(x / 2, y / 2); }
  }

  lemma {:induction false} XorAssoc(x: nat, y: nat, z: nat)
    ensures Xor(Xor(x, y), z) == Xor(x, Xor(y, z))
    decreases x + y + z
  {
    if x + y + z > 0 {
      XorParts(x, y);
      XorParts(y, z);
      XorUnfold(Xor(x, y), z);
      XorUnfold(x, Xor(y, z));
      XorAssoc(x / 2, y / 2, z / 2);
    }
  }

  lemma {:induction false} XorSelf(x: nat)
    ensures Xor(x, x) == 0
    decreases x
  {
    if x > 0 { XorSelf(x / 2); }
  }

  lemma XorCancel(x: nat, y: nat)
    ensures Xor(Xor(x, y), y) == x
  {
    XorAssoc(x, y, y);
    XorSelf(y);
    XorComm(x, 0);
  }

  /** XOR works on remainders modulo a power of two. */
  lemma {:induction false} XorMod(x: nat, y: nat, k: nat)
    ensures Xor(x, y) % Pow2(k) == Xor(x % Pow2(k), y % Pow2(k))
    decreases k
  {
    if k > 0 {
      XorMod(x / 2, y / 2, k - 1);
      XorParts(x, y);
      XorModStep(x, y, Pow2(k - 1));
    }
  }

  lemma XorModStep(x: nat, y: nat, m: nat)
    requires m > 0 && Xor(x / 2, y / 2) % m == Xor(x / 2 % m, y / 2 % m)
    ensures Xor(x, y) % (2 * m) == Xor(x % (2 * m), y % (2 * m))
  {
    var p, q, v := x % (2 * m), y % (2 * m), Xor(x, y);
    XorParts(x, y);
    HalfMod(x, m);
    HalfMod(y, m);
    HalfMod(v, m);
    Parts(p, x % 2, x / 2 % m);
    Parts(q, y % 2, y / 2 % m);
    XorUnfold(p, q);
  }

  lemma XorDouble(x: nat, y: nat)
    ensures Xor(2 * x, 2 * y) == 2 * Xor(x, y)
  {
    XorParts(2 * x, 2 * y);
  }
}
