/** Bitwise AND on machine words, as the recursion on binary digits, and what the kernel's masks
    mean arithmetically. */
module Bits {

  function Pow2(k: nat): (p: nat)
    ensures p > 0
  {
    if k == 0 then 1 else 2 * Pow2(k - 1)
  }

  lemma {:induction false} Pow2Add(a: nat, b: nat)
    ensures Pow2(a + b) == Pow2(a) * Pow2(b)
  {
    if b > 0 {
      Pow2Add(a, b - 1);
    }
  }

  lemma Square(k: nat, p: nat)
    requires Pow2(k) == p
    ensures Pow2(2 * k) == p * p
  {
    Pow2Add(k, k);
  }

  const WORD_BITS: nat := 64
  const U64 := 0x1_0000_0000_0000_0000

  lemma WordSize()
    ensures Pow2(4) == 16 && Pow2(12) == 4096 && Pow2(WORD_BITS) == U64
  {
    assert Pow2(4) == 16 && Pow2(6) == 64;
    hide Pow2;
    Square(6, 64);
    Square(4, 16);
    Square(8, 0x100);
    Square(16, 0x1_0000);
    Square(32, 0x1_0000_0000);
  }

  /** Bitwise AND. */
  function And(a: nat, b: nat): nat {
    if a == 0 || b == 0 then 0
    else (if a % 2 == 1 && b % 2 == 1 then 1 else 0) + 2 * And(a / 2, b / 2)
  }

  /** Shift right. */
  function Shr(a: nat, k: nat): nat {
    if k == 0 then a else Shr(a, k - 1) / 2
  }

  lemma {:induction false} ShrBound(a: nat, k: nat, rest: nat)
    requires a < Pow2(k + rest)
    ensures Shr(a, k) < Pow2(rest)
  {
    if k > 0 {
      ShrBound(a, k - 1, rest + 1);
    }
  }

  /** Bitwise complement of a `width`-bit word. */
  function Not(a: nat, width: nat): nat
    requires a < Pow2(width)
  {
    Pow2(width) - 1 - a
  }

  /** A one-bit mask tests that bit. */
  lemma {:induction false} AndBit(a: nat, k: nat)
    ensures And(a, Pow2(k)) == if (a / Pow2(k)) % 2 == 1 then Pow2(k) else 0
  {
    if k > 0 {
      AndBit(a / 2, k - 1);
      DivByPow2(a, k);
    }
  }

  lemma DivByPow2(a: nat, k: nat)
    requires k > 0
    ensures a / Pow2(k) == (a / 2) / Pow2(k - 1)
    ensures a % Pow2(k) == 2 * ((a / 2) % Pow2(k - 1)) + a % 2
  {
    var p := Pow2(k - 1);
    var q, r := (a / 2) / p, (a / 2) % p;
    assert a == 2 * (q * p + r) + a % 2;
    assert a == q * (2 * p) + (2 * r + a % 2);
    DivModUnique(a, 2 * p, q, 2 * r + a % 2);
  }

  lemma DivModUnique(a: nat, d: nat, q: nat, r: nat)
    requires d > 0 && a == q * d + r && r < d
    ensures a / d == q && a % d == r
  {
    var q', r' := a / d, a % d;
    assert a == q' * d + r';
    assert (q' - q) * d == r - r';
    MulAtLeast(q' - q, d);
    MulAtLeast(q - q', d);
  }

  lemma MulAtLeast(n: int, d: nat)
    ensures n >= 1 ==> n * d >= d
  {
  }

  /** The greatest multiple of `p` that is not above `a`. */
  function RoundDown(a: nat, p: nat): (r: nat)
    requires p > 0
    ensures r <= a
  {
    a - a % p
  }

  lemma RoundDownIsMultiple(a: nat, p: nat)
    requires p > 0
    ensures RoundDown(a, p) % p == 0 && a < RoundDown(a, p) + p
  {
    DivModUnique(a - a % p, p, a / p, 0);
  }

  /** The mask with all bits from `k` up to `width` clears the low `k` bits: it rounds down. */
  lemma {:induction false} AndHighMask(a: nat, k: nat, width: nat)
    requires k <= width && a < Pow2(width)
    ensures Pow2(k) <= Pow2(width)
    ensures And(a, Pow2(width) - Pow2(k)) == RoundDown(a, Pow2(k))
    decreases width
  {
    if k == 0 {
      AndAllOnes(a, width);
    } else {
      AndHighMask(a / 2, k - 1, width - 1);
      DivByPow2(a, k);
      assert (Pow2(width) - Pow2(k)) / 2 == Pow2(width - 1) - Pow2(k - 1);
    }
  }

  lemma {:induction false} AndAllOnes(a: nat, width: nat)
    requires a < Pow2(width)
    ensures And(a, Pow2(width) - 1) == a
  {
    if width > 0 {
      AndAllOnes(a / 2, width - 1);
      assert (Pow2(width) - 1) / 2 == Pow2(width - 1) - 1;
    }
  }

  /** The mask with the low `k` bits keeps the remainder. */
  lemma {:induction false} AndLowMask(a: nat, k: nat)
    ensures And(a, Pow2(k) - 1) == a % Pow2(k)
  {
    if k > 0 {
      AndLowMask(a / 2, k - 1);
      DivByPow2(a, k);
      assert (Pow2(k) - 1) / 2 == Pow2(k - 1) - 1;
    }
  }
}
