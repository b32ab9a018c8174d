// Words as numbers: bits, masks, shifts and bit fields.

module Bits {

  function Pow2(n: nat): nat {
    if n == 0 then 1 else 2 * Pow2(n - 1)
  }

  lemma {:induction false} Pow2Sum(a: nat, b: nat)
    ensures Pow2(a + b) == Pow2(a) * Pow2(b)
  {
    if a > 0 {
      Pow2Sum(a - 1, b);
      TwiceProduct(Pow2(a - 1), Pow2(b));
    }
  }

  lemma TwiceProduct(x: nat, y: nat)
    ensures 2 * (x * y) == (2 * x) * y
  {
  }

  // Whether bit b is set: `word & (1 << b)`.
  predicate Bit(word: nat, b: nat) {
    if b == 0 then word % 2 == 1 else Bit(word / 2, b - 1)
  }

  lemma {:induction false} ZeroHasNoBits(b: nat)
    ensures !Bit(0, b)
  {
    if b > 0 {
      ZeroHasNoBits(b - 1);
    }
  }

  // `x & y`
  function And(x: nat, y: nat): nat {
    if x == 0 then 0 else (if x % 2 == 1 && y % 2 == 1 then 1 else 0) + 2 * And(x / 2, y / 2)
  }

  lemma {:induction false} AndIsBitwise(x: nat, y: nat, b: nat)
    ensures Bit(And(x, y), b) <==> Bit(x, b) && Bit(y, b)
    decreases b
  {
    if x == 0 {
      ZeroHasNoBits(b);
    } else if b > 0 {
      assert And(x, y) / 2 == And(x / 2, y / 2);
      AndIsBitwise(x / 2, y / 2, b - 1);
    }
  }

  // `x >> s` and `x << s`
  function Shr(x: nat, s: nat): nat {
    if s == 0 then x else Shr(x / 2, s - 1)
  }

  function Shl(x: nat, s: nat): nat {
    if s == 0 then x else 2 * Shl(x, s - 1)
  }

  // The mask of the n low bits: `(1 << n) - 1`.
  function LowMask(n: nat): nat {
    if n == 0 then 0 else 1 + 2 * LowMask(n - 1)
  }

  // A word with `low` in its n low bits and `high` above them.
  function Join(low: nat, n: nat, high: nat): nat {
    if n == 0 then high else low % 2 + 2 * Join(low / 2, n - 1, high)
  }

  lemma {:induction false} AndZero(x: nat)
    ensures And(x, 0) == 0
  {
    if x > 0 {
      AndZero(x / 2);
    }
  }

  // Masking a word gives back its low field, and shifting it gives back the rest.
  lemma {:induction false} LowFieldOfJoin(low: nat, n: nat, high: nat)
    requires low < Pow2(n)
    ensures And(Join(low, n, high), LowMask(n)) == low
  {
    if n == 0 {
      AndZero(high);
    } else {
      var word := Join(low, n, high);
      assert word % 2 == low % 2 && word / 2 == Join(low / 2, n - 1, high);
      LowFieldOfJoin(low / 2, n - 1, high);
    }
  }

  lemma {:induction false} HighFieldOfJoin(low: nat, n: nat, high: nat)
    ensures Shr(Join(low, n, high), n) == high
  {
    if n > 0 {
      assert Join(low, n, high) / 2 == Join(low / 2, n - 1, high);
      HighFieldOfJoin(low / 2, n - 1, high);
    }
  }

  lemma {:induction false} ShrTwice(x: nat, s: nat, n: nat)
    ensures Shr(Shr(x, s), n) == Shr(x, s + n)
    decreases s
  {
    if s > 0 {
      ShrTwice(x / 2, s - 1, n);
    }
  }

  lemma {:induction false} ShrZero(s: nat)
    ensures Shr(0, s) == 0
  {
    if s > 0 {
      ShrZero(s - 1);
    }
  }

  // Masking with a shifted mask and shifting down is shifting down and masking.
  lemma {:induction false} MaskThenShift(x: nat, mask: nat, s: nat)
    ensures Shr(And(x, Shl(mask, s)), s) == And(Shr(x, s), mask)
    decreases s
  {
    if x == 0 {
      ShrZero(s);
    } else if s > 0 {
      assert Shl(mask, s) / 2 == Shl(mask, s - 1) && Shl(mask, s) % 2 == 0;
      assert And(x, Shl(mask, s)) / 2 == And(x / 2, Shl(mask, s - 1));
      MaskThenShift(x / 2, mask, s - 1);
    }
  }
}
