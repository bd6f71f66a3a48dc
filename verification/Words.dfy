/** 64-bit words as natural numbers, and the mask arithmetic that the kernel and the
    userland use for rounding: `x & !(a - 1)` and `(s + a - 1) & !(a - 1)` for a power of two `a`. */
module Words {

  const U64 := 0x1_0000_0000_0000_0000

  function Pow2(k: nat): (p: nat)
    ensures p > 0
  {
    if k == 0 then 1 else 2 * Pow2(k - 1)
  }

  /** Bitwise conjunction, bit by bit from the least significant one. */
  function And(x: nat, y: nat): nat {
    if x == 0 then 0
    else 2 * And(x / 2, y / 2) + if x % 2 == 1 && y % 2 == 1 then 1 else 0
  }

  /** Bitwise exclusive or. */
  function Xor(x: nat, y: nat): nat {
    if x == 0 && y == 0 then 0
    else 2 * Xor(x / 2, y / 2) + if x % 2 == y % 2 then 0 else 1
  }

  lemma XorBit(x: nat, y: nat, a: nat, b: nat)
    requires a < 2 && b < 2
    ensures Xor(2 * x + a, 2 * y + b) == 2 * Xor(x, y) + if a == b then 0 else 1
  {
    assert (2 * x + a) / 2 == x && (2 * y + b) / 2 == y;
  }

  lemma {:induction false} XorZero(x: nat)
    ensures Xor(x, 0) == x
  {
    if x != 0 { XorZero(x / 2); }
  }

  lemma {:induction false} XorUndoes(x: nat, y: nat)
    ensures Xor(Xor(x, y), y) == x
  {
    if x != 0 || y != 0 {
      XorUndoes(x / 2, y / 2);
      var r := if x % 2 == y % 2 then 0 else 1;
      assert Xor(x, y) == 2 * Xor(x / 2, y / 2) + r;
      assert Xor(x, y) / 2 == Xor(x / 2, y / 2) && Xor(x, y) % 2 == r;
    }
  }

  lemma {:induction false} XorSeparates(h: nat, a: nat, b: nat)
    requires Xor(h, a) == Xor(h, b)
    ensures a == b
  {
    if h != 0 || a != 0 || b != 0 {
      assert Xor(h, a) / 2 == Xor(h / 2, a / 2) && Xor(h, b) / 2 == Xor(h / 2, b / 2);
      XorSeparates(h / 2, a / 2, b / 2);
    }
  }

  lemma {:induction false} XorFits(x: nat, y: nat, w: nat)
    requires x < Pow2(w) && y < Pow2(w)
    ensures Xor(x, y) < Pow2(w)
  {
    if x != 0 || y != 0 {
      XorFits(x / 2, y / 2, w - 1);
    }
  }

  /** Bitwise complement of a 64-bit word. */
  function Not64(x: nat): nat
    requires x < U64
  {
    U64 - 1 - x
  }

  lemma {:induction false} AndZero(x: nat)
    ensures And(x, 0) == 0
  {
    if x != 0 { AndZero(x / 2); }
  }

  lemma DivDouble(x: nat, m: nat)
    requires m > 0
    ensures x / (2 * m) == x / 2 / m
  {
    var q := x / 2 / m;
    var r := x / 2 % m;
    assert x == 2 * m * q + (2 * r + x % 2) by { assert x / 2 == m * q + r; }
    DivModUnique(x, 2 * m, q, 2 * r + x % 2);
  }

  /** The mask with one bit tells whether this bit is set. */
  lemma {:induction false} AndBit(x: nat, k: nat)
    ensures And(x, Pow2(k)) != 0 <==> x / Pow2(k) % 2 == 1
  {
    AndZero(x / 2);
    if k > 0 {
      AndBit(x / 2, k - 1);
      DivDouble(x, Pow2(k - 1));
    }
  }

  lemma {:induction false} Pow2Monotone(k: nat, w: nat)
    requires k <= w
    ensures Pow2(k) <= Pow2(w)
  {
    if k < w {
      Pow2Monotone(k, w - 1);
    }
  }

  /** The all-ones mask keeps every word that fits in it. */
  lemma {:induction false} AndOnes(x: nat, w: nat)
    requires x < Pow2(w)
    ensures And(x, Pow2(w) - 1) == x
  {
    if x != 0 {
      AndOnes(x / 2, w - 1);
    }
  }

  lemma ModStep(x: nat, m: nat)
    requires m > 0
    ensures x % (2 * m) == x % 2 + 2 * ((x / 2) % m)
  {
    var q, r := x / 2 / m, (x / 2) % m;
    assert x == 2 * (q * m + r) + x % 2;
    assert x == q * (2 * m) + (2 * r + x % 2);
    DivModUnique(x, 2 * m, q, 2 * r + x % 2);
  }

  lemma DivModUnique(x: int, m: int, q: int, r: int)
    requires m > 0 && 0 <= r < m && x == q * m + r
    ensures x / m == q && x % m == r
  {
    var d := x / m - q;
    assert x == (x / m) * m + x % m;
    assert d * m == r - x % m;
    assert d >= 1 ==> d * m >= m;
    assert d <= -1 ==> d * m <= -m;
  }

  /** The low `k` bits of a word. */
  function Low(x: nat, k: nat): (r: nat)
    ensures r <= x
  {
    if k == 0 then 0 else x % 2 + 2 * Low(x / 2, k - 1)
  }

  lemma {:induction false} LowIsRemainder(x: nat, k: nat)
    ensures Low(x, k) == x % Pow2(k)
  {
    if k != 0 {
      LowIsRemainder(x / 2, k - 1);
      ModStep(x, Pow2(k - 1));
    }
  }

  /** Masking with a run of low ones is the remainder. */
  lemma {:induction false} AndLowMask(x: nat, k: nat)
    ensures And(x, Pow2(k) - 1) == x % Pow2(k)
  {
    if k == 0 {
      AndZero(x);
    } else if x != 0 {
      AndLowMask(x / 2, k - 1);
      ModStep(x, Pow2(k - 1));
    }
  }

  /** Masking with a run of high ones clears exactly the low `k` bits. */
  lemma {:induction false} AndHighMask(x: nat, k: nat, w: nat)
    requires k <= w && x < Pow2(w)
    ensures Pow2(k) <= Pow2(w)
    ensures And(x, Pow2(w) - Pow2(k)) == x - Low(x, k)
  {
    hide And;
    Pow2Monotone(k, w);
    if k == 0 {
      AndOnes(x, w);
    } else {
      AndHighMask(x / 2, k - 1, w - 1);
      AndDouble(x, Pow2(w - 1) - Pow2(k - 1));
    }
  }

  lemma AndDouble(x: nat, m: nat)
    ensures And(x, 2 * m) == 2 * And(x / 2, m)
  {
    assert (2 * m) / 2 == m && (2 * m) % 2 == 0;
  }

  lemma Pow2Of64()
    ensures Pow2(64) == U64 && Pow2(12) == 4096 && Pow2(4) == 16
  {
    assert Pow2(12) == 4096;
    assert Pow2(24) == 0x100_0000;
    assert Pow2(36) == 0x10_0000_0000;
    assert Pow2(48) == 0x1_0000_0000_0000;
    assert Pow2(60) == 0x1000_0000_0000_0000;
  }

  /** `x & !(2^k - 1)` rounds a 64-bit word down to a multiple of `2^k`. */
  lemma MaskRoundsDown(x: nat, k: nat)
    requires k <= 64 && x < U64
    ensures Pow2(k) <= U64
    ensures And(x, Not64(Pow2(k) - 1)) == x - x % Pow2(k)
  {
    Pow2Of64();
    AndHighMask(x, k, 64);
    LowIsRemainder(x, k);
  }

  /** `(s + a - 1) & !(a - 1)` is the least multiple of `a` that is not below `s`,
      for every power of two `a` for which the sum fits in 64 bits. */
  lemma MaskRoundsUp(s: nat, k: nat)
    requires k <= 64 && s + Pow2(k) - 1 < U64
    ensures Pow2(k) <= U64
    ensures var a := Pow2(k);
            var r := And(s + a - 1, Not64(a - 1));
            r % a == 0 && s <= r < s + a
  {
    hide *;
    var a, x := Pow2(k), s + Pow2(k) - 1;
    MaskRoundsDown(x, k);
    var q, r := x / a, x % a;
    assert x == q * a + r;
    DivModUnique(x - r, a, q, 0);
  }
}
