/**
 Bit-level arithmetic of quill/include/quill/core/MathUtilities.h on natural numbers: the
 bitwise operators are defined digit by digit, so every fact below holds for any word width.
 */
module Bits {

  function Pow2(k: nat): (r: nat)
    ensures r >= 1
  {
    if k == 0 then 1 else 2 * Pow2(k - 1)
  }

  /** Bitwise and. */
  function BitAnd(x: nat, y: nat): nat
    decreases x
  {
    if x == 0 || y == 0 then 0
    else 2 * BitAnd(x / 2, y / 2) + (if x % 2 == 1 && y % 2 == 1 then 1 else 0)
  }

  /** Bitwise exclusive or. */
  function BitXor(x: nat, y: nat): nat
    decreases x + y
  {
    if x == 0 && y == 0 then 0
    else 2 * BitXor(x / 2, y / 2) + (if x % 2 != y % 2 then 1 else 0)
  }

  // ---- Euclidean division ------------------------------------------------------------------

  lemma ModUnique(x: int, m: nat, q: int, r: nat)
    requires m > 0 && r < m && x == m * q + r
    ensures x % m == r && x / m == q
  {
    var q', r' := x / m, x % m;
    assert x == m * q' + r' && 0 <= r' < m;
    assert m * (q - q') == r' - r;
    if q > q' {
      MulMono(m, 1, q - q');
    } else if q < q' {
      MulMono(m, 1, q' - q);
    }
  }

  lemma MulMono(m: nat, a: int, b: int)
    requires a <= b
    ensures m * a <= m * b
  {}

  lemma MulAssoc(a: int, b: int, c: int)
    ensures (a * b) * c == a * (b * c)
  {}

  /** A number given by a quotient and remainder of its remainder. */
  lemma ModSplit(x: nat, f: nat, s: nat)
    requires f > 0 && s > 0
    ensures s * f > 0 && (x % (s * f)) % s == x % s
  {
    MulMono(s, 1, f);
    var q1, y := x / (s * f), x % (s * f);
    MulAssoc(s, f, q1);
    var q2, r := y / s, y % s;
    assert s * (f * q1) + s * q2 == s * (f * q1 + q2);
    ModUnique(x, s, f * q1 + q2, r);
  }

  /** The last binary digit and the rest, modulo an even number. */
  lemma ModDouble(x: nat, p: nat)
    requires p > 0
    ensures x % (2 * p) == 2 * ((x / 2) % p) + x % 2
  {
    var q, r := (x / 2) / p, (x / 2) % p;
    MulAssoc(2, p, q);
    ModUnique(x, 2 * p, q, 2 * r + x % 2);
  }

  /** Remainder by repeated subtraction: what an unsigned word or a masked index keeps. */
  function Mod(x: nat, m: nat): (r: nat)
    requires m > 0
    ensures r < m
  {
    if x < m then x else Mod(x - m, m)
  }

  lemma {:induction false} ModIs(x: nat, m: nat)
    requires m > 0
    ensures Mod(x, m) == x % m
  {
    if x < m {
      ModUnique(x, m, 0, x);
    } else {
      ModIs(x - m, m);
      ModUnique(x, m, (x - m) / m + 1, (x - m) % m);
    }
  }

  /** Unsigned subtraction of two words of modulus m. */
  function SubMod(a: nat, b: nat, m: nat): (r: nat)
    requires a < m && b < m
    ensures r < m
  {
    if b <= a then a - b else a + m - b
  }

  /** A difference of wrapped positions is the difference of the positions themselves. */
  lemma {:induction false} WrapDiff(a: nat, b: nat, m: nat)
    requires m > 0 && b <= a && a - b < m
    ensures SubMod(Mod(a, m), Mod(b, m), m) == a - b
  {
    if b >= m {
      WrapDiff(a - m, b - m, m);
    }
  }

  lemma WrapEq(a: nat, b: nat, m: nat)
    requires m > 0 && b <= a && a - b < m
    ensures Mod(a, m) == Mod(b, m) <==> a == b
  {
    WrapDiff(a, b, m);
  }

  lemma {:induction false} WrapAdd(a: nat, n: nat, m: nat)
    requires m > 0
    ensures Mod(Mod(a, m) + n, m) == Mod(a + n, m)
  {
    if a >= m { WrapAdd(a - m, n, m); }
  }

  lemma Pow2Split(a: nat, b: nat)
    ensures Pow2(a + b) == Pow2(a) * Pow2(b)
  {
    if a > 0 {
      Pow2Split(a - 1, b);
      calc {
        Pow2(a + b);
        2 * (Pow2(a - 1) * Pow2(b));
        (2 * Pow2(a - 1)) * Pow2(b);
      }
    }
  }

  lemma Pow2Strict(a: nat, b: nat)
    requires a < b
    ensures 2 * Pow2(a) <= Pow2(b)
  {
    if a + 1 < b { Pow2Strict(a, b - 1); }
  }

  lemma Pow2Order(a: nat, b: nat)
    ensures a <= b <==> Pow2(a) <= Pow2(b)
  {
    if a < b { Pow2Strict(a, b); }
    if b < a { Pow2Strict(b, a); }
  }

  /** Reducing modulo a larger power of two first changes nothing. */
  lemma ModOfMod(x: nat, k: nat, w: nat)
    requires k <= w
    ensures Mod(Mod(x, Pow2(w)), Pow2(k)) == Mod(x, Pow2(k))
  {
    Pow2Split(k, w - k);
    ModSplit(x, Pow2(w - k), Pow2(k));
    ModIs(x, Pow2(w)); ModIs(x, Pow2(k)); ModIs(Mod(x, Pow2(w)), Pow2(k));
  }

  /** `x & (2^k - 1)` is `x mod 2^k`: the masking used by every ring buffer of the library. */
  lemma {:induction false} MaskIsModulo(x: nat, k: nat)
    ensures BitAnd(x, Pow2(k) - 1) == x % Pow2(k)
    decreases k
  {
    if k == 0 {
      assert BitAnd(x, 0) == 0 && x % 1 == 0;
    } else if x == 0 {
      ModUnique(0, Pow2(k), 0, 0);
    } else {
      var p := Pow2(k - 1);
      calc {
        BitAnd(x, 2 * p - 1);
        { MaskStep(x, p); }
        2 * BitAnd(x / 2, p - 1) + x % 2;
        { MaskIsModulo(x / 2, k - 1); }
        2 * ((x / 2) % p) + x % 2;
        { ModDouble(x, p); }
        x % (2 * p);
      }
    }
  }

  lemma MaskStep(x: nat, p: nat)
    requires x > 0 && p > 0
    ensures BitAnd(x, 2 * p - 1) == 2 * BitAnd(x / 2, p - 1) + x % 2
  {
    assert (2 * p - 1) / 2 == p - 1 && (2 * p - 1) % 2 == 1;
  }

  /** Masking a wrapped position is the position modulo the capacity. */
  lemma MaskWrapped(x: nat, k: nat, w: nat)
    requires k <= w
    ensures BitAnd(Mod(x, Pow2(w)), Pow2(k) - 1) == Mod(x, Pow2(k))
  {
    MaskIsModulo(Mod(x, Pow2(w)), k);
    ModIs(Mod(x, Pow2(w)), Pow2(k));
    ModOfMod(x, k, w);
  }

  lemma {:induction false} AndSelf(x: nat)
    ensures BitAnd(x, x) == x
  {
    if x == 0 {
    } else {
      AndSelf(x / 2);
    }
  }

  predicate IsPowerOfTwo(n: nat) {
    n != 0 && BitAnd(n, n - 1) == 0
  }

  lemma Pow2IsPowerOfTwo(k: nat)
    ensures IsPowerOfTwo(Pow2(k))
  {
    hide BitAnd, Pow2;
    MaskIsModulo(Pow2(k), k);
    ModUnique(Pow2(k), Pow2(k), 1, 0);
  }

  /** The bit trick recognises exactly the powers of two; the exponent is returned as a witness. */
  lemma {:induction false} PowerOfTwoExponent(n: nat) returns (k: nat)
    requires IsPowerOfTwo(n)
    ensures n == Pow2(k)
  {
    if n == 1 {
      k := 0;
      assert Pow2(0) == 1;
    } else if n % 2 == 1 {
      AndSelf(n / 2);
      assert false;
    } else {
      assert (n - 1) / 2 == n / 2 - 1;
      k := PowerOfTwoExponent(n / 2);
      k := k + 1;
    }
  }

  /** `is_power_of_two` holds of a number exactly when some power of two equals it. */
  lemma PowerOfTwoIff(n: nat)
    ensures IsPowerOfTwo(n) <==> exists k: nat :: n == Pow2(k)
  {
    if IsPowerOfTwo(n) {
      var k := PowerOfTwoExponent(n);
    }
    forall k: nat | n == Pow2(k) ensures IsPowerOfTwo(n) { Pow2IsPowerOfTwo(k); }
  }

  const WORD_BITS: nat := 64
  const SIZE_MAX: nat := 0xFFFF_FFFF_FFFF_FFFF
  const MAX_POWER_OF_2: nat := 0x8000_0000_0000_0000

  lemma Pow2ThirtyTwo()
    ensures Pow2(32) == 0x1_0000_0000
  {
    assert Pow2(0) == 1 && Pow2(1) == 2 && Pow2(2) == 4;
    hide Pow2;
    Pow2Split(2, 2);
    Pow2Split(4, 4);
    Pow2Split(8, 8);
    Pow2Split(16, 16);
  }

  lemma WordConstants()
    ensures Pow2(64) == SIZE_MAX + 1 && Pow2(63) == MAX_POWER_OF_2
  {
    assert Pow2(64) == 2 * Pow2(63);
    hide Pow2;
    Pow2ThirtyTwo();
    Pow2Split(32, 32);
  }

  /**
   `next_power_of_two`: the least power of two that is at least `n`, and the top power of two of
   the word when there is none. The doubling never leaves the word.
   */
  method NextPowerOfTwo(n: nat) returns (result: nat, ghost k: nat)
    requires n <= SIZE_MAX
    ensures result == Pow2(k) && k < WORD_BITS && result <= MAX_POWER_OF_2
    ensures n <= MAX_POWER_OF_2 ==> n <= result && forall j: nat :: n <= Pow2(j) ==> result <= Pow2(j)
    ensures n > MAX_POWER_OF_2 ==> result == MAX_POWER_OF_2
  {
    hide BitAnd;
    WordConstants();
    if n >= MAX_POWER_OF_2 {
      result, k := MAX_POWER_OF_2, 63;
      return;
    }
    if IsPowerOfTwo(n) {
      k := PowerOfTwoExponent(n);
      if k > 63 { Pow2Strict(63, k); }
      return n, k;
    }
    result, k := 1, 0;
    while result < n
      invariant result == Pow2(k) && k <= 63 && result <= MAX_POWER_OF_2
      invariant k > 0 ==> Pow2(k - 1) < n
      decreases n - result
    {
      if k == 63 { assert false; }
      if k + 1 < 63 { Pow2Strict(k + 1, 63); }
      result, k := 2 * result, k + 1;
    }
    forall j: nat | n <= Pow2(j) ensures result <= Pow2(j) {
      if j < k && j < k - 1 { Pow2Strict(j, k - 1); }
      if k < j { Pow2Strict(k, j); }
    }
  }
}
