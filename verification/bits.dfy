/** Python's arbitrary-precision bit operations on non-negative integers,
    as the IPv4 helpers and the forwarding trie use them: `x << k`, `x >> k`,
    `x & y`, and counting one-bits. */
module Bits {

  /** 2 to the power k. */
  function Pow2(k: nat): (r: nat)
    ensures r >= 1
  {
    if k == 0 then 1 else 2 * Pow2(k - 1)
  }

  /** Python `x << k` for a non-negative x. */
  function Shl(x: nat, k: nat): nat
  {
    x * Pow2(k)
  }

  /** Python `x >> k` for a non-negative x (floor division by 2^k). */
  function Shr(x: nat, k: nat): nat
  {
    var d := Pow2(k);
    DivNonNegative(x, d);
    x / d
  }

  lemma DivNonNegative(x: nat, d: nat)
    requires d >= 1
    ensures x / d >= 0
  {
  }

  /** Python `a & b` for non-negative a and b, built from the least
      significant bit upwards. */
  function And(a: nat, b: nat): (r: nat)
    ensures r <= a && r <= b
  {
    if a == 0 || b == 0 then 0
    else 2 * And(a / 2, b / 2) + (if a % 2 == 1 && b % 2 == 1 then 1 else 0)
  }

  /** Number of one-bits in the binary representation of n. */
  function Popcount(n: nat): nat
  {
    if n == 0 then 0 else n % 2 + Popcount(n / 2)
  }

  /** Bit i of a 32-bit word, counting i = 0 as the most significant bit:
      Python `(n >> (31 - i)) & 1`. */
  function BitAt(n: nat, i: nat): (b: nat)
    requires i < 32
    ensures b < 2
  {
    AndOne(Shr(n, 31 - i));
    And(Shr(n, 31 - i), 1)
  }

  lemma AndOne(x: nat)
    ensures And(x, 1) == x % 2
  {
  }

  lemma Pow2Add(a: nat, b: nat)
    ensures Pow2(a + b) == Pow2(a) * Pow2(b)
  {
    if a > 0 {
      Pow2Add(a - 1, b);
    }
  }

  lemma Pow2Monotone(a: nat, b: nat)
    requires a <= b
    ensures Pow2(a) <= Pow2(b)
  {
    if a < b {
      Pow2Monotone(a, b - 1);
    }
  }

  lemma DivModSpec(x: int, d: int)
    requires d > 0
    ensures x == d * (x / d) + x % d && 0 <= x % d < d
  {
  }

  lemma DivShrinks(x: nat, d: nat)
    requires d >= 2 && x >= 1
    ensures x / d < x
  {
    DivModSpec(x, d);
    var q := x / d;
    if q >= x {
      MulMonotone(q, 2, d);
    }
  }

  lemma MulAtLeast(d: int, k: int)
    requires d > 0 && k >= 1
    ensures d * k >= d
  {
    assert d * k == d * (k - 1) + d;
  }

  /** Division and remainder are determined by any decomposition x = d*q + r
      with 0 <= r < d. */
  lemma DivModUnique(x: int, d: int, q: int, r: int)
    requires d > 0 && 0 <= r < d && x == d * q + r
    ensures x / d == q && x % d == r
  {
    var q' := x / d;
    var r' := x % d;
    assert x == d * q' + r';
    assert d * (q - q') == r' - r by {
      assert d * (q - q') == d * q - d * q';
    }
    if q > q' {
      MulAtLeast(d, q - q');
    } else if q < q' {
      MulAtLeast(d, q' - q);
    }
  }

  lemma MulDouble(t: int, h: int)
    ensures 2 * (t * h) == t * (2 * h)
  {
  }

  lemma MulMonotone(a: nat, s: nat, t: nat)
    requires s <= t
    ensures a * s <= a * t
  {
    assert a * t == a * s + a * (t - s);
  }

  lemma DivDivMul(x: nat, a: nat, b: nat)
    requires a > 0 && b > 0
    ensures x / a / b == x / (a * b)
  {
    var q := x / a / b;
    var s := (x / a) % b;
    var r := a * s + x % a;
    assert x == a * (x / a) + x % a;
    assert x / a == b * q + s;
    assert a * (x / a) == a * b * q + a * s by {
      assert a * (b * q + s) == a * (b * q) + a * s;
    }
    MulMonotone(a, s, b - 1);
    assert a * (b - 1) == a * b - a;
    DivModUnique(x, a * b, q, r);
  }

  lemma DivDiv(x: nat, a: nat, b: nat)
    ensures x / Pow2(a) / Pow2(b) == x / Pow2(a + b)
  {
    Pow2Add(a, b);
    DivDivMul(x, Pow2(a), Pow2(b));
  }

  /** x mod 2^(k+1) splits into the low bit and the next k bits. */
  lemma ModDouble(x: nat, k: nat)
    ensures x % Pow2(k + 1) == 2 * ((x / 2) % Pow2(k)) + x % 2
  {
    var p := Pow2(k);
    var q := (x / 2) / p;
    var r := 2 * ((x / 2) % p) + x % 2;
    assert x / 2 == p * q + (x / 2) % p;
    assert x == 2 * p * q + r;
    DivModUnique(x, 2 * p, q, r);
  }

  /** Masking with 2^n - 1 keeps the low n bits. */
  lemma AndLowMask(x: nat, n: nat)
    ensures And(x, Pow2(n) - 1) == x % Pow2(n)
  {
    LowMask(x, n, Pow2(n));
  }

  lemma {:induction false} LowMask(x: nat, n: nat, p: nat)
    requires p == Pow2(n)
    ensures And(x, p - 1) == x % p
  {
    if n == 0 {
    } else if x == 0 {
    } else {
      var h := Pow2(n - 1);
      var lo := (x / 2) % h;
      assert p - 1 == 2 * (h - 1) + 1;
      assert And(x, p - 1) == 2 * lo + x % 2 by {
        AndOdd(x, h - 1);
        LowMask(x / 2, n - 1, h);
      }
      assert x % p == 2 * lo + x % 2 by {
        ModDouble(x, n - 1);
      }
    }
  }

  /** Masking with an odd mask keeps the low bit and masks the rest. */
  lemma AndOdd(x: nat, y: nat)
    requires x > 0
    ensures And(x, 2 * y + 1) == 2 * And(x / 2, y) + x % 2
  {
    assert (2 * y + 1) % 2 == 1 && (2 * y + 1) / 2 == y;
  }

  /** Masking with n one-bits shifted left by m keeps exactly bits m .. m+n-1. */
  lemma {:induction false} AndShiftedMask(x: nat, n: nat, m: nat)
    ensures And(x, Shl(Pow2(n) - 1, m)) == Shl(Shr(x, m) % Pow2(n), m)
  {
    var ones := Pow2(n) - 1;
    if m == 0 {
      AndLowMask(x, n);
    } else if x == 0 {
      assert Shr(x, m) == 0;
    } else if n == 0 {
      assert ones == 0;
    } else {
      var half := Shl(ones, m - 1);
      assert Shl(ones, m) == 2 * half by { ShlStep(ones, m); }
      assert half > 0 by { MulAtLeast(Pow2(m - 1), ones); }
      AndEven(x, half);
      AndShiftedMask(x / 2, n, m - 1);
      var t := Shr(x, m) % Pow2(n);
      assert Shr(x / 2, m - 1) == Shr(x, m) by { DivDiv(x, 1, m - 1); }
      ShlStep(t, m);
    }
  }

  lemma ShlStep(x: nat, m: nat)
    requires m >= 1
    ensures Shl(x, m) == 2 * Shl(x, m - 1)
  {
    MulDouble(x, Pow2(m - 1));
  }

  /** Masking with an even mask clears the low bit and masks the rest. */
  lemma AndEven(x: nat, y: nat)
    requires x > 0 && y > 0
    ensures And(x, 2 * y) == 2 * And(x / 2, y)
  {
    assert (2 * y) % 2 == 0 && (2 * y) / 2 == y;
  }

  /** The one-bits of a*2^k + b, with b below 2^k, are those of a plus those of b. */
  lemma {:induction false} PopcountSplit(a: nat, b: nat, k: nat)
    requires b < Pow2(k)
    ensures Popcount(a * Pow2(k) + b) == Popcount(a) + Popcount(b)
  {
    if k == 0 {
    } else {
      var x := a * Pow2(k) + b;
      assert x == 2 * (a * Pow2(k - 1) + b / 2) + b % 2;
      DivModUnique(x, 2, a * Pow2(k - 1) + b / 2, b % 2);
      PopcountSplit(a, b / 2, k - 1);
      if x == 0 {
        assert a == 0 && b == 0;
      }
    }
  }

  /** 2^n - 1 has exactly n one-bits. */
  lemma {:induction false} PopcountOnes(n: nat)
    ensures Popcount(Pow2(n) - 1) == n
  {
    if n > 0 {
      PopcountOnes(n - 1);
      assert (Pow2(n) - 1) / 2 == Pow2(n - 1) - 1;
    }
  }

  /** A left shift adds no one-bits. */
  lemma PopcountShl(x: nat, m: nat)
    ensures Popcount(Shl(x, m)) == Popcount(x)
  {
    PopcountSplit(x, 0, m);
  }

  /** Adding an even number does not change parity. */
  lemma ParityShift(m: nat, y: nat)
    ensures (2 * m + y) % 2 == y % 2
  {
    DivModSpec(y, 2);
    DivModUnique(2 * m + y, 2, m + y / 2, y % 2);
  }

  lemma Pow2Even(k: nat)
    requires k >= 1
    ensures Pow2(k) == 2 * Pow2(k - 1)
  {
  }

  /** Adding a multiple of p adds the multiplier to the quotient. */
  lemma DivAddMultiple(x: nat, p: nat, m: nat)
    requires p >= 1
    ensures (p * m + x) / p == m + x / p
  {
    DivModSpec(x, p);
    assert p * m + x == p * (m + x / p) + x % p;
    DivModUnique(p * m + x, p, m + x / p, x % p);
  }

  /** (a mod 2^k) / 2^j and a / 2^j differ by an even number when j < k,
      stated with p = 2^j and p*(2*h) = 2^k. */
  lemma ModDivParity(a: nat, p: nat, h: nat)
    requires p >= 1 && h >= 1
    ensures ((a % (p * (2 * h))) / p) % 2 == (a / p) % 2
  {
    var pk := p * (2 * h);
    assert pk >= 1 by { MulAtLeast(p, 2 * h); }
    var q, t := a / pk, a % pk;
    var m := 2 * (h * q);
    assert a == pk * q + t by { DivModSpec(a, pk); }
    assert pk * q == p * m by { MulRegroup(p, h, q); }
    SplitDiv(a, p, m, t);
    ParityShift(h * q, t / p);
  }

  lemma MulRegroup(p: int, h: int, q: int)
    ensures (p * (2 * h)) * q == p * (2 * (h * q))
  {
  }

  lemma SplitDiv(a: nat, p: nat, m: nat, t: nat)
    requires p >= 1 && a == p * m + t
    ensures a / p == m + t / p
  {
    DivAddMultiple(t, p, m);
  }


  /** Bit j of a number only depends on the number modulo 2^k, for j < k. */
  lemma BitOfMod(a: nat, j: nat, k: nat)
    requires j < k
    ensures ((a % Pow2(k)) / Pow2(j)) % 2 == (a / Pow2(j)) % 2
  {
    Pow2Add(j, k - j);
    Pow2Even(k - j);
    assert Pow2(k) == Pow2(j) * (2 * Pow2(k - j - 1));
    ModDivParity(a, Pow2(j), Pow2(k - j - 1));
  }

  /** Shifting left by m and then right by j >= m is a right shift by j - m. */
  lemma ShlThenShr(a: nat, m: nat, j: nat)
    requires m <= j
    ensures (a * Pow2(m)) / Pow2(j) == a / Pow2(j - m)
  {
    DivModUnique(a * Pow2(m), Pow2(m), a, 0);
    DivDiv(a * Pow2(m), m, j - m);
  }

  lemma MulDivParity(a: nat, p: nat, h: nat)
    requires p >= 1
    ensures ((a * (p * (2 * h))) / p) % 2 == 0
  {
    var w := a * (2 * h);
    assert a * (p * (2 * h)) == p * w;
    DivModUnique(p * w, p, w, 0);
    assert w == 2 * (a * h);
    ParityShift(a * h, 0);
  }

  /** A bit below the shift amount of a left shift is zero. */
  lemma ShlLowBit(a: nat, m: nat, j: nat)
    requires j < m
    ensures ((a * Pow2(m)) / Pow2(j)) % 2 == 0
  {
    Pow2Add(j, m - j);
    Pow2Even(m - j);
    assert Pow2(m) == Pow2(j) * (2 * Pow2(m - j - 1));
    MulDivParity(a, Pow2(j), Pow2(m - j - 1));
  }

  /** Bit i of a 32-bit word is the parity of the word shifted right by 31 - i. */
  lemma BitAtValue(n: nat, i: nat)
    requires i < 32
    ensures BitAt(n, i) == (n / Pow2(31 - i)) % 2
  {
    AndOne(Shr(n, 31 - i));
  }

  /** v / p is below q when v is below p * q. */
  lemma DivBound(v: nat, p: nat, q: nat)
    requires p >= 1 && v < p * q
    ensures v / p < q
  {
    DivModSpec(v, p);
    if v / p >= q {
      MulMonotone(p, q, v / p);
    }
  }

  /** Clearing the low 32 - L bits of v and keeping the 32 bits above them
      leaves, among bits 0 .. 31 (most significant first), the top L bits of v
      and zeros below them. */
  lemma MaskedBits(v: nat, L: nat, i: nat)
    requires L <= 32 && i < 32
    ensures BitAt(Shl(Shr(v, 32 - L) % Pow2(32), 32 - L), i) == if i < L then BitAt(v, i) else 0
  {
    var s, j := 32 - L, 31 - i;
    var a := Shr(v, s);
    BitAtValue(Shl(a % Pow2(32), s), i);
    BitAtValue(v, i);
    if i < L {
      ShlThenShr(a % Pow2(32), s, j);
      BitOfMod(a, j - s, 32);
      DivDiv(v, s, j - s);
    } else {
      ShlLowBit(a % Pow2(32), s, j);
    }
  }

  /** Shifting right by s and back clears the low s bits, when the
      intermediate truncation to w does not bite. */
  lemma ShiftBackClears(v: nat, s: nat, w: nat)
    requires v < w
    ensures Shl(Shr(v, s) % w, s) == v - v % Pow2(s)
  {
    var p := Pow2(s);
    var a := Shr(v, s);
    assert v == p * a + v % p by { DivModSpec(v, p); }
    assert a % w == a by {
      DivAtMost(v, p);
      ModSmall(a, w);
    }
  }

  lemma DivAtMost(x: nat, d: nat)
    requires d >= 1
    ensures x / d <= x
  {
    DivModSpec(x, d);
    MulMonotone(x / d, 1, d);
  }

  lemma ModSmall(n: nat, d: nat)
    requires n < d
    ensures n % d == n
  {
    DivModUnique(n, d, 0, n);
  }

  /** For v below 2^(s+L), masking with L one-bits shifted left by s is the
      same as shifting right by s, truncating to w >= 2^L, and back. */
  lemma ShiftBackIsMask(v: nat, s: nat, len: nat, w: nat)
    requires v < Pow2(s + len) && Pow2(len) <= w
    ensures Shl(Shr(v, s) % w, s) == And(v, Shl(Pow2(len) - 1, s))
  {
    var a := Shr(v, s);
    AndShiftedMask(v, len, s);
    assert a < Pow2(len) by {
      Pow2Add(s, len);
      DivBound(v, Pow2(s), Pow2(len));
    }
    DivModUnique(a, Pow2(len), 0, a);
    DivModUnique(a, w, 0, a);
  }
}
