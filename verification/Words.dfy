/** Bytes, 32-bit words, and C's bit operators as functions on naturals. */
module Words {
  type byte = b: int | 0 <= b < 0x100
  type word = v: int | 0 <= v < 0x1_0000_0000

  const WORD_SIZE := 0x1_0000_0000

  /** Reduces a result modulo 2^32, as unsigned arithmetic does. */
  function Wrap(x: int): word {
    x % WORD_SIZE
  }

  /** `x >> n` */
  function Shr(x: nat, n: nat): nat {
    if n == 0 then x else Shr(x / 2, n - 1)
  }

  /** `x << n`, before any truncation */
  function Shl(x: nat, n: nat): nat {
    if n == 0 then x else 2 * Shl(x, n - 1)
  }

  /** `x & y` */
  function And(x: nat, y: nat): (r: nat)
    ensures r <= x && r <= y
  {
    if x == 0 || y == 0 then 0
    else 2 * And(x / 2, y / 2) + (if x % 2 == 1 && y % 2 == 1 then 1 else 0)
  }

  /** `x | y` */
  function Or(x: nat, y: nat): nat {
    if x == 0 && y == 0 then 0
    else 2 * Or(x / 2, y / 2) + (if x % 2 == 1 || y % 2 == 1 then 1 else 0)
  }

  /** `x ^ y` */
  function Xor(x: nat, y: nat): nat {
    if x == 0 && y == 0 then 0
    else 2 * Xor(x / 2, y / 2) + (if x % 2 != y % 2 then 1 else 0)
  }

  /** The number whose `n` low bits are one. */
  function Ones(n: nat): nat {
    if n == 0 then 0 else 2 * Ones(n - 1) + 1
  }

  /** `~x & 0xFF` */
  function NotByte(x: byte): byte {
    0xFF - x
  }

  /** Bit `t` of `x` is one. */
  predicate BitSet(x: nat, t: nat) {
    Shr(x, t) % 2 == 1
  }

  lemma {:induction false} ZeroBits(t: nat)
    ensures !BitSet(0, t)
  {
    if t > 0 {
      ZeroBits(t - 1);
    }
  }

  lemma {:induction false} AndBits(x: nat, y: nat, t: nat)
    ensures BitSet(And(x, y), t) <==> BitSet(x, t) && BitSet(y, t)
  {
    if x == 0 || y == 0 {
      ZeroBits(t);
    } else if t > 0 {
      AndBits(x / 2, y / 2, t - 1);
    }
  }

  lemma {:induction false} OrBits(x: nat, y: nat, t: nat)
    ensures BitSet(Or(x, y), t) <==> BitSet(x, t) || BitSet(y, t)
  {
    if x == 0 && y == 0 {
      ZeroBits(t);
    } else if t > 0 {
      OrBits(x / 2, y / 2, t - 1);
    }
  }

  lemma {:induction false} XorBits(x: nat, y: nat, t: nat)
    ensures BitSet(Xor(x, y), t) <==> BitSet(x, t) != BitSet(y, t)
  {
    if x == 0 && y == 0 {
      ZeroBits(t);
    } else if t > 0 {
      XorBits(x / 2, y / 2, t - 1);
    }
  }

  lemma {:induction false} OnesBits(n: nat, t: nat)
    ensures BitSet(Ones(n), t) <==> t < n
  {
    if n == 0 {
      ZeroBits(t);
    } else if t > 0 {
      OnesBits(n - 1, t - 1);
    }
  }

  lemma {:induction false} NotBits(x: nat, n: nat, t: nat)
    requires x <= Ones(n) && t < n
    ensures BitSet(Ones(n) - x, t) <==> !BitSet(x, t)
  {
    if t > 0 {
      NotBits(x / 2, n - 1, t - 1);
    }
  }

  lemma OnesValues()
    ensures Ones(1) == 1 && Ones(2) == 3 && Ones(4) == 15 && Ones(8) == 0xFF
    ensures Ones(16) == 0xFFFF && Ones(32) == 0xFFFF_FFFF
  {
    assert Ones(8) == 0xFF;
    assert Ones(16) == 0xFFFF;
    assert Ones(24) == 0xFF_FFFF;
  }

  lemma OnesByte(n: nat)
    ensures Ones(n + 8) == 0x100 * Ones(n) + 0xFF
  {
    assert Ones(n + 2) == 4 * Ones(n) + 3;
    assert Ones(n + 4) == 4 * Ones(n + 2) + 3;
    assert Ones(n + 6) == 4 * Ones(n + 4) + 3;
  }

  lemma LongOnes()
    ensures Ones(64) == 0xFFFF_FFFF_FFFF_FFFF
  {
    hide Ones;
    OnesValues();
    OnesByte(32);
    OnesByte(40);
    OnesByte(48);
    OnesByte(56);
  }

  lemma NotByteBits(x: byte, t: nat)
    requires t < 8
    ensures BitSet(NotByte(x), t) <==> !BitSet(x, t)
  {
    OnesValues();
    NotBits(x, 8, t);
  }

  /** A number below 2^n is determined by its n low bits. */
  lemma {:induction false} EqualByBits(x: nat, y: nat, n: nat)
    requires x <= Ones(n) && y <= Ones(n)
    requires forall t: nat | t < n :: BitSet(x, t) == BitSet(y, t)
    ensures x == y
  {
    if n > 0 {
      assert BitSet(x, 0) == BitSet(y, 0);
      forall t: nat | t < n - 1
        ensures BitSet(x / 2, t) == BitSet(y / 2, t)
      {
        assert BitSet(x, t + 1) == BitSet(y, t + 1);
      }
      EqualByBits(x / 2, y / 2, n - 1);
    }
  }

  /** Bytes with the same eight bits are equal. */
  lemma EqualBytes(x: byte, y: byte)
    requires forall t: nat | t < 8 :: BitSet(x, t) == BitSet(y, t)
    ensures x == y
  {
    OnesValues();
    EqualByBits(x, y, 8);
  }

  lemma {:induction false} ShlBits(x: nat, s: nat, t: nat)
    ensures BitSet(Shl(x, s), t) <==> t >= s && BitSet(x, t - s)
  {
    if s > 0 && t > 0 {
      assert Shl(x, s) / 2 == Shl(x, s - 1);
      ShlBits(x, s - 1, t - 1);
    }
  }

  lemma {:induction false} ShrBits(x: nat, s: nat, t: nat)
    ensures BitSet(Shr(x, s), t) == BitSet(x, s + t)
  {
    if s > 0 {
      ShrBits(x / 2, s - 1, t);
    }
  }

  /** `Or` of two n-bit numbers has n bits. */
  lemma {:induction false} OrBound(x: nat, y: nat, n: nat)
    requires x <= Ones(n) && y <= Ones(n)
    ensures Or(x, y) <= Ones(n)
  {
    if n > 0 {
      OrBound(x / 2, y / 2, n - 1);
    }
  }

  /** Masking with n ones keeps a number that already fits in n bits. */
  lemma {:induction false} AndOnes(x: nat, n: nat)
    requires x <= Ones(n)
    ensures And(x, Ones(n)) == x
  {
    if n > 0 {
      AndOnes(x / 2, n - 1);
    }
  }

  lemma AndZero(x: nat)
    ensures And(x, 0) == 0
  {
  }

  lemma AndHalves(x: nat, y: nat)
    requires y % 2 == 1
    ensures And(x, y) == 2 * And(x / 2, y / 2) + x % 2
  {
  }

  lemma MulAtLeast(m: int, d: int)
    requires m > 0 && d > 0
    ensures m * d >= m
  {
    assert m * (d - 1) >= 0;
  }

  lemma MulBound(m: int, d: int)
    requires m > 0
    ensures d > 0 ==> m * d >= m
    ensures d < 0 ==> m * d <= -m
  {
    if d > 0 {
      MulAtLeast(m, d);
    } else if d < 0 {
      MulAtLeast(m, -d);
      assert m * -d == -(m * d);
    }
  }

  /** Quotient and remainder are unique. */
  lemma ModUnique(x: int, m: int, q: int, r: int)
    requires 0 <= r < m && x == m * q + r
    ensures x % m == r && x / m == q
  {
    var d := x / m - q;
    assert m * d == r - x % m by {
      assert m * d == m * (x / m) - m * q;
    }
    MulBound(m, d);
  }

  lemma HalfMod(x: nat, m: nat)
    requires m > 0
    ensures x % (2 * m) == 2 * (x / 2 % m) + x % 2
  {
    var q, r := x / 2 / m, x / 2 % m;
    assert x == (2 * m) * q + (2 * r + x % 2);
    ModUnique(x, 2 * m, q, 2 * r + x % 2);
  }

  /** `v & 0xFF` is the low byte. */
  lemma {:induction false} AndIsMod(x: nat, n: nat)
    ensures And(x, Ones(n)) == x % (Ones(n) + 1)
  {
    hide And;
    if n == 0 {
      AndZero(x);
    } else {
      AndIsMod(x / 2, n - 1);
      HalfMod(x, Ones(n - 1) + 1);
      AndHalves(x, Ones(n));
    }
  }

  /** `x & 0xFF` is the low byte. */
  lemma LowByte(x: nat)
    ensures And(x, 0xFF) == x % 0x100
  {
    OnesValues();
    AndIsMod(x, 8);
  }

  lemma {:induction false} ShrTwice(x: nat, a: nat, b: nat)
    ensures Shr(Shr(x, a), b) == Shr(x, a + b)
  {
    if a > 0 {
      ShrTwice(x / 2, a - 1, b);
    }
  }

  lemma ShrNibble(x: nat)
    ensures Shr(x, 4) == x / 16
  {
    assert Shr(x, 4) == Shr(x / 2, 3);
    assert Shr(x / 2, 3) == Shr(x / 4, 2);
    assert Shr(x / 4, 2) == Shr(x / 8, 1) == x / 16;
  }

  lemma ShrByte(x: nat)
    ensures Shr(x, 8) == x / 0x100
  {
    ShrTwice(x, 4, 4);
    ShrNibble(x);
    ShrNibble(x / 16);
  }

  /** The shifts that take a word apart are divisions by powers of 256. */
  lemma ShrBytes(x: nat)
    ensures Shr(x, 8) == x / 0x100 && Shr(x, 16) == x / 0x1_0000 && Shr(x, 24) == x / 0x100_0000
  {
    ShrByte(x);
    ShrTwice(x, 8, 8);
    ShrByte(x / 0x100);
    ShrTwice(x, 16, 8);
    ShrByte(x / 0x1_0000);
  }
}
