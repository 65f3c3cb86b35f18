/** Bit operations on unsigned words, in arithmetic form: m % 2 is the low bit,
    m / 2 the word shifted right by one. */
module Bits {
  import opened Words

  function Pow2(n: nat): nat
    ensures Pow2(n) > 0
  {
    if n == 0 then 1 else 2 * Pow2(n - 1)
  }

  /** Bit i of m. */
  predicate Bit(m: nat, i: nat) {
    if i == 0 then m % 2 == 1 else Bit(m / 2, i - 1)
  }

  /** m | (1 << i) */
  function SetBit(m: nat, i: nat): nat {
    if i == 0 then m / 2 * 2 + 1 else 2 * SetBit(m / 2, i - 1) + m % 2
  }

  /** m & n */
  function And(m: nat, n: nat): nat
    decreases m
  {
    if m == 0 then 0
    else 2 * And(m / 2, n / 2) + (if m % 2 == 1 && n % 2 == 1 then 1 else 0)
  }

  /** __builtin_popcount */
  function Popcount(m: nat): nat {
    if m == 0 then 0 else m % 2 + Popcount(m / 2)
  }

  /** Number of consecutive ones from bit 0 up. */
  function TrailingOnes(m: nat): nat {
    if m % 2 == 1 then 1 + TrailingOnes(m / 2) else 0
  }

  lemma {:induction false} SetBitBits(m: nat, i: nat, j: nat)
    ensures Bit(SetBit(m, i), j) <==> (j == i || Bit(m, j))
  {
    if i == 0 {
      assert SetBit(m, 0) / 2 == m / 2;
    } else if j == 0 {
      assert SetBit(m, i) % 2 == m % 2;
    } else {
      assert SetBit(m, i) / 2 == SetBit(m / 2, i - 1);
      SetBitBits(m / 2, i - 1, j - 1);
    }
  }

  /** A bit that is set already. */
  lemma {:induction false} SetAgain(mask: nat, i: nat)
    requires Bit(mask, i)
    ensures SetBit(mask, i) == mask
  {
    if i > 0 { SetAgain(mask / 2, i - 1); }
  }

  lemma {:induction false} SetBitBound(m: nat, i: nat, n: nat)
    requires i < n && m < Pow2(n)
    ensures SetBit(m, i) < Pow2(n)
  {
    if i > 0 {
      SetBitBound(m / 2, i - 1, n - 1);
    }
  }

  lemma {:induction false} SetBitPopcount(m: nat, i: nat)
    ensures Popcount(SetBit(m, i)) == Popcount(m) + (if Bit(m, i) then 0 else 1)
  {
    if i == 0 {
      assert SetBit(m, 0) / 2 == m / 2;
    } else {
      SetBitPopcount(m / 2, i - 1);
      assert SetBit(m, i) / 2 == SetBit(m / 2, i - 1);
      assert SetBit(m, i) % 2 == m % 2;
    }
  }

  lemma {:induction false} TrailingOnesBits(m: nat)
    ensures forall j :: 0 <= j < TrailingOnes(m) ==> Bit(m, j)
    ensures !Bit(m, TrailingOnes(m))
    ensures TrailingOnes(m) <= Popcount(m)
  {
    if m % 2 == 1 {
      TrailingOnesBits(m / 2);
      forall j | 0 <= j < TrailingOnes(m) ensures Bit(m, j) {
        if j > 0 {
          assert Bit(m / 2, j - 1);
        }
      }
    }
  }

  /** A word below 2^n has its set bits below n, and no more than n of them. */
  lemma {:induction false} HighBitsClear(m: nat, n: nat, i: nat)
    requires m < Pow2(n) && n <= i
    ensures !Bit(m, i)
    ensures Popcount(m) <= n
  {
    if n == 0 {
      NoBits(i);
    } else {
      HighBitsClear(m / 2, n - 1, i - 1);
    }
  }

  lemma {:induction false} NoBits(i: nat)
    ensures !Bit(0, i)
  {
    if i > 0 { NoBits(i - 1); }
  }

  lemma Pow2Of32()
    ensures Pow2(32) == TWO32
  {
    assert Pow2(8) == 256;
    assert Pow2(16) == 256 * 256 by { Pow2Sum(8, 8); }
    Pow2Sum(16, 16);
  }

  lemma TwiceProduct(x: nat, y: nat)
    ensures 2 * (x * y) == (2 * x) * y
  {
  }

  lemma {:induction false} Pow2Sum(a: nat, b: nat)
    ensures Pow2(a + b) == Pow2(a) * Pow2(b)
  {
    if a > 0 {
      Pow2Sum(a - 1, b);
      assert Pow2(a + b) == 2 * Pow2(a - 1 + b);
      TwiceProduct(Pow2(a - 1), Pow2(b));
    }
  }

  predicate PowerOfTwo(c: nat) {
    exists k: nat :: k <= c && c == Pow2(k)
  }

  /** The test of pktbuf_new. */
  lemma {:induction false} PopcountOne(c: nat)
    ensures Popcount(c) == 1 <==> PowerOfTwo(c)
  {
    if c % 2 == 1 {
      if c / 2 > 0 { PopcountPositive(c / 2); }
      assert Pow2(0) == 1;
    } else if c > 0 {
      PopcountOne(c / 2);
      if PowerOfTwo(c / 2) {
        var k: nat :| k <= c / 2 && c / 2 == Pow2(k);
        assert c == Pow2(k + 1);
      }
      if PowerOfTwo(c) {
        var k: nat :| k <= c && c == Pow2(k);
        Exceeds(k - 1);
      }
    }
  }

  lemma {:induction false} Exceeds(k: nat)
    ensures k < Pow2(k)
  {
    if k > 0 { Exceeds(k - 1); }
  }

  lemma PowerOfTwoExponent(c: nat) returns (k: nat)
    requires PowerOfTwo(c)
    ensures c == Pow2(k)
  {
    k :| k <= c && c == Pow2(k);
  }

  lemma {:induction false} PopcountPositive(m: nat)
    requires m > 0
    ensures Popcount(m) > 0
  {
    if m % 2 == 0 { PopcountPositive(m / 2); }
  }

  lemma {:induction false} Pow2Monotone(a: nat, b: nat)
    requires a <= b
    ensures Pow2(a) <= Pow2(b)
  {
    if a < b { Pow2Monotone(a, b - 1); }
  }

  /** A power of two below 2^32 divides 2^32. */
  lemma DividesWord(c: nat) returns (q: nat)
    requires PowerOfTwo(c) && c < TWO32
    ensures q > 0 && c > 0 && TWO32 == c * q
  {
    var k := PowerOfTwoExponent(c);
    Pow2Of32();
    if k > 32 { Pow2Monotone(32, k); }
    Pow2Sum(k, 32 - k);
    q := Pow2(32 - k);
  }

  /** Masking with capacity - 1 is reduction modulo a power-of-two capacity. */
  lemma MaskIsRemainder(i: nat, c: nat)
    requires PowerOfTwo(c)
    ensures c > 0 && And(i, c - 1) == i % c
  {
    var k := PowerOfTwoExponent(c);
    LowBits(i, k);
  }

  lemma {:induction false} LowBits(i: nat, k: nat)
    ensures And(i, Pow2(k) - 1) == i % Pow2(k)
  {
    if k == 0 {
      AndZero(i);
    } else if i == 0 {
      Unique(0, Pow2(k), 0, 0);
    } else {
      var p := Pow2(k - 1);
      var half := And(i / 2, p - 1);
      assert half == i / 2 % p by { LowBits(i / 2, k - 1); }
      assert And(i, 2 * p - 1) == 2 * half + i % 2 by { AndOddMask(i, p); }
      assert i % (2 * p) == 2 * half + i % 2 by { HalvedRemainder(i, p); }
      assert Pow2(k) == 2 * p;
    }
  }

  lemma AndOddMask(i: nat, p: nat)
    requires i > 0 && p > 0
    ensures And(i, 2 * p - 1) == 2 * And(i / 2, p - 1) + i % 2
  {
    assert (2 * p - 1) / 2 == p - 1 && (2 * p - 1) % 2 == 1;
  }

  lemma HalvedRemainder(i: nat, p: nat)
    requires p > 0
    ensures i % (2 * p) == 2 * (i / 2 % p) + i % 2
  {
    var q, r := (i / 2) / p, (i / 2) % p;
    assert i / 2 == p * q + r;
    assert 2 * (p * q) == (2 * p) * q;
    Unique(i, 2 * p, q, 2 * r + i % 2);
  }

  lemma {:induction false} AndZero(i: nat)
    ensures And(i, 0) == 0
  {
    if i > 0 { AndZero(i / 2); }
  }
}
