/**
 Unsigned machine arithmetic on `nat`: the shifts and masks the kernel writes with
 `<<`, `>>`, `&` and `|`, and the two ways of reading a sequence of bits as a number.
 */
module Bits {

  function Pow2(n: nat): (r: nat)
    ensures r > 0
  {
    if n == 0 then 1 else 2 * Pow2(n - 1)
  }

  function And(a: nat, b: nat): nat {
    if a == 0 || b == 0 then 0
    else (if a % 2 == 1 && b % 2 == 1 then 1 else 0) + 2 * And(a / 2, b / 2)
  }

  function Or(a: nat, b: nat): nat {
    if a == 0 then b
    else if b == 0 then a
    else (if a % 2 == 1 || b % 2 == 1 then 1 else 0) + 2 * Or(a / 2, b / 2)
  }

  /** `a & ~b`. */
  function AndNot(a: nat, b: nat): nat {
    if a == 0 || b == 0 then a
    else (if a % 2 == 1 && b % 2 == 0 then 1 else 0) + 2 * AndNot(a / 2, b / 2)
  }

  function Shl(a: nat, k: nat): nat {
    a * Pow2(k)
  }

  function Shr(a: nat, k: nat): nat {
    if k == 0 then a else Shr(a / 2, k - 1)
  }

  /** The number that the `n` low bits of `a` denote. */
  function Low(a: nat, n: nat): nat {
    if n == 0 then 0 else a % 2 + 2 * Low(a / 2, n - 1)
  }

  /** Bit `k` of `a`, bit 0 being the least significant one. */
  predicate Bit(a: nat, k: nat) {
    if k == 0 then a % 2 == 1 else Bit(a / 2, k - 1)
  }

  function BitValue(b: bool): nat {
    if b then 1 else 0
  }

  /** The number whose bits are `s`, least significant first. */
  function LsbFirst(s: seq<bool>): nat {
    if s == [] then 0 else BitValue(s[0]) + 2 * LsbFirst(s[1..])
  }

  /** The number whose bits are `s`, most significant first. */
  function MsbFirst(s: seq<bool>): nat {
    if s == [] then 0 else 2 * MsbFirst(s[..|s| - 1]) + BitValue(s[|s| - 1])
  }

  /** The `n` low bits of `v`, least significant first. */
  function LowBits(v: nat, n: nat): (s: seq<bool>)
    ensures |s| == n
  {
    seq(n, i requires 0 <= i < n => Bit(v, i))
  }

  /** The `n` low bits of `v`, most significant first. */
  function HighBits(v: nat, n: nat): (s: seq<bool>)
    ensures |s| == n
  {
    seq(n, i requires 0 <= i < n => Bit(v, n - 1 - i))
  }

  // ----- Powers of two -----

  lemma {:induction false} Pow2Add(a: nat, b: nat)
    ensures Pow2(a + b) == Pow2(a) * Pow2(b)
  {
    if a == 0 {
    } else {
      Pow2Add(a - 1, b);
      assert Pow2(a + b) == 2 * Pow2(a - 1 + b);
    }
  }

  lemma {:induction false} Pow2Mono(a: nat, b: nat)
    requires a <= b
    ensures Pow2(a) <= Pow2(b)
  {
    if a < b {
      Pow2Mono(a, b - 1);
    }
  }

  lemma Pow2Values()
    ensures Pow2(1) == 2 && Pow2(2) == 4 && Pow2(3) == 8 && Pow2(4) == 0x10
    ensures Pow2(5) == 0x20 && Pow2(6) == 0x40 && Pow2(7) == 0x80 && Pow2(8) == 0x100
    ensures Pow2(9) == 0x200 && Pow2(10) == 0x400 && Pow2(11) == 0x800 && Pow2(12) == 0x1000
    ensures Pow2(13) == 0x2000 && Pow2(14) == 0x4000 && Pow2(15) == 0x8000 && Pow2(16) == 0x10000
  {
    assert Pow2(4) == 0x10;
    assert Pow2(8) == 0x100;
    assert Pow2(12) == 0x1000;
    assert Pow2(16) == 0x10000;
  }

  lemma MulAtLeast(e: int, d: int)
    requires d > 0
    ensures e > 0 ==> e * d >= d
    ensures e < 0 ==> e * d <= -d
  {
  }

  lemma MulDistrib(a: int, b: int, d: int)
    ensures (a + b) * d == a * d + b * d
    ensures (a - b) * d == a * d - b * d
  {
  }

  /** Comparing the bits above position `k` is comparing with multiples of 2^k. */
  lemma {:induction false} ShrBounds(v: nat, k: nat, lo: nat, hi: nat)
    ensures lo * Pow2(k) <= v < hi * Pow2(k) <==> lo <= Shr(v, k) < hi
  {
    if k > 0 {
      var p := Pow2(k - 1);
      ShrBounds(v / 2, k - 1, lo, hi);
      Regroup(lo, p);
      Regroup(hi, p);
    }
  }

  lemma Regroup(a: nat, p: nat)
    ensures a * (2 * p) == (2 * a) * p == 2 * (a * p)
  {
  }

  /** A number is its high part followed by its low part, in one way only. */
  lemma {:induction false} SplitUnique(a: nat, b: nat, n: nat)
    requires b < Pow2(n)
    ensures Shr(Shl(a, n) + b, n) == a && Low(Shl(a, n) + b, n) == b
  {
    if n > 0 {
      Regroup(a, Pow2(n - 1));
      SplitUnique(a, b / 2, n - 1);
      assert (Shl(a, n) + b) / 2 == Shl(a, n - 1) + b / 2;
    }
  }

  lemma {:induction false} Split(v: nat, n: nat)
    ensures v == Shl(Shr(v, n), n) + Low(v, n)
    ensures Low(v, n) < Pow2(n)
  {
    if n > 0 {
      Split(v / 2, n - 1);
      Regroup(Shr(v, n), Pow2(n - 1));
    }
  }

  lemma {:induction false} LowSmall(x: nat, n: nat)
    requires x < Pow2(n)
    ensures Low(x, n) == x
  {
    if n > 0 {
      LowSmall(x / 2, n - 1);
    }
  }

  /** Numbers with the same low part are at least 2^n apart. */
  lemma {:induction false} LowPeriodic(i: nat, n: nat)
    ensures Low(i + Pow2(n), n) == Low(i, n)
    ensures forall x: nat :: i < x < i + Pow2(n) ==> Low(x, n) != Low(i, n)
  {
    if n > 0 {
      LowPeriodic(i / 2, n - 1);
      assert (i + Pow2(n)) / 2 == i / 2 + Pow2(n - 1);
      forall x: nat | i < x < i + Pow2(n)
        ensures Low(x, n) != Low(i, n)
      {
        if x % 2 == i % 2 {
          assert i / 2 < x / 2 < i / 2 + Pow2(n - 1);
        }
      }
    }
  }

  // ----- Bits of the machine operations -----

  lemma {:induction false} BitZero(k: nat)
    ensures !Bit(0, k)
  {
    if k > 0 {
      BitZero(k - 1);
    }
  }

  lemma {:induction false} BitAnd(a: nat, b: nat, k: nat)
    ensures Bit(And(a, b), k) == (Bit(a, k) && Bit(b, k))
  {
    if a == 0 || b == 0 {
      BitZero(k);
    } else if k > 0 {
      BitAnd(a / 2, b / 2, k - 1);
    }
  }

  lemma {:induction false} BitOr(a: nat, b: nat, k: nat)
    ensures Bit(Or(a, b), k) == (Bit(a, k) || Bit(b, k))
  {
    if a == 0 || b == 0 {
      BitZero(k);
    } else if k > 0 {
      BitOr(a / 2, b / 2, k - 1);
    }
  }

  lemma {:induction false} BitAndNot(a: nat, b: nat, k: nat)
    ensures Bit(AndNot(a, b), k) == (Bit(a, k) && !Bit(b, k))
  {
    if a == 0 || b == 0 {
      BitZero(k);
    } else if k > 0 {
      BitAndNot(a / 2, b / 2, k - 1);
    }
  }

  lemma {:induction false} BitPow2(n: nat, k: nat)
    ensures Bit(Pow2(n), k) <==> k == n
  {
    if k == 0 {
    } else if n == 0 {
      BitZero(k - 1);
    } else {
      BitPow2(n - 1, k - 1);
    }
  }

  /** The bits of 2^n - 1. */
  lemma {:induction false} BitOnes(n: nat, k: nat)
    ensures Bit(Pow2(n) - 1, k) <==> k < n
  {
    if n == 0 {
      BitZero(k);
    } else if k > 0 {
      assert (Pow2(n) - 1) / 2 == Pow2(n - 1) - 1;
      BitOnes(n - 1, k - 1);
    }
  }

  /** Testing one flag is testing one bit. */
  lemma AndFlag(a: nat, n: nat)
    ensures And(a, Pow2(n)) != 0 <==> Bit(a, n)
  {
    BitAnd(a, Pow2(n), n);
    BitPow2(n, n);
    if And(a, Pow2(n)) != 0 {
      forall k: nat | k != n
        ensures !Bit(And(a, Pow2(n)), k)
      {
        BitAnd(a, Pow2(n), k);
        BitPow2(n, k);
      }
      if !Bit(And(a, Pow2(n)), n) {
        BoundedByBits(And(a, Pow2(n)), 0);
      }
    }
    BitZero(n);
  }

  lemma {:induction false} BitShl(a: nat, s: nat, k: nat)
    ensures Bit(Shl(a, s), k) == (k >= s && Bit(a, k - s))
  {
    if s == 0 {
    } else {
      var x := a * Pow2(s - 1);
      assert Shl(a, s) == 2 * x;
      if k > 0 {
        BitShl(a, s - 1, k - 1);
      }
    }
  }

  lemma {:induction false} BitShr(a: nat, s: nat, k: nat)
    ensures Bit(Shr(a, s), k) == Bit(a, k + s)
  {
    if s == 0 {
    } else {
      BitShr(a / 2, s - 1, k);
    }
  }

  lemma {:induction false} BitAbove(a: nat, n: nat, k: nat)
    requires a < Pow2(n) && n <= k
    ensures !Bit(a, k)
  {
    if n == 0 {
      BitZero(k);
    } else {
      BitAbove(a / 2, n - 1, k - 1);
    }
  }

  /** Two numbers below 2^n with the same n bits are the same number. */
  lemma {:induction false} BitsDetermine(a: nat, b: nat, n: nat)
    requires a < Pow2(n) && b < Pow2(n)
    requires forall k: nat :: k < n ==> Bit(a, k) == Bit(b, k)
    ensures a == b
  {
    if n > 0 {
      assert Bit(a, 0) == Bit(b, 0);
      forall k: nat | k < n - 1
        ensures Bit(a / 2, k) == Bit(b / 2, k)
      {
        assert Bit(a, k + 1) == Bit(b, k + 1);
      }
      BitsDetermine(a / 2, b / 2, n - 1);
    }
  }

  lemma {:induction false} BelowPow2(n: nat)
    ensures n < Pow2(n)
  {
    if n > 0 {
      BelowPow2(n - 1);
    }
  }

  lemma SameBits(a: nat, b: nat)
    requires forall k: nat :: Bit(a, k) == Bit(b, k)
    ensures a == b
  {
    var n := if a < b then b else a;
    BelowPow2(n);
    BitsDetermine(a, b, n);
  }

  lemma {:induction false} BoundedByBits(a: nat, n: nat)
    requires forall k: nat :: n <= k ==> !Bit(a, k)
    ensures a < Pow2(n)
    decreases a, n
  {
    if n == 0 {
      if a > 0 {
        forall k: nat
          ensures !Bit(a / 2, k)
        {
          assert !Bit(a, k + 1);
        }
        assert !Bit(a, 0);
        BoundedByBits(a / 2, 0);
      }
    } else {
      forall k: nat | n - 1 <= k
        ensures !Bit(a / 2, k)
      {
        assert !Bit(a, k + 1);
      }
      BoundedByBits(a / 2, n - 1);
    }
  }

  lemma AndOdd(a: nat, m: nat)
    ensures And(a, 2 * m + 1) == a % 2 + 2 * And(a / 2, m)
  {
    assert (2 * m + 1) / 2 == m;
  }

  /** Masking with 2^n - 1 keeps the low part. */
  lemma {:induction false} AndMask(a: nat, n: nat)
    ensures And(a, Pow2(n) - 1) == Low(a, n)
  {
    if n > 0 {
      AndMask(a / 2, n - 1);
      AndOdd(a, Pow2(n - 1) - 1);
    }
  }

  /** Or-ing a small number into the cleared low bits is adding it. */
  lemma {:induction false} OrAdd(a: nat, b: nat, n: nat)
    requires b < Pow2(n)
    ensures Or(Shl(a, n), b) == Shl(a, n) + b
  {
    if n == 0 {
    } else if Shl(a, n) == 0 {
    } else if b == 0 {
    } else {
      assert Shl(a, n) == 2 * Shl(a, n - 1);
      OrAdd(a, b / 2, n - 1);
    }
  }

  // ----- Bit sequences as numbers -----

  lemma {:induction false} LsbFirstBit(s: seq<bool>, k: nat)
    ensures LsbFirst(s) < Pow2(|s|)
    ensures Bit(LsbFirst(s), k) == (k < |s| && s[k])
  {
    if s == [] {
      BitZero(k);
    } else {
      LsbFirstBit(s[1..], if k == 0 then 0 else k - 1);
    }
  }

  lemma {:induction false} MsbFirstBit(s: seq<bool>, k: nat)
    ensures MsbFirst(s) < Pow2(|s|)
    ensures Bit(MsbFirst(s), k) == (k < |s| && s[|s| - 1 - k])
  {
    if s == [] {
      BitZero(k);
    } else {
      MsbFirstBit(s[..|s| - 1], if k == 0 then 0 else k - 1);
    }
  }

  lemma LsbFirstInjective(s: seq<bool>, t: seq<bool>)
    requires |s| == |t| && LsbFirst(s) == LsbFirst(t)
    ensures s == t
  {
    forall k: nat | k < |s|
      ensures s[k] == t[k]
    {
      LsbFirstBit(s, k);
      LsbFirstBit(t, k);
    }
  }

  lemma MsbFirstInjective(s: seq<bool>, t: seq<bool>)
    requires |s| == |t| && MsbFirst(s) == MsbFirst(t)
    ensures s == t
  {
    forall i: nat | i < |s|
      ensures s[i] == t[i]
    {
      MsbFirstBit(s, |s| - 1 - i);
      MsbFirstBit(t, |s| - 1 - i);
    }
  }

  lemma LowBitsValue(v: nat, n: nat)
    requires v < Pow2(n)
    ensures LsbFirst(LowBits(v, n)) == v
  {
    forall k: nat | k < n
      ensures Bit(LsbFirst(LowBits(v, n)), k) == Bit(v, k)
    {
      LsbFirstBit(LowBits(v, n), k);
    }
    LsbFirstBit(LowBits(v, n), 0);
    BitsDetermine(LsbFirst(LowBits(v, n)), v, n);
  }

  lemma HighBitsValue(v: nat, n: nat)
    requires v < Pow2(n)
    ensures MsbFirst(HighBits(v, n)) == v
  {
    forall k: nat | k < n
      ensures Bit(MsbFirst(HighBits(v, n)), k) == Bit(v, k)
    {
      MsbFirstBit(HighBits(v, n), k);
    }
    MsbFirstBit(HighBits(v, n), 0);
    BitsDetermine(MsbFirst(HighBits(v, n)), v, n);
  }

  /** Dropping low bits of a most-significant-first number keeps its front. */
  lemma {:induction false} MsbFirstTake(s: seq<bool>, n: nat)
    requires n <= |s|
    ensures MsbFirst(s[..n]) == Shr(MsbFirst(s), |s| - n)
    decreases |s|
  {
    if n == |s| {
      assert s[..n] == s;
    } else {
      var t := s[..|s| - 1];
      MsbFirstTake(t, n);
      assert t[..n] == s[..n];
      assert MsbFirst(s) / 2 == MsbFirst(t);
    }
  }

  /** The low part of a least-significant-first number is its front. */
  lemma {:induction false} LsbFirstTake(s: seq<bool>, n: nat)
    requires n <= |s|
    ensures LsbFirst(s[..n]) == Low(LsbFirst(s), n)
    decreases |s|
  {
    if n > 0 {
      var y := LsbFirst(s[1..]);
      LsbFirstTake(s[1..], n - 1);
      assert s[..n][1..] == s[1..][..n - 1];
      assert LsbFirst(s) / 2 == y && LsbFirst(s) % 2 == BitValue(s[0]);
    }
  }
}
