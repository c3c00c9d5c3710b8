/** The constants of RFC 1951 as the decompressor holds them: sections 3.2.5 and 3.2.6. */
module Rfc1951 {
  import opened Bits
  import opened BitStreams
  import opened CanonicalCode
  import opened Inflate
  import opened DynamicHeader
  import opened Deflate

  const ALPHABET: Alphabet := Alphabet(
    [3, 4, 5, 6, 7, 8, 9, 10, 11, 13, 15, 17, 19, 23, 27,
     31, 35, 43, 51, 59, 67, 83, 99, 115, 131, 163, 195, 227, 258],
    [0, 0, 0, 0, 0, 0, 0, 0, 1, 1, 1, 1, 2, 2, 2, 2, 3, 3, 3, 3, 4, 4, 4, 4, 5, 5, 5, 5, 0],
    [1, 2, 3, 4, 5, 7, 9, 13, 17, 25, 33, 49, 65, 97, 129, 193, 257, 385, 513, 769,
     1025, 1537, 2049, 3073, 4097, 6145, 8193, 12289, 16385, 24577],
    [0, 0, 0, 0, 1, 1, 2, 2, 3, 3, 4, 4, 5, 5, 6, 6, 7, 7, 8, 8, 9, 9, 10, 10, 11, 11, 12, 12, 13, 13])

  /** Each symbol's values start where those of the symbol before it end. */
  ghost predicate Contiguous(base: seq<nat>, extra: seq<nat>, n: nat) {
    && n <= |base| && n <= |extra|
    && forall i :: 0 < i < n ==> base[i] == base[i - 1] + Pow2(extra[i - 1])
  }

  lemma {:induction false} Cover(base: seq<nat>, extra: seq<nat>, n: nat, v: nat) returns (symbol: nat, rest: nat)
    requires n > 0 && Contiguous(base, extra, n)
    requires base[0] <= v < base[n - 1] + Pow2(extra[n - 1])
    ensures symbol < n && rest < Pow2(extra[symbol]) && base[symbol] + rest == v
  {
    if base[n - 1] <= v {
      symbol, rest := n - 1, v - base[n - 1];
    } else {
      symbol, rest := Cover(base, extra, n - 1, v);
    }
  }

  lemma LengthsContiguous()
    ensures Contiguous(ALPHABET.lengthBase, ALPHABET.lengthExtra, 28)
  {
    Pow2Values();
    assert Pow2(0) == 1;
  }

  lemma DistancesContiguous()
    ensures Contiguous(ALPHABET.distanceBase, ALPHABET.distanceExtra, 30)
  {
    Pow2Values();
    assert Pow2(0) == 1;
  }

  lemma DistanceExtra(i: nat)
    requires i < 30
    ensures ALPHABET.distanceExtra[i] == if i < 2 then 0 else i / 2 - 1
  {
  }

  lemma LengthExtra(i: nat)
    requires i < 28
    ensures ALPHABET.lengthExtra[i] == if i < 4 then 0 else i / 4 - 1
  {
  }

  /** The distance table of section 3.2.5, entry by entry. */
  lemma {:induction false} DistanceTable(i: nat)
    requires i < 30
    ensures ALPHABET.distanceExtra[i] == if i < 2 then 0 else i / 2 - 1
    ensures ALPHABET.distanceBase[i] == if i < 2 then i + 1 else (2 + i % 2) * Pow2(i / 2 - 1) + 1
  {
    DistanceExtra(i);
    DistancesContiguous();
    Pow2Values();
    if i >= 1 {
      DistanceTable(i - 1);
      DistanceStep(ALPHABET.distanceBase, ALPHABET.distanceExtra, i);
    }
  }

  lemma DistanceStep(base: seq<nat>, extra: seq<nat>, i: nat)
    requires 1 <= i < 30 && Contiguous(base, extra, 30)
    requires extra[i - 1] == if i - 1 < 2 then 0 else (i - 1) / 2 - 1
    requires base[i - 1] == if i - 1 < 2 then i else Scaled(2 + (i - 1) % 2, (i - 1) / 2 - 1) + 1
    ensures base[i] == if i < 2 then i + 1 else Scaled(2 + i % 2, i / 2 - 1) + 1
  {
    hide Scaled, Pow2;
    assert base[i] == base[i - 1] + Pow2(extra[i - 1]);
    PowZero();
    if i >= 3 {
      ScaledStep(2 + (i - 1) % 2, (i - 1) / 2 - 1);
      ScaledHalf(2, i / 2 - 1);
      assert if i % 2 == 1 then (i - 1) / 2 == i / 2 && (i - 1) % 2 == 0
             else (i - 1) / 2 == i / 2 - 1 && (i - 1) % 2 == 1;
    } else if i == 2 {
      ScaledOne(2);
    }
  }

  /** `c` times 2^k. */
  function Scaled(c: nat, k: nat): nat {
    c * Pow2(k)
  }

  lemma PowZero()
    ensures Pow2(0) == 1
  {
  }

  lemma ScaledOne(c: nat)
    ensures Scaled(c, 0) == c
  {
  }

  lemma ScaledStep(c: nat, k: nat)
    ensures Scaled(c, k) + Pow2(k) == Scaled(c + 1, k)
  {
    MulDistrib(c, 1, Pow2(k));
  }

  lemma ScaledHalf(c: nat, k: nat)
    ensures k > 0 ==> Scaled(2 * c, k - 1) == Scaled(c, k)
  {
    if k > 0 {
      Regroup(c, Pow2(k - 1));
    }
  }

  /** The length table of section 3.2.5, entry by entry. */
  lemma {:induction false} LengthTable(i: nat)
    requires i < 29
    ensures ALPHABET.lengthExtra[i] == if i < 4 || i == 28 then 0 else i / 4 - 1
    ensures ALPHABET.lengthBase[i] ==
            if i < 4 then i + 3 else if i < 28 then (4 + i % 4) * Pow2(i / 4 - 1) + 3 else 258
  {
    if i < 28 {
      LengthExtra(i);
      LengthsContiguous();
      if i >= 1 {
        LengthTable(i - 1);
        LengthStep(ALPHABET.lengthBase, ALPHABET.lengthExtra, i);
      }
    }
  }

  lemma LengthStep(base: seq<nat>, extra: seq<nat>, i: nat)
    requires 1 <= i < 28 && Contiguous(base, extra, 28)
    requires extra[i - 1] == if i - 1 < 4 then 0 else (i - 1) / 4 - 1
    requires base[i - 1] == if i - 1 < 4 then i + 2 else Scaled(4 + (i - 1) % 4, (i - 1) / 4 - 1) + 3
    ensures base[i] == if i < 4 then i + 3 else Scaled(4 + i % 4, i / 4 - 1) + 3
  {
    hide Scaled, Pow2;
    assert base[i] == base[i - 1] + Pow2(extra[i - 1]);
    PowZero();
    if i >= 5 {
      ScaledStep(4 + (i - 1) % 4, (i - 1) / 4 - 1);
      ScaledHalf(4, i / 4 - 1);
      assert if i % 4 != 0 then (i - 1) / 4 == i / 4 && (i - 1) % 4 == i % 4 - 1
             else (i - 1) / 4 == i / 4 - 1 && (i - 1) % 4 == 3;
    } else if i == 4 {
      ScaledOne(4);
    }
  }

  lemma {:induction false} ContiguousAbove(base: seq<nat>, extra: seq<nat>, n: nat, i: nat)
    requires Contiguous(base, extra, n) && i < n
    ensures base[i] >= base[0]
  {
    if i > 0 {
      ContiguousAbove(base, extra, n, i - 1);
    }
  }

  lemma AlphabetValid()
    ensures ValidAlphabet(ALPHABET)
  {
    LengthsContiguous();
    DistancesContiguous();
    forall i: nat | i < 28 ensures ALPHABET.lengthBase[i] >= ALPHABET.lengthBase[0] {
      ContiguousAbove(ALPHABET.lengthBase, ALPHABET.lengthExtra, 28, i);
    }
    forall i: nat | i < 30 ensures ALPHABET.distanceBase[i] >= ALPHABET.distanceBase[0] {
      ContiguousAbove(ALPHABET.distanceBase, ALPHABET.distanceExtra, 30, i);
    }
  }

  /**
   Every match length of 3 to 258 and every distance of 1 to 32768 has an encoding; that of 258 is
   the last symbol.
   */
  lemma MatchCovered(length: nat, distance: nat) returns (t: Token)
    requires 3 <= length <= 258 && 1 <= distance <= 32768
    ensures ValidAlphabet(ALPHABET) && t.Match? && ValidToken(ALPHABET, t)
    ensures MatchLength(ALPHABET, t) == length && MatchDistance(ALPHABET, t) == distance
    ensures length == 258 ==> t.lengthSymbol == 28 && t.lengthExtra == 0
  {
    AlphabetValid();
    LengthsContiguous();
    DistancesContiguous();
    Pow2Values();
    var ls, le := 28, 0;
    if length < 258 {
      ls, le := Cover(ALPHABET.lengthBase, ALPHABET.lengthExtra, 28, length);
    }
    var ds, de := Cover(ALPHABET.distanceBase, ALPHABET.distanceExtra, 30, distance);
    t := Match(ls, le, ds, de);
  }

  // ----- The fixed codes -----

  function FixedLength(s: nat): nat {
    if s < 144 then 8 else if s < 256 then 9 else if s < 280 then 7 else 8
  }

  function FixedLiterals(): (r: seq<nat>)
    ensures |r| == 288
  {
    seq(288, s requires 0 <= s < 288 => FixedLength(s))
  }

  function FixedDistances(): (r: seq<nat>)
    ensures |r| == 32
  {
    seq(32, s => 5)
  }

  lemma {:induction false} FixedCount(n: nat, len: nat)
    requires n <= 288
    ensures CountBelow(FixedLiterals(), n, len) ==
            if len == 8 then (if n <= 144 then n else if n <= 280 then 144 else n - 136)
            else if len == 9 then (if n <= 144 then 0 else if n <= 256 then n - 144 else 112)
            else if len == 7 then (if n <= 256 then 0 else if n <= 280 then n - 256 else 24)
            else 0
  {
    if n > 0 {
      FixedCount(n - 1, len);
    }
  }

  lemma {:induction false} FixedDistanceCount(n: nat, len: nat)
    requires n <= 32
    ensures CountBelow(FixedDistances(), n, len) == if len == 5 then n else 0
  {
    if n > 0 {
      FixedDistanceCount(n - 1, len);
    }
  }

  /** Without codes of a length, the next first code is twice as large. */
  lemma {:induction false} FirstCodeGap(lens: seq<nat>, from: nat, to: nat)
    requires 1 <= from <= to
    requires forall l :: from <= l < to ==> Count(lens, l) == 0
    ensures FirstCode(lens, to) == FirstCode(lens, from) * Pow2(to - from)
  {
    if from < to {
      FirstCodeGap(lens, from, to - 1);
      Regroup(FirstCode(lens, from), Pow2(to - 1 - from));
    }
  }

  lemma FixedFirstCodes()
    ensures FirstCode(FixedLiterals(), 7) == 0 && FirstCode(FixedLiterals(), 8) == 48
    ensures FirstCode(FixedLiterals(), 9) == 400 && FirstCode(FixedLiterals(), 16) == 0x10000
  {
    var f := FixedLiterals();
    forall l: nat
      ensures Count(f, l) == if l == 8 then 152 else if l == 9 then 112 else if l == 7 then 24 else 0
    {
      FixedCount(288, l);
    }
    Pow2Values();
    FirstCodeGap(f, 1, 7);
    FirstCodeGap(f, 10, 16);
  }

  /** The fixed lengths give the codes tabulated in section 3.2.6, and the code is complete. */
  lemma FixedCodes(s: nat)
    requires s < 288
    ensures ValidCode(FixedLiterals()) && ValidCode(FixedDistances())
    ensures CodeOf(FixedLiterals(), s) ==
            if s < 144 then 0x30 + s
            else if s < 256 then 0x190 + (s - 144)
            else if s < 280 then s - 256
            else 0xc0 + (s - 280)
  {
    var f := FixedLiterals();
    FixedFirstCodes();
    FixedCount(s, f[s]);
    Pow2Values();
    KraftAtEnd(f);
    FixedDistancesValid();
  }

  lemma FixedDistanceFirstCodes()
    ensures FirstCode(FixedDistances(), 5) == 0 && FirstCode(FixedDistances(), 16) == 0x10000
  {
    var d := FixedDistances();
    forall l: nat
      ensures Count(d, l) == if l == 5 then 32 else 0
    {
      FixedDistanceCount(32, l);
    }
    FirstCodeGap(d, 1, 5);
    FirstCodeGap(d, 6, 16);
    Pow2Values();
  }

  lemma FixedDistancesValid()
    ensures ValidCode(FixedDistances())
    ensures forall s: nat :: s < 32 ==> CodeOf(FixedDistances(), s) == s
  {
    hide FirstCode, KraftSum, CountBelow;
    var d := FixedDistances();
    FixedDistanceFirstCodes();
    Pow2Values();
    KraftAtEnd(d);
    forall s: nat | s < 32
      ensures CodeOf(d, s) == s
    {
      FixedDistanceCount(s, 5);
    }
  }

  /** The format as the decompressor holds it. */
  function Standard(): Format {
    Format(ALPHABET, CODE_LENGTH_ORDER, FixedLiterals(), FixedDistances())
  }

  lemma StandardValid()
    ensures ValidFormat(Standard())
  {
    hide ValidAlphabet, ValidOrder, ValidCode, FixedLiterals, FixedDistances;
    AlphabetValid();
    OrderValid();
    FixedCodes(0);
  }

  function Literals(bytes: seq<Byte>): (ts: seq<Token>)
    ensures |ts| == |bytes| && forall i :: 0 <= i < |ts| ==> ts[i] == Literal(bytes[i])
  {
    seq(|bytes|, i requires 0 <= i < |bytes| => Literal(bytes[i]))
  }

  lemma {:induction false} LiteralsExpand(bytes: seq<Byte>, output: seq<Byte>, capacity: nat)
    requires ValidAlphabet(ALPHABET) && |output| + |bytes| <= capacity
    ensures ExpandableBlock(ALPHABET, output, Literals(bytes)) && BlockFits(ALPHABET, output, Literals(bytes), capacity)
    ensures ExpandBlock(ALPHABET, output, Literals(bytes)) == output + bytes
    decreases |bytes|
  {
    hide ValidAlphabet;
    if bytes != [] {
      assert Literals(bytes)[1..] == Literals(bytes[1..]);
      LiteralsExpand(bytes[1..], output + [bytes[0]], capacity);
      assert output + [bytes[0]] + bytes[1..] == output + bytes;
    } else {
      assert output + bytes == output;
    }
  }

  /** Every byte string that fits is the decompression of some stream: one fixed block of literals. */
  lemma EveryStringEncodes(bytes: seq<Byte>, capacity: nat) returns (bits: seq<bool>)
    requires |bytes| <= capacity
    ensures ValidFormat(Standard()) && RunStream(Standard(), bits, 0, [], capacity) == Complete(|bits|, bytes)
  {
    hide ValidAlphabet, ValidOrder, ValidCode, EncodeStream, RunStream, EncodeBlock, Literals, ExpandBlock, BlockFits,
         ExpandableBlock;
    StandardValid();
    var f := Standard();
    var b := Block(Fixed, Literals(bytes));
    LiteralsEmittable(f, bytes);
    LiteralsExpand(bytes, [], capacity);
    bits := EncodeStream(f, [b]);
    HasItself(bits);
    assert [] + bytes == bytes && [b][1..] == [];
    StreamRoundTrip(f, [b], bits, 0, [], capacity);
  }

  lemma LiteralsEmittable(f: Format, bytes: seq<Byte>)
    requires ValidFormat(f) && f == Standard()
    ensures Emittable(f, Block(Fixed, Literals(bytes)))
  {
    hide ValidOrder, KraftSum;
    forall t | t in Literals(bytes)
      ensures Encodable(CodesOf(f, Fixed), t)
    {
      var i :| 0 <= i < |Literals(bytes)| && Literals(bytes)[i] == t;
    }
  }
}
