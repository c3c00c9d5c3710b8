/** The mask-and-shift bit reversal of the decompressor, and its meaning bit by bit. */
module BitReversal {
  import opened Bits

  /** One butterfly of the reversal: exchanges neighbouring groups of `s` bits. */
  function SwapGroups(v: nat, high: nat, low: nat, s: nat): nat {
    Or(Shr(And(v, high), s), Shl(And(v, low), s))
  }

  function Reverse16(v: nat): nat {
    var a := SwapGroups(v, 0xaaaa, 0x5555, 1);
    var b := SwapGroups(a, 0xcccc, 0x3333, 2);
    var c := SwapGroups(b, 0xf0f0, 0x0f0f, 4);
    SwapGroups(c, 0xff00, 0x00ff, 8)
  }

  function ReverseBits(value: nat, count: nat): nat
    requires count <= 16
  {
    Shr(Reverse16(value), 16 - count)
  }

  /** The position bit `k` comes from when groups of `s` bits are exchanged. */
  function Flip(k: nat, s: nat): nat
    requires s > 0
  {
    if k / s % 2 == 0 then k + s else k - s
  }

  /** `t` is the sixteen-bit mask of the groups of `s` bits whose number has the given parity. */
  ghost predicate IsGroupMask(t: seq<bool>, s: nat, parity: nat)
    requires s > 0
  {
    |t| == 16 && forall k :: 0 <= k < 16 ==> t[k] == (k / s % 2 == parity)
  }

  lemma LsbFirst4(t: seq<bool>)
    requires |t| >= 4
    ensures LsbFirst(t) == BitValue(t[0]) + 2 * BitValue(t[1]) + 4 * BitValue(t[2]) + 8 * BitValue(t[3])
                           + 16 * LsbFirst(t[4..])
  {
    hide LsbFirst;
    assert t[1..][1..] == t[2..] && t[2..][1..] == t[3..] && t[3..][1..] == t[4..];
    LsbFirstHead(t);
    LsbFirstHead(t[1..]);
    LsbFirstHead(t[2..]);
    LsbFirstHead(t[3..]);
  }

  lemma LsbFirstHead(t: seq<bool>)
    requires t != []
    ensures LsbFirst(t) == BitValue(t[0]) + 2 * LsbFirst(t[1..])
  {
  }

  function Nibble(t: seq<bool>, i: nat): nat
    requires i + 4 <= |t|
  {
    BitValue(t[i]) + 2 * BitValue(t[i + 1]) + 4 * BitValue(t[i + 2]) + 8 * BitValue(t[i + 3])
  }

  lemma MaskValue(t: seq<bool>)
    requires |t| == 16
    ensures LsbFirst(t) == Nibble(t, 0) + 0x10 * Nibble(t, 4) + 0x100 * Nibble(t, 8) + 0x1000 * Nibble(t, 12)
  {
    LsbFirst4(t);
    LsbFirst4(t[4..]);
    LsbFirst4(t[8..]);
    LsbFirst4(t[12..]);
    assert t[4..][4..] == t[8..] && t[8..][4..] == t[12..] && t[12..][4..] == [];
  }

  ghost predicate Complementary(high: seq<bool>, low: seq<bool>, s: nat) {
    && |high| == |low| == 16
    && (forall j :: 0 <= j < 16 ==> high[j] == !low[j])
    && (forall j :: 0 <= j < 16 && low[j] ==> j + s < 16 && high[j + s])
    && (forall j :: 0 <= j < 16 && high[j] ==> s <= j && low[j - s])
  }

  /** Shifting complementary masks of groups past each other exchanges the groups. */
  lemma SwapGroupsBit(v: nat, high: seq<bool>, low: seq<bool>, s: nat, k: nat)
    requires Complementary(high, low, s)
    ensures Bit(SwapGroups(v, LsbFirst(high), LsbFirst(low), s), k)
         == (k < 16 && Bit(v, if low[k] then k + s else k - s))
  {
    hide And, Or, Shl, Shr, Bit, LsbFirst;
    var x, y := And(v, LsbFirst(high)), And(v, LsbFirst(low));
    BitOr(Shr(x, s), Shl(y, s), k);
    BitShr(x, s, k);
    BitAnd(v, LsbFirst(high), k + s);
    LsbFirstBit(high, k + s);
    BitShl(y, s, k);
    if k >= s {
      BitAnd(v, LsbFirst(low), k - s);
      LsbFirstBit(low, k - s);
    }
  }

  // The masks written in the source select the odd and the even groups.

  lemma BitMasks(high: seq<bool>, low: seq<bool>)
    requires IsGroupMask(high, 1, 1) && IsGroupMask(low, 1, 0)
    ensures Complementary(high, low, 1)
    ensures LsbFirst(high) == 0xaaaa && LsbFirst(low) == 0x5555
  {
    MaskValue(high);
    MaskValue(low);
  }

  lemma PairMasks(high: seq<bool>, low: seq<bool>)
    requires IsGroupMask(high, 2, 1) && IsGroupMask(low, 2, 0)
    ensures Complementary(high, low, 2)
    ensures LsbFirst(high) == 0xcccc && LsbFirst(low) == 0x3333
  {
    MaskValue(high);
    MaskValue(low);
  }

  lemma NibbleMasks(high: seq<bool>, low: seq<bool>)
    requires IsGroupMask(high, 4, 1) && IsGroupMask(low, 4, 0)
    ensures Complementary(high, low, 4)
    ensures LsbFirst(high) == 0xf0f0 && LsbFirst(low) == 0x0f0f
  {
    MaskValue(high);
    MaskValue(low);
  }

  lemma ByteMasks(high: seq<bool>, low: seq<bool>)
    requires IsGroupMask(high, 8, 1) && IsGroupMask(low, 8, 0)
    ensures Complementary(high, low, 8)
    ensures LsbFirst(high) == 0xff00 && LsbFirst(low) == 0x00ff
  {
    MaskValue(high);
    MaskValue(low);
  }

  lemma SwapBits(v: nat, k: nat)
    ensures Bit(SwapGroups(v, 0xaaaa, 0x5555, 1), k) == (k < 16 && Bit(v, Flip(k, 1)))
  {
    var high := seq(16, j requires 0 <= j < 16 => j / 1 % 2 == 1);
    var low := seq(16, j requires 0 <= j < 16 => j / 1 % 2 == 0);
    BitMasks(high, low);
    SwapGroupsBit(v, high, low, 1, k);
  }

  lemma SwapPairs(v: nat, k: nat)
    ensures Bit(SwapGroups(v, 0xcccc, 0x3333, 2), k) == (k < 16 && Bit(v, Flip(k, 2)))
  {
    var high := seq(16, j requires 0 <= j < 16 => j / 2 % 2 == 1);
    var low := seq(16, j requires 0 <= j < 16 => j / 2 % 2 == 0);
    PairMasks(high, low);
    SwapGroupsBit(v, high, low, 2, k);
  }

  lemma SwapNibbles(v: nat, k: nat)
    ensures Bit(SwapGroups(v, 0xf0f0, 0x0f0f, 4), k) == (k < 16 && Bit(v, Flip(k, 4)))
  {
    var high := seq(16, j requires 0 <= j < 16 => j / 4 % 2 == 1);
    var low := seq(16, j requires 0 <= j < 16 => j / 4 % 2 == 0);
    NibbleMasks(high, low);
    SwapGroupsBit(v, high, low, 4, k);
  }

  lemma SwapBytes(v: nat, k: nat)
    ensures Bit(SwapGroups(v, 0xff00, 0x00ff, 8), k) == (k < 16 && Bit(v, Flip(k, 8)))
  {
    var high := seq(16, j requires 0 <= j < 16 => j / 8 % 2 == 1);
    var low := seq(16, j requires 0 <= j < 16 => j / 8 % 2 == 0);
    ByteMasks(high, low);
    SwapGroupsBit(v, high, low, 8, k);
  }

  lemma FlipAll(k: nat)
    requires k < 16
    ensures Flip(Flip(Flip(Flip(k, 8), 4), 2), 1) == 15 - k
    ensures Flip(k, 8) < 16 && Flip(Flip(k, 8), 4) < 16 && Flip(Flip(Flip(k, 8), 4), 2) < 16
  {
  }

  /** The four butterflies reverse the sixteen bits. */
  lemma Reverse16Bit(v: nat, k: nat)
    ensures Bit(Reverse16(v), k) == (k < 16 && Bit(v, 15 - k))
  {
    var a := SwapGroups(v, 0xaaaa, 0x5555, 1);
    var b := SwapGroups(a, 0xcccc, 0x3333, 2);
    var c := SwapGroups(b, 0xf0f0, 0x0f0f, 4);
    SwapBytes(c, k);
    if k < 16 {
      FlipAll(k);
      var k8 := Flip(k, 8);
      var k4 := Flip(k8, 4);
      var k2 := Flip(k4, 2);
      SwapNibbles(b, k8);
      SwapPairs(a, k4);
      SwapBits(v, k2);
    }
  }

  /** Reversing a whole window turns its least-significant-first value into the most-significant-first one. */
  lemma ReverseWindow(w: seq<bool>)
    requires |w| == 16
    ensures ReverseBits(LsbFirst(w), 16) == MsbFirst(w)
  {
    var r := Reverse16(LsbFirst(w));
    forall k: nat
      ensures Bit(r, k) == Bit(MsbFirst(w), k)
      ensures k >= 16 ==> !Bit(r, k)
    {
      Reverse16Bit(LsbFirst(w), k);
      MsbFirstBit(w, k);
      if k < 16 {
        LsbFirstBit(w, 15 - k);
      }
    }
    BoundedByBits(r, 16);
    MsbFirstBit(w, 0);
    BitsDetermine(r, MsbFirst(w), 16);
  }

  lemma ReverseCodeBit(c: nat, n: nat, k: nat)
    requires n <= 16
    ensures Bit(ReverseBits(c, n), k) == (k < n && Bit(c, n - 1 - k))
    ensures Bit(LsbFirst(HighBits(c, n)), k) == (k < n && Bit(c, n - 1 - k))
  {
    hide Reverse16, Shr, Bit, LsbFirst;
    BitShr(Reverse16(c), 16 - n, k);
    Reverse16Bit(c, k + (16 - n));
    LsbFirstBit(HighBits(c, n), k);
  }

  /** Reversing a code of `n` bits gives the value of its stream bits read least significant first. */
  lemma ReverseCode(c: nat, n: nat)
    requires n <= 16
    ensures ReverseBits(c, n) == LsbFirst(HighBits(c, n)) < Pow2(n)
  {
    var r, t := ReverseBits(c, n), LsbFirst(HighBits(c, n));
    forall k: nat
      ensures Bit(r, k) == Bit(t, k)
      ensures k >= n ==> !Bit(r, k)
    {
      ReverseCodeBit(c, n, k);
    }
    BoundedByBits(r, n);
    LsbFirstBit(HighBits(c, n), 0);
    BitsDetermine(r, t, n);
  }
}
