/** The input of the decompressor: bits in the packing order of section 3.1.1 of RFC 1951. */
module BitStreams {
  import opened Bits

  /** `n` bits of the stream from `pos` on; bits past the end read as zero. */
  function Window(bits: seq<bool>, pos: nat, n: nat): (w: seq<bool>)
    ensures |w| == n
  {
    seq(n, i requires 0 <= i < n => pos + i < |bits| && bits[pos + i])
  }

  /** The stream continues with the bits `w` at `pos`. */
  predicate Has(bits: seq<bool>, pos: nat, w: seq<bool>) {
    Window(bits, pos, |w|) == w
  }

  lemma HasAppend(bits: seq<bool>, pos: nat, v: seq<bool>, w: seq<bool>)
    ensures Has(bits, pos, v + w) <==> Has(bits, pos, v) && Has(bits, pos + |v|, w)
  {
    var all := Window(bits, pos, |v| + |w|);
    assert all[..|v|] == Window(bits, pos, |v|);
    assert all[|v|..] == Window(bits, pos + |v|, |w|);
    assert (v + w)[..|v|] == v && (v + w)[|v|..] == w;
    assert all == all[..|v|] + all[|v|..];
  }

  lemma HasItself(bits: seq<bool>)
    ensures Has(bits, 0, bits)
  {
  }

  /** A short code starts the stream exactly when it starts a longer window of it. */
  lemma HasPrefix(bits: seq<bool>, pos: nat, w: seq<bool>, n: nat)
    requires |w| <= n
    ensures Has(bits, pos, w) <==> w <= Window(bits, pos, n)
  {
    assert Window(bits, pos, n)[..|w|] == Window(bits, pos, |w|);
  }

  class BitStream {
    const bits: seq<bool>
    var pos: nat

    constructor (bits: seq<bool>)
      ensures this.bits == bits && pos == 0
    {
      this.bits := bits;
      pos := 0;
    }

    method PeekBits(n: nat) returns (v: nat)
      ensures v == LsbFirst(Window(bits, pos, n)) < Pow2(n)
    {
      LsbFirstBit(Window(bits, pos, n), 0);
      v := LsbFirst(Window(bits, pos, n));
    }

    method DropBits(n: nat)
      modifies this`pos
      ensures pos == old(pos) + n
    {
      pos := pos + n;
    }

    method ReadBits(n: nat) returns (v: nat)
      modifies this`pos
      ensures v == LsbFirst(Window(bits, old(pos), n)) < Pow2(n)
      ensures pos == old(pos) + n
    {
      v := PeekBits(n);
      DropBits(n);
    }
  }
}
