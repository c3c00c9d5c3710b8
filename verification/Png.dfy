/**
 Scanline reconstruction of Kernel/Library/Image.cpp: the decoder rewrites each row in place, and
 inverts the filters of section 9 of the PNG specification.
 */
module Png {
  import opened Wrappers
  import opened Bits

  type Byte = x: nat | x < 256

  const FILTER_COUNT: nat := 5

  // ----- Prediction -----

  function Absolute(x: int): nat {
    if x < 0 then -x else x
  }

  function PredictPaeth(a: Byte, b: Byte, c: Byte): Byte {
    var p := a + b - c;
    var pa := Absolute(p - a);
    var pb := Absolute(p - b);
    var pc := Absolute(p - c);
    if pa <= pb && pa <= pc then a else if pb <= pc then b else c
  }

  /** `v` is `a`, `b` or `c`: the nearest to a + b - c, ties going to `a`, then to `b`. */
  predicate Nearest(a: nat, b: nat, c: nat, v: nat) {
    var p := a + b - c;
    var best := Distance(p, v);
    && (v == a || v == b || v == c)
    && best <= Distance(p, a) && best <= Distance(p, b) && best <= Distance(p, c)
    && (best == Distance(p, a) ==> v == a)
    && (best == Distance(p, b) ==> v == a || v == b)
  }

  function Distance(x: int, y: int): nat {
    if x <= y then y - x else x - y
  }

  /** The Paeth predictor is the nearest neighbour. */
  lemma PaethNearest(a: Byte, b: Byte, c: Byte)
    ensures Nearest(a, b, c, PredictPaeth(a, b, c))
  {
  }

  /** What filter `f` predicts from the bytes to the left, above and above left. */
  function Predict(f: nat, left: Byte, above: Byte, upperLeft: Byte): Byte {
    match f
    case 1 => left
    case 2 => above
    case 3 => (left + above) / 2
    case 4 => PredictPaeth(left, above, upperLeft)
    case _ => 0
  }

  function Left(row: seq<Byte>, bpp: nat, x: nat): Byte
    requires 1 <= bpp && x <= |row|
  {
    if x >= bpp then row[x - bpp] else 0
  }

  /** The encoder's side: every byte minus its prediction from the original bytes. */
  function FilterRow(f: nat, bpp: nat, above: seq<Byte>, row: seq<Byte>): (r: seq<Byte>)
    requires 1 <= bpp && |above| == |row|
    ensures |r| == |row|
  {
    seq(|row|, x requires 0 <= x < |row| =>
      (row[x] - Predict(f, Left(row, bpp, x), above[x], Left(above, bpp, x))) % 256)
  }

  /** The decoder's side: every byte plus its prediction from the bytes reconstructed so far. */
  function Reconstruct(f: nat, bpp: nat, above: seq<Byte>, filtered: seq<Byte>): (r: seq<Byte>)
    requires 1 <= bpp && |filtered| <= |above|
    ensures |r| == |filtered|
  {
    if filtered == [] then []
    else
      var x := |filtered| - 1;
      var r := Reconstruct(f, bpp, above, filtered[..x]);
      r + [(filtered[x] + Predict(f, Left(r, bpp, x), above[x], Left(above, bpp, x))) % 256]
  }

  lemma {:induction false} ReconstructPrefix(f: nat, bpp: nat, above: seq<Byte>, filtered: seq<Byte>, x: nat)
    requires 1 <= bpp && x <= |filtered| <= |above|
    ensures Reconstruct(f, bpp, above, filtered)[..x] == Reconstruct(f, bpp, above, filtered[..x])
    decreases |filtered|
  {
    var n := |filtered|;
    if x == n {
      assert filtered[..x] == filtered;
    } else {
      ReconstructPrefix(f, bpp, above, filtered[..n - 1], x);
      assert filtered[..n - 1][..x] == filtered[..x];
    }
  }

  /** Reconstruction inverts filtering, whatever the filter, the pixel size and the row above. */
  lemma {:induction false} ReconstructInverts(f: nat, bpp: nat, above: seq<Byte>, row: seq<Byte>, n: nat)
    requires 1 <= bpp && |above| == |row| && n <= |row|
    ensures Reconstruct(f, bpp, above, FilterRow(f, bpp, above, row)[..n]) == row[..n]
    decreases n
  {
    hide Predict;
    if n > 0 {
      var filtered := FilterRow(f, bpp, above, row);
      ReconstructInverts(f, bpp, above, row, n - 1);
      assert filtered[..n][..n - 1] == filtered[..n - 1];
      assert Left(row[..n - 1], bpp, n - 1) == Left(row, bpp, n - 1);
      SubtractAdd(row[n - 1], Predict(f, Left(row, bpp, n - 1), above[n - 1], Left(above, bpp, n - 1)));
    }
  }

  lemma SubtractAdd(v: Byte, p: Byte)
    ensures ((v - p) % 256 + p) % 256 == v && ((v + p) % 256 - p) % 256 == v
  {
  }

  /** And filtering inverts reconstruction, so no two filtered rows decode to the same one. */
  lemma FilterInverts(f: nat, bpp: nat, above: seq<Byte>, filtered: seq<Byte>)
    requires 1 <= bpp && |above| == |filtered|
    ensures FilterRow(f, bpp, above, Reconstruct(f, bpp, above, filtered)) == filtered
  {
    hide Predict;
    var row := Reconstruct(f, bpp, above, filtered);
    forall x | 0 <= x < |row|
      ensures FilterRow(f, bpp, above, row)[x] == filtered[x]
    {
      ReconstructPrefix(f, bpp, above, filtered, x);
      ReconstructPrefix(f, bpp, above, filtered, x + 1);
      assert filtered[..x + 1][..x] == filtered[..x];
      assert row[..x + 1][x] == row[x];
      assert Left(row[..x], bpp, x) == Left(row, bpp, x);
      SubtractAdd(filtered[x], Predict(f, Left(row, bpp, x), above[x], Left(above, bpp, x)));
    }
  }

  lemma ReconstructAt(f: nat, bpp: nat, above: seq<Byte>, filtered: seq<Byte>, x: nat)
    requires 1 <= bpp && x < |filtered| <= |above|
    ensures var r := Reconstruct(f, bpp, above, filtered);
            r[x] == (filtered[x] + Predict(f, Left(r, bpp, x), above[x], Left(above, bpp, x))) % 256
  {
    hide Predict;
    var r := Reconstruct(f, bpp, above, filtered);
    ReconstructPrefix(f, bpp, above, filtered, x);
    ReconstructPrefix(f, bpp, above, filtered, x + 1);
    assert filtered[..x + 1][..x] == filtered[..x];
    assert r[..x + 1][x] == r[x];
    assert Left(r[..x], bpp, x) == Left(r, bpp, x);
  }

  /**
   The reconstruction functions of section 9.2 of the PNG specification, byte by byte, for the
   five filter numbers.
   */
  lemma ReconstructedByte(f: nat, bpp: nat, above: seq<Byte>, filtered: seq<Byte>, x: nat)
    requires 1 <= bpp && x < |filtered| <= |above|
    ensures var r := Reconstruct(f, bpp, above, filtered);
            var v: nat, up: nat := filtered[x], above[x];
            var left: nat := if x >= bpp then r[x - bpp] else 0;
            var upperLeft: nat := if x >= bpp then above[x - bpp] else 0;
            && (f == 0 ==> r[x] == v)
            && (f == 1 ==> r[x] == (v + left) % 256)
            && (f == 2 ==> r[x] == (v + up) % 256)
            && (f == 3 ==> r[x] == (v + (left + up) / 2) % 256)
            && (f == 4 ==> exists p: nat :: Nearest(left, up, upperLeft, p) && r[x] == (v + p) % 256)
  {
    hide Reconstruct, PredictPaeth;
    ReconstructAt(f, bpp, above, filtered, x);
    var r := Reconstruct(f, bpp, above, filtered);
    var left := if x >= bpp then r[x - bpp] else 0;
    var upperLeft := if x >= bpp then above[x - bpp] else 0;
    PaethNearest(left, above[x], upperLeft);
  }

  // ----- One scanline, in place -----

  /** The row above the one at `at`, all zero if there is none. */
  ghost function RowAbove(pixels: seq<Byte>, previous: Option<nat>, length: nat): (r: seq<Byte>)
    requires previous.Some? ==> previous.value + length <= |pixels|
    ensures |r| == length
  {
    if previous.Some? then pixels[previous.value..previous.value + length] else seq(length, x => 0)
  }

  /** The buffer once the first `x` bytes of the row at `at` are reconstructed. */
  ghost function Partly(pixels: seq<Byte>, at: nat, previous: Option<nat>, bpp: nat, length: nat, f: nat,
                        x: nat): (r: seq<Byte>)
    requires 1 <= bpp && at + length <= |pixels| && x <= length
    requires previous.Some? ==> previous.value + length <= at
    ensures |r| == |pixels|
  {
    pixels[..at] + Reconstruct(f, bpp, RowAbove(pixels, previous, length), pixels[at..at + x]) + pixels[at + x..]
  }

  lemma PartlyReads(pixels: seq<Byte>, at: nat, previous: Option<nat>, bpp: nat, length: nat, f: nat, x: nat)
    requires 1 <= bpp && at + length <= |pixels| && x < length
    requires previous.Some? ==> previous.value + length <= at
    ensures var now := Partly(pixels, at, previous, bpp, length, f, x);
            var rowAbove := RowAbove(pixels, previous, length);
            && Left(Reconstruct(f, bpp, rowAbove, pixels[at..at + x]), bpp, x) ==
              (if x >= bpp then now[at + x - bpp] else 0)
            && rowAbove[x] == (if previous.Some? then now[previous.value + x] else 0)
            && Left(rowAbove, bpp, x) == (if x >= bpp && previous.Some? then now[previous.value + x - bpp] else 0)
            && now[at + x] == pixels[at + x]
  {
    hide Predict, Reconstruct;
  }

  /** The next byte only needs bytes that are final already, or not touched yet. */
  lemma PartlyStep(pixels: seq<Byte>, at: nat, previous: Option<nat>, bpp: nat, length: nat, f: nat, x: nat)
    requires 1 <= bpp && at + length <= |pixels| && x < length
    requires previous.Some? ==> previous.value + length <= at
    ensures var now := Partly(pixels, at, previous, bpp, length, f, x);
            var left := if x >= bpp then now[at + x - bpp] else 0;
            var above := if previous.Some? then now[previous.value + x] else 0;
            var upperLeft := if x >= bpp && previous.Some? then now[previous.value + x - bpp] else 0;
            Partly(pixels, at, previous, bpp, length, f, x + 1) ==
            now[at + x := (now[at + x] + Predict(f, left, above, upperLeft)) % 256]
  {
    hide Predict, RowAbove, Left;
    PartlyReads(pixels, at, previous, bpp, length, f, x);
    var rowAbove := RowAbove(pixels, previous, length);
    var filtered := pixels[at..at + (x + 1)];
    assert filtered[..x] == pixels[at..at + x];
    var r := Reconstruct(f, bpp, rowAbove, filtered[..x]);
    var v := (filtered[x] + Predict(f, Left(r, bpp, x), rowAbove[x], Left(rowAbove, bpp, x))) % 256;
    ReplaceNext(pixels[..at], r, pixels[at + x..], v);
    assert pixels[at + x..][1..] == pixels[at + (x + 1)..];
  }

  lemma ReplaceNext(a: seq<Byte>, r: seq<Byte>, rest: seq<Byte>, v: Byte)
    requires rest != []
    ensures (a + r + rest)[|a| + |r| := v] == a + (r + [v]) + rest[1..]
  {
  }

  method UnfilterScanline(pixels: array<Byte>, at: nat, previous: Option<nat>, bpp: nat, length: nat, filter: nat)
    requires 1 <= bpp && at + length <= pixels.Length
    requires previous.Some? ==> previous.value + length <= at
    modifies pixels
    ensures pixels[..] == old(pixels[..at]) +
                          Reconstruct(filter, bpp, RowAbove(old(pixels[..]), previous, length),
                                      old(pixels[at..at + length])) +
                          old(pixels[at + length..])
  {
    hide Predict, Reconstruct, RowAbove;
    ghost var before := pixels[..];
    Nothing(before, at, previous, bpp, length, filter);
    var x := 0;
    while x < length
      invariant 0 <= x <= length
      invariant pixels[..] == Partly(before, at, previous, bpp, length, filter, x)
    {
      hide Partly;
      PartlyStep(before, at, previous, bpp, length, filter, x);
      var left := if x >= bpp then pixels[at + x - bpp] else 0;
      var above := if previous.Some? then pixels[previous.value + x] else 0;
      var upperLeft := if x >= bpp && previous.Some? then pixels[previous.value + x - bpp] else 0;
      pixels[at + x] := (pixels[at + x] + Predict(filter, left, above, upperLeft)) % 256;
      x := x + 1;
    }
  }

  lemma Nothing(pixels: seq<Byte>, at: nat, previous: Option<nat>, bpp: nat, length: nat, f: nat)
    requires 1 <= bpp && at + length <= |pixels|
    requires previous.Some? ==> previous.value + length <= at
    ensures Partly(pixels, at, previous, bpp, length, f, 0) == pixels
  {
  }

  // ----- The whole image -----

  /** Bytes per pixel of eight-bit images with four channels. */
  const BYTES_PER_PIXEL: nat := 4

  /** The size of `k` rows of `n` bytes: k * n, written so that proofs see one more row as plus n. */
  function Size(k: nat, n: nat): nat
    decreases k
  {
    if k == 0 then 0 else Size(k - 1, n) + n
  }

  lemma {:induction false} SizeIsProduct(k: nat, n: nat)
    ensures Size(k, n) == k * n
    decreases k
  {
    if k > 0 {
      SizeIsProduct(k - 1, n);
      MulDistrib(k - 1, 1, n);
    }
  }

  lemma {:induction false} SizeGrows(j: nat, k: nat, n: nat)
    requires j <= k
    ensures Size(j, n) <= Size(k, n)
    decreases k
  {
    if j < k {
      SizeGrows(j, k - 1, n);
    }
  }

  /** Row `y` of the filtered stream: a filter byte and `n` data bytes. */
  function Encoded(input: seq<Byte>, n: nat, y: nat): (r: seq<Byte>)
    requires Size(y + 1, n + 1) <= |input|
    ensures |r| == n + 1
  {
    input[Size(y, n + 1)..Size(y, n + 1) + (n + 1)]
  }

  function Above(rows: seq<seq<Byte>>, n: nat): seq<Byte> {
    if rows == [] then seq(n, x => 0) else rows[|rows| - 1]
  }

  /** The first `k` rows of the image, each reconstructed against the one before. */
  function DecodeRows(input: seq<Byte>, n: nat, k: nat): (rows: seq<seq<Byte>>)
    requires Size(k, n + 1) <= |input|
    ensures |rows| == k && forall y :: 0 <= y < k ==> |rows[y]| == n
    decreases k
  {
    if k == 0 then []
    else
      var rows := DecodeRows(input, n, k - 1);
      var e := Encoded(input, n, k - 1);
      rows + [Reconstruct(e[0], BYTES_PER_PIXEL, Above(rows, n), e[1..])]
  }

  /** Row by row: the filter byte, the data, and the row above, which is all zero for the first. */
  lemma {:induction false} DecodedRow(input: seq<Byte>, n: nat, k: nat, y: nat)
    requires y < k && Size(k, n + 1) <= |input|
    ensures Size(y, n + 1) + n + 1 <= |input|
    ensures var rows, start := DecodeRows(input, n, k), Size(y, n + 1);
            rows[y] == Reconstruct(input[start], 4, if y == 0 then seq(n, x => 0) else rows[y - 1],
                                   input[start + 1..start + 1 + n])
    decreases k
  {
    hide Reconstruct;
    if y < k - 1 {
      DecodedRow(input, n, k - 1, y);
    } else {
      var e := Encoded(input, n, y);
      assert e[1..] == input[Size(y, n + 1) + 1..Size(y, n + 1) + 1 + n];
    }
  }

  function Flatten(rows: seq<seq<Byte>>): seq<Byte> {
    if rows == [] then [] else Flatten(rows[..|rows| - 1]) + rows[|rows| - 1]
  }

  /** The encoder: every row with a filter of its own, computed from the original rows. */
  function EncodeRows(rows: seq<seq<Byte>>, filters: seq<Byte>, n: nat): (r: seq<Byte>)
    requires |filters| == |rows| && forall y :: 0 <= y < |rows| ==> |rows[y]| == n
    ensures |r| == Size(|rows|, n + 1)
  {
    if rows == [] then []
    else
      var k := |rows| - 1;
      EncodeRows(rows[..k], filters[..k], n) +
      ([filters[k]] + FilterRow(filters[k], BYTES_PER_PIXEL, Above(rows[..k], n), rows[k]))
  }

  lemma {:induction false} DecodeRowsAppend(input: seq<Byte>, more: seq<Byte>, n: nat, k: nat)
    requires Size(k, n + 1) <= |input|
    ensures DecodeRows(input + more, n, k) == DecodeRows(input, n, k)
    decreases k
  {
    hide Reconstruct, Above;
    if k > 0 {
      DecodeRowsAppend(input, more, n, k - 1);
      assert Encoded(input + more, n, k - 1) == Encoded(input, n, k - 1);
    }
  }

  lemma DecodeLast(input: seq<Byte>, row: seq<Byte>, n: nat, k: nat)
    requires |input| == Size(k, n + 1) && |row| == n + 1
    ensures Size(k + 1, n + 1) == |input + row|
    ensures DecodeRows(input + row, n, k + 1) ==
            DecodeRows(input, n, k) + [Reconstruct(row[0], BYTES_PER_PIXEL, Above(DecodeRows(input, n, k), n),
                                                   row[1..])]
  {
    hide Reconstruct, Above;
    DecodeRowsAppend(input, row, n, k);
    assert Encoded(input + row, n, k) == row;
  }

  /** Any image, with any choice of filters, decodes to itself; bytes after it do not matter. */
  lemma {:induction false} ImageRoundTrip(rows: seq<seq<Byte>>, filters: seq<Byte>, n: nat, more: seq<Byte>)
    requires |filters| == |rows| && forall y :: 0 <= y < |rows| ==> |rows[y]| == n
    ensures |EncodeRows(rows, filters, n) + more| >= Size(|rows|, n + 1)
    ensures DecodeRows(EncodeRows(rows, filters, n) + more, n, |rows|) == rows
    decreases |rows|
  {
    hide Reconstruct, FilterRow, DecodeRows;
    DecodeRowsAppend(EncodeRows(rows, filters, n), more, n, |rows|);
    if rows == [] {
      assert DecodeRows([], n, 0) == [];
    } else {
      var k := |rows| - 1;
      var above := Above(rows[..k], n);
      ImageRoundTrip(rows[..k], filters[..k], n, []);
      var input := EncodeRows(rows[..k], filters[..k], n);
      assert input + [] == input;
      var data := FilterRow(filters[k], BYTES_PER_PIXEL, above, rows[k]);
      DecodeLast(input, [filters[k]] + data, n, k);
      assert ([filters[k]] + data)[1..] == data;
      ReconstructsWhole(filters[k], BYTES_PER_PIXEL, above, rows[k]);
      assert rows == rows[..k] + [rows[k]];
    }
  }

  lemma ReconstructsWhole(f: nat, bpp: nat, above: seq<Byte>, row: seq<Byte>)
    requires 1 <= bpp && |above| == |row|
    ensures Reconstruct(f, bpp, above, FilterRow(f, bpp, above, row)) == row
  {
    ReconstructInverts(f, bpp, above, row, |row|);
    assert FilterRow(f, bpp, above, row)[..|row|] == FilterRow(f, bpp, above, row);
    assert row[..|row|] == row;
  }

  /** Whether the first `k` filter bytes name one of the five filters. */
  predicate FiltersKnown(input: seq<Byte>, n: nat, k: nat)
    requires Size(k, n + 1) <= |input|
    decreases k
  {
    k == 0 || (FiltersKnown(input, n, k - 1) && Encoded(input, n, k - 1)[0] < FILTER_COUNT)
  }

  lemma {:induction false} FiltersKnownPrefix(input: seq<Byte>, n: nat, j: nat, k: nat)
    requires j <= k && Size(k, n + 1) <= |input|
    ensures Size(j, n + 1) <= |input| && (FiltersKnown(input, n, k) ==> FiltersKnown(input, n, j))
    decreases k
  {
    if j < k {
      FiltersKnownPrefix(input, n, j, k - 1);
    }
  }

  lemma {:induction false} FlattenLength(rows: seq<seq<Byte>>, n: nat)
    requires forall y :: 0 <= y < |rows| ==> |rows[y]| == n
    ensures |Flatten(rows)| == Size(|rows|, n)
  {
    if rows != [] {
      FlattenLength(rows[..|rows| - 1], n);
    }
  }

  method WriteRow(pixels: array<Byte>, at: nat, data: seq<Byte>)
    requires at + |data| <= pixels.Length
    modifies pixels
    ensures pixels[..] == old(pixels[..at]) + data + old(pixels[at + |data|..])
  {
    var i := 0;
    while i < |data|
      invariant 0 <= i <= |data|
      invariant pixels[..at + i] == old(pixels[..at]) + data[..i] && pixels[at + i..] == old(pixels[at + i..])
    {
      pixels[at + i] := data[i];
      assert pixels[..at + (i + 1)] == pixels[..at + i] + [data[i]];
      i := i + 1;
    }
    assert data[..i] == data;
    assert pixels[..] == pixels[..at + i] + pixels[at + i..];
  }

  /** The rows decoded so far fill the buffer up to row `y`, and `previous` finds the last of them. */
  ghost predicate DecodedTo(pixels: seq<Byte>, input: seq<Byte>, n: nat, y: nat, previous: Option<nat>)
    requires Size(y, n + 1) <= |input|
  {
    var rows := DecodeRows(input, n, y);
    && Size(y, n) <= |pixels| && pixels[..Size(y, n)] == Flatten(rows)
    && (previous.Some? ==> previous.value + n <= Size(y, n))
    && RowAbove(pixels, previous, n) == Above(rows, n)
  }

  lemma DecodedStep(before: seq<Byte>, after: seq<Byte>, input: seq<Byte>, n: nat, y: nat, previous: Option<nat>)
    requires Size(y + 1, n + 1) <= |input| && Size(y, n + 1) <= |input| && Size(y + 1, n) == Size(y, n) + n <= |before|
    requires DecodedTo(before, input, n, y, previous)
    requires var e := Encoded(input, n, y);
             after == before[..Size(y, n)] +
                      Reconstruct(e[0], BYTES_PER_PIXEL, RowAbove(before, previous, n), e[1..]) +
                        before[Size(y, n) + n..]
    ensures DecodedTo(after, input, n, y + 1, Some(Size(y, n)))
  {
    hide Reconstruct, Encoded, Size, DecodeRows, Flatten;
    var rows := DecodeRows(input, n, y);
    var e := Encoded(input, n, y);
    var row := Reconstruct(e[0], BYTES_PER_PIXEL, Above(rows, n), e[1..]);
    DecodeRowsSnoc(input, n, y);
    FlattenSnoc(rows, row);
    SpliceRow(before, Size(y, n), row);
    assert (rows + [row])[|rows|] == row;
  }

  lemma DecodeRowsSnoc(input: seq<Byte>, n: nat, y: nat)
    requires Size(y + 1, n + 1) <= |input| && Size(y, n + 1) <= |input|
    ensures var rows, e := DecodeRows(input, n, y), Encoded(input, n, y);
            DecodeRows(input, n, y + 1) == rows + [Reconstruct(e[0], BYTES_PER_PIXEL, Above(rows, n), e[1..])]
  {
    hide Reconstruct, Encoded, Above;
  }

  lemma FlattenSnoc(rows: seq<seq<Byte>>, row: seq<Byte>)
    ensures Flatten(rows + [row]) == Flatten(rows) + row
  {
    assert (rows + [row])[..|rows|] == rows;
  }

  lemma SpliceRow(before: seq<Byte>, at: nat, row: seq<Byte>)
    requires at + |row| <= |before|
    ensures var after := before[..at] + row + before[at + |row|..];
            after[..at + |row|] == before[..at] + row && after[at..at + |row|] == row && |after| == |before|
  {
  }

  lemma Undecoded(pixels: seq<Byte>, input: seq<Byte>, n: nat)
    ensures DecodedTo(pixels, input, n, 0, None) && FiltersKnown(input, n, 0)
  {
  }

  lemma KnownStep(input: seq<Byte>, n: nat, y: nat)
    requires Size(y + 1, n + 1) <= |input|
    ensures var start := Size(y, n + 1);
            && start + 1 + n <= |input| && Encoded(input, n, y)[0] == input[start]
            && Encoded(input, n, y)[1..] == input[start + 1..start + 1 + n]
            && (FiltersKnown(input, n, y + 1) <==> FiltersKnown(input, n, y) && input[start] < FILTER_COUNT)
  {
  }

  lemma DecodedBounds(pixels: seq<Byte>, input: seq<Byte>, n: nat, y: nat, previous: Option<nat>)
    requires Size(y, n + 1) <= |input| && DecodedTo(pixels, input, n, y, previous)
    ensures previous.Some? ==> previous.value + n <= Size(y, n)
  {
  }

  lemma DecodedWritten(before: seq<Byte>, mid: seq<Byte>, after: seq<Byte>, input: seq<Byte>, n: nat, y: nat,
                       previous: Option<nat>, at: nat, e: seq<Byte>)
    requires Size(y + 1, n + 1) <= |input| && Size(y, n + 1) <= |input|
    requires at == Size(y, n) && Size(y + 1, n) == at + n && at + n <= |before| == |mid|
    requires DecodedTo(before, input, n, y, previous) && (previous.Some? ==> previous.value + n <= at)
    requires |e| == n + 1 && e == Encoded(input, n, y) && mid == before[..at] + e[1..] + before[at + n..]
    requires after == mid[..at] +
                      Reconstruct(e[0], BYTES_PER_PIXEL, RowAbove(mid, previous, n), mid[at..at + n]) + mid[at + n..]
    ensures DecodedTo(after, input, n, y + 1, Some(at))
  {
    hide Reconstruct, Encoded, DecodeRows, Size;
    assert mid[..at] == before[..at] && mid[at..at + n] == e[1..] && mid[at + n..] == before[at + n..];
    assert RowAbove(mid, previous, n) == RowAbove(before, previous, n);
    DecodedStep(before, after, input, n, y, previous);
  }

  lemma DecodedWhole(pixels: seq<Byte>, input: seq<Byte>, n: nat, height: nat, previous: Option<nat>)
    requires Size(height, n + 1) <= |input| && DecodedTo(pixels, input, n, height, previous) &&
             |pixels| == Size(height, n)
    ensures pixels == Flatten(DecodeRows(input, n, height))
  {
    assert pixels[..Size(height, n)] == pixels;
  }

  /** Copies row `y` from the stream into the buffer and reconstructs it there. */
  method DecodeRow(pixels: array<Byte>, input: seq<Byte>, n: nat, y: nat, previous: Option<nat>)
    requires Size(y + 1, n + 1) <= |input| && Size(y, n + 1) <= |input| &&
             Size(y + 1, n) == Size(y, n) + n <= pixels.Length
    requires DecodedTo(pixels[..], input, n, y, previous)
    modifies pixels
    ensures DecodedTo(pixels[..], input, n, y + 1, Some(Size(y, n)))
  {
    hide Reconstruct, DecodeRows, Encoded, RowAbove, FiltersKnown, Flatten, DecodedTo, Size;
    var start := Size(y, n + 1);
    KnownStep(input, n, y);
    ghost var before := pixels[..];
    WriteRow(pixels, Size(y, n), input[start + 1..start + 1 + n]);
    ghost var mid := pixels[..];
    DecodedBounds(before, input, n, y, previous);
    UnfilterScanline(pixels, Size(y, n), previous, BYTES_PER_PIXEL, n, input[start]);
    DecodedWritten(before, mid, pixels[..], input, n, y, previous, Size(y, n), Encoded(input, n, y));
  }

  /** Fails on a short stream or an unknown filter; otherwise yields the decoded rows. */
  method Defilter(input: seq<Byte>, width: nat, height: nat) returns (r: Option<seq<Byte>>)
    ensures var n := BYTES_PER_PIXEL * width;
            && (r.Some? <==> Size(height, n + 1) <= |input| && FiltersKnown(input, n, height))
            && (r.Some? ==> r.value == Flatten(DecodeRows(input, n, height)))
  {
    hide Reconstruct, DecodeRows, Encoded, RowAbove, FiltersKnown, Flatten;
    var n := BYTES_PER_PIXEL * width;
    if |input| < Size(height, n + 1) {
      return None;
    }
    var pixels := new Byte[Size(height, n)];
    var previous: Option<nat> := None;
    var y := 0;
    Undecoded(pixels[..], input, n);
    while y < height
      invariant 0 <= y <= height && Size(y, n + 1) <= |input|
      invariant FiltersKnown(input, n, y) && DecodedTo(pixels[..], input, n, y, previous)
    {
      hide DecodedTo;
      SizeGrows(y + 1, height, n + 1);
      SizeGrows(y + 1, height, n);
      var start := Size(y, n + 1);
      var filter := input[start];
      KnownStep(input, n, y);
      if filter >= FILTER_COUNT {
        FiltersKnownPrefix(input, n, y + 1, height);
        return None;
      }
      DecodeRow(pixels, input, n, y, previous);
      previous := Some(Size(y, n));
      y := y + 1;
    }
    DecodedWhole(pixels[..], input, n, height, previous);
    r := Some(pixels[..]);
  }

  lemma {:induction false} FiltersKnownAppend(input: seq<Byte>, more: seq<Byte>, n: nat, k: nat)
    requires Size(k, n + 1) <= |input|
    ensures FiltersKnown(input + more, n, k) <==> FiltersKnown(input, n, k)
    decreases k
  {
    if k > 0 {
      FiltersKnownAppend(input, more, n, k - 1);
      assert Encoded(input + more, n, k - 1) == Encoded(input, n, k - 1);
    }
  }

  /** The filters of an encoded image are the chosen ones. */
  lemma {:induction false} EncodedFilters(rows: seq<seq<Byte>>, filters: seq<Byte>, n: nat, more: seq<Byte>)
    requires |filters| == |rows| && forall y :: 0 <= y < |rows| ==> |rows[y]| == n
    ensures |EncodeRows(rows, filters, n) + more| >= Size(|rows|, n + 1)
    ensures FiltersKnown(EncodeRows(rows, filters, n) + more, n, |rows|) <==>
            forall y :: 0 <= y < |rows| ==> filters[y] < FILTER_COUNT
    decreases |rows|
  {
    hide FilterRow, FiltersKnown;
    FiltersKnownAppend(EncodeRows(rows, filters, n), more, n, |rows|);
    if rows == [] {
      NoFilters(EncodeRows(rows, filters, n), n);
    } else {
      var k := |rows| - 1;
      var row := [filters[k]] + FilterRow(filters[k], BYTES_PER_PIXEL, Above(rows[..k], n), rows[k]);
      EncodedFilters(rows[..k], filters[..k], n, []);
      var input := EncodeRows(rows[..k], filters[..k], n);
      assert input + [] == input;
      KnownLast(input, row, n, k);
      assert forall y :: 0 <= y < k ==> filters[..k][y] == filters[y];
    }
  }

  lemma NoFilters(input: seq<Byte>, n: nat)
    ensures FiltersKnown(input, n, 0)
  {
  }

  lemma KnownLast(input: seq<Byte>, row: seq<Byte>, n: nat, k: nat)
    requires |input| == Size(k, n + 1) && |row| == n + 1
    ensures FiltersKnown(input + row, n, k + 1) <==> FiltersKnown(input, n, k) && row[0] < FILTER_COUNT
  {
    FiltersKnownAppend(input, row, n, k);
    assert Encoded(input + row, n, k) == row;
  }

  /**
   Decoding an encoded image: it succeeds exactly when every row uses one of the five filters,
   and then gives the pixels of the image, whatever follows it in the stream.
   */
  method DefilterEncoded(rows: seq<seq<Byte>>, filters: seq<Byte>, width: nat, more: seq<Byte>)
    returns (r: Option<seq<Byte>>)
    requires |filters| == |rows| && forall y :: 0 <= y < |rows| ==> |rows[y]| == 4 * width
    ensures r == if forall y :: 0 <= y < |rows| ==> filters[y] < 5 then Some(Flatten(rows)) else None
  {
    hide FiltersKnown, DecodeRows, EncodeRows, Flatten;
    var n := BYTES_PER_PIXEL * width;
    EncodedFilters(rows, filters, n, more);
    ImageRoundTrip(rows, filters, n, more);
    r := Defilter(EncodeRows(rows, filters, n) + more, width, |rows|);
  }
}
