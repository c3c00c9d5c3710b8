/** The block decoder of Kernel/Library/ZLib.cpp, working in place on its output buffer. */
module Decompressors {
  import opened Bits
  import opened BitStreams
  import opened CanonicalCode
  import opened Huffman
  import opened Inflate
  import opened CodeLengths
  import opened DynamicHeader
  import opened Deflate

  datatype Status = Finished | BadHuffmanCode | BadMatchDistance | OutOfCapacity

  function StatusOf(o: Outcome): Status {
    match o
    case Done(_, _) => Finished
    case BadCode => BadHuffmanCode
    case BadDistance => BadMatchDistance
    case NeedsGrowth => OutOfCapacity
  }

  /** One more copied byte goes to the end. */
  lemma {:induction false} CopyBackSnoc(output: seq<Byte>, dist: nat, len: nat)
    requires 1 <= dist <= |output|
    ensures var r := CopyBack(output, dist, len);
            CopyBack(output, dist, len + 1) == r + [r[|r| - dist]]
    decreases len
  {
    if len > 0 {
      CopyBackSnoc(output + [output[|output| - dist]], dist, len - 1);
    }
  }

  class Decompressor {
    const format: Format
    const outputBuffer: array<Byte>
    var outputPointer: nat
    const literalLengthTree: HuffmanTree
    const distanceTree: HuffmanTree

    ghost predicate Valid()
      reads this
    {
      && ValidFormat(format)
      && literalLengthTree.Shape() && distanceTree.Shape()
      && literalLengthTree.Arrays() !! distanceTree.Arrays()
      && outputBuffer as object !in literalLengthTree.Arrays() + distanceTree.Arrays()
      && outputPointer <= outputBuffer.Length
    }

    ghost function Output(): seq<Byte>
      requires outputPointer <= outputBuffer.Length
      reads this, outputBuffer
    {
      outputBuffer[..outputPointer]
    }

    /** Both trees hold the tables of the block's codes. */
    ghost predicate Prepared(c: Codes)
      reads literalLengthTree.Arrays(), distanceTree.Arrays()
    {
      && c.alphabet == format.alphabet && ValidCodes(c)
      && Describes(literalLengthTree.Contents(), c.literals)
      && Describes(distanceTree.Contents(), c.distances)
    }

    constructor (format: Format, capacity: nat)
      requires ValidFormat(format)
      ensures Valid() && this.format == format
      ensures fresh(outputBuffer) && outputBuffer.Length == capacity && outputPointer == 0
      ensures fresh(literalLengthTree.Arrays()) && fresh(distanceTree.Arrays())
    {
      this.format := format;
      var literal := new HuffmanTree();
      var distance := new HuffmanTree();
      literalLengthTree := literal;
      distanceTree := distance;
      outputBuffer := new Byte[capacity];
      outputPointer := 0;
    }

    /** The copy loop of a match; the source pointer stands still for distance 1. */
    method CopyMatch(current: nat, distance: nat, length: nat)
      requires 1 <= distance <= current && current + length <= outputBuffer.Length
      modifies outputBuffer
      ensures outputBuffer[..current + length] == CopyBack(old(outputBuffer[..current]), distance, length)
    {
      ghost var before := outputBuffer[..current];
      var src := current - distance;
      var i := 0;
      while i < length
        invariant i <= length
        invariant src == if distance == 1 then current - 1 else current - distance + i
        invariant outputBuffer[..current + i] == CopyBack(before, distance, i)
        invariant distance == 1 ==> outputBuffer[src] == outputBuffer[current + i - 1]
      {
        CopyBackSnoc(before, distance, i);
        outputBuffer[current + i] := outputBuffer[src];
        assert outputBuffer[..current + i + 1] == outputBuffer[..current + i] + [outputBuffer[current + i]];
        if distance != 1 {
          src := src + 1;
        }
        i := i + 1;
      }
    }

    /** Reads the symbol at the front of the stream. */
    static method DecodeSymbol(tree: HuffmanTree, stream: BitStream, ghost lens: seq<nat>) returns (symbol: int)
      requires tree.Shape() && ValidCode(lens) && Describes(tree.Contents(), lens)
      modifies stream`pos
      ensures symbol == SymbolAt(lens, stream.bits, old(stream.pos))
      ensures stream.pos == old(stream.pos) + if symbol < 0 then 0 else lens[symbol]
    {
      symbol := tree.Decode(stream, lens);
      ghost var s := SymbolAt(lens, stream.bits, old(stream.pos));
      if symbol >= 0 {
        MatchUnique(lens, symbol, s, Window(stream.bits, old(stream.pos), 16));
      }
    }

    /** Reads the extra length bits and the distance of a match. */
    method ReadMatch(stream: BitStream, ls: nat, ghost c: Codes) returns (step: Step)
      requires Valid() && Prepared(c) && ls < 29
      modifies stream`pos
      ensures step == NextMatch(c, stream.bits, old(stream.pos), ls)
      ensures step.Emit? ==> stream.pos == step.next
    {
      hide Describes, LsbFirst, Window, ValidOrder, KraftSum;
      var le := stream.ReadBits(format.alphabet.lengthExtra[ls]);
      var ds := DecodeSymbol(distanceTree, stream, c.distances);
      if ds < 0 || ds >= 30 {
        return Bad;
      }
      var de := stream.ReadBits(format.alphabet.distanceExtra[ds]);
      step := Emit(Match(ls, le, ds, de), stream.pos);
    }

    /** Reads the next token, or the end of the block. */
    method ReadToken(stream: BitStream, ghost c: Codes) returns (step: Step)
      requires Valid() && Prepared(c)
      modifies stream`pos
      ensures step == NextToken(c, stream.bits, old(stream.pos))
      ensures !step.Bad? ==> stream.pos == step.next
    {
      hide Describes, LsbFirst, Window, ValidOrder, KraftSum;
      var symbol := DecodeSymbol(literalLengthTree, stream, c.literals);
      if symbol < 0 {
        return Bad;
      } else if symbol < 256 {
        return Emit(Literal(symbol), stream.pos);
      }
      if symbol == END_OF_BLOCK {
        return End(stream.pos);
      }
      if symbol >= 286 {
        return Bad;
      }
      assert literalLengthTree.Contents() == old(literalLengthTree.Contents());
      assert distanceTree.Contents() == old(distanceTree.Contents());
      step := ReadMatch(stream, symbol - 257, c);
    }

    /** Writes the expansion of one token at `current`, unless it refers too far back or does not fit. */
    method WriteToken(t: Token, current: nat) returns (status: Status, next: nat)
      requires Valid() && ValidToken(format.alphabet, t) && current <= outputBuffer.Length
      modifies outputBuffer
      ensures var before := old(outputBuffer[..current]);
              if !Expandable(format.alphabet, before, t) then status == BadMatchDistance
              else if !TokenFits(format.alphabet, before, t, outputBuffer.Length) then status == OutOfCapacity
              else
                && status == Finished && current < next <= outputBuffer.Length
                && outputBuffer[..next] == ExpandToken(format.alphabet, before, t)
      ensures t.Literal? ==> (status == OutOfCapacity <==> current == outputBuffer.Length)
      ensures t.Match? ==>
                && (status == BadMatchDistance <==> current < MatchDistance(format.alphabet, t))
                && (status == OutOfCapacity <==>
                    MatchDistance(format.alphabet, t) <= current &&
                    current + MatchLength(format.alphabet, t) >= outputBuffer.Length)
    {
      next := current;
      match t
      case Literal(b) =>
        if current >= outputBuffer.Length {
          return OutOfCapacity, current;
        }
        outputBuffer[current] := b;
        next := current + 1;
        status := Finished;
      case Match(ls, le, ds, de) =>
        var length := format.alphabet.lengthBase[ls] + le;
        var distance := format.alphabet.distanceBase[ds] + de;
        if current < distance {
          return BadMatchDistance, current;
        }
        if current + length >= outputBuffer.Length {
          return OutOfCapacity, current;
        }
        CopyMatch(current, distance, length);
        next := current + length;
        status := Finished;
    }

    /**
     Expands one block. The new output, the stream position and the result are those of
     `Run`, which the block round trip is stated about.
     */
    method DecodeBlock(stream: BitStream, ghost c: Codes) returns (status: Status)
      requires Valid() && Prepared(c)
      modifies stream`pos, outputBuffer, this`outputPointer
      ensures Valid() && Prepared(c)
      ensures var o := Run(c, stream.bits, old(stream.pos), old(Output()), outputBuffer.Length);
              && status == StatusOf(o)
              && (if o.Done? then Output() == o.output && stream.pos == o.pos else outputPointer == old(outputPointer))
    {
      ghost var goal := Run(c, stream.bits, stream.pos, Output(), outputBuffer.Length);
      var current := outputPointer;
      while true
        invariant Valid() && Prepared(c)
        invariant outputPointer == old(outputPointer) && current <= outputBuffer.Length
        invariant goal == Run(c, stream.bits, stream.pos, outputBuffer[..current], outputBuffer.Length)
        decreases outputBuffer.Length - current
      {
        NextTokenValid(c, stream.bits, stream.pos);
        var step := ReadToken(stream, c);
        match step {
          case Bad => return BadHuffmanCode;
          case End(_) =>
            outputPointer := current;
            return Finished;
          case Emit(t, _) =>
            status, current := WriteToken(t, current);
            if status != Finished {
              return;
            }
        }
      }
    }

    // ----- Dynamic blocks -----

    /** The lengths of the code-length code, sent in their own order. */
    static method ReadLengths(order: seq<nat>, stream: BitStream, sent: nat) returns (cl: seq<nat>)
      requires ValidOrder(order) && sent <= CODE_LENGTH_SYMBOLS
      modifies stream`pos
      ensures cl == LengthsAt(order, stream.bits, old(stream.pos), sent)
      ensures stream.pos == old(stream.pos) + 3 * sent
    {
      hide NoneTwice, AllOccur, LsbFirst, Window;
      var lengths := new nat[CODE_LENGTH_SYMBOLS](i => 0);
      assert lengths[..] == LengthsAt(order, stream.bits, stream.pos, 0);
      var i := 0;
      while i < sent
        invariant 0 <= i <= sent && stream.pos == old(stream.pos) + 3 * i
        invariant lengths[..] == LengthsAt(order, stream.bits, old(stream.pos), i)
      {
        var v := stream.ReadBits(3);
        lengths[order[i]] := v;
        i := i + 1;
      }
      cl := lengths[..];
    }

    static method Fill(lengths: array<nat>, at: nat, value: nat, count: nat)
      requires at + count <= lengths.Length
      modifies lengths
      ensures lengths[..at + count] == old(lengths[..at]) + seq(count, i => value)
    {
      var i := 0;
      while i < count
        invariant 0 <= i <= count
        invariant lengths[..at + i] == old(lengths[..at]) + seq(i, j => value)
      {
        lengths[at + i] := value;
        assert lengths[..at + (i + 1)] == lengths[..at + i] + [value];
        i := i + 1;
      }
    }

    /** Reads one item with the code-length code. */
    static method ReadItem(tree: HuffmanTree, stream: BitStream, ghost cl: seq<nat>) returns (r: Read)
      requires tree.Shape() && CodeLengthCode(cl) && Describes(tree.Contents(), cl)
      modifies stream`pos
      ensures r == NextItem(cl, stream.bits, old(stream.pos))
      ensures r.Got? ==> stream.pos == r.next
    {
      hide Describes;
      var symbol := DecodeSymbol(tree, stream, cl);
      if symbol < 0 {
        return Nothing;
      }
      var extra := stream.ReadBits(ExtraBits(symbol));
      r := Got(Item(symbol, extra), stream.pos);
    }

    /** Reads `total` code lengths into the buffer of 320 entries. */
    static method ReadItems(tree: HuffmanTree, stream: BitStream, total: nat, ghost cl: seq<nat>)
      returns (ok: bool, all: seq<nat>)
      requires tree.Shape() && CodeLengthCode(cl) && Describes(tree.Contents(), cl) && total <= MAX_LENGTHS
      modifies stream`pos
      ensures var r := RunItems(cl, stream.bits, old(stream.pos), [], total);
              ok == r.Lengths? && (ok ==> all == r.all && stream.pos == r.next)
    {
      hide Describes, Append, NextItem, CodeLengthCode;
      ghost var goal := RunItems(cl, stream.bits, stream.pos, [], total);
      var lengths := new nat[MAX_LENGTHS](i => 0);
      var i := 0;
      assert lengths[..0] == [];
      ghost var before := tree.Contents();
      while i < total
        invariant 0 <= i <= MAX_LENGTHS && fresh(lengths) && tree.Contents() == before
        invariant goal == RunItems(cl, stream.bits, stream.pos, lengths[..i], total)
        decreases total - i
      {
        var r := ReadItem(tree, stream, cl);
        if r.Nothing? || (r.item.symbol == 16 && i == 0) {
          return false, [];
        }
        var value := if r.item.symbol < 16 then r.item.symbol else if r.item.symbol == 16 then lengths[i - 1] else 0;
        ghost var done := lengths[..i];
        assert value == Value(done, r.item);
        AppendIs(done, r.item, value);
        if i + Repeat(r.item) > MAX_LENGTHS {
          return false, [];
        }
        Fill(lengths, i, value, Repeat(r.item));
        i := i + Repeat(r.item);
      }
      ok, all := i == total, lengths[..i];
    }

    /** Builds both trees from the lengths of a header. */
    method BuildTrees(literals: seq<nat>, distances: seq<nat>) returns (ok: bool)
      requires Valid() && ValidLengths(literals) && ValidLengths(distances)
      modifies literalLengthTree.Arrays(), distanceTree.Arrays()
      ensures ok <==> Kraft(literals) && Kraft(distances)
      ensures ok ==> Prepared(Codes(format.alphabet, literals, distances))
    {
      hide Describes, ValidOrder, ValidAlphabet, KraftSum;
      ok := literalLengthTree.Build(literals);
      if ok {
        ghost var built := literalLengthTree.Contents();
        ok := distanceTree.Build(distances);
        assert literalLengthTree.Contents() == built;
      }
    }

    /** Reads the code-length code and the lengths it encodes. */
    static method ReadAllLengths(order: seq<nat>, stream: BitStream, sent: nat, total: nat)
      returns (ok: bool, all: seq<nat>)
      requires ValidOrder(order) && sent <= CODE_LENGTH_SYMBOLS && total <= MAX_LENGTHS
      modifies stream`pos
      ensures var cl := LengthsAt(order, stream.bits, old(stream.pos), sent);
              var r := RunItems(cl, stream.bits, old(stream.pos) + 3 * sent, [], total);
              && ok == (ValidLengths(cl) && Kraft(cl) && r.Lengths?)
              && (ok ==> all == r.all && stream.pos == r.next)
              && forall i :: 0 <= i < |all| ==> all[i] <= MAX_BITS
    {
      hide Describes, LengthsAt, RunItems, ValidOrder, KraftSum, LsbFirst, Window;
      all := [];
      LengthsValid(order, stream.bits, stream.pos, sent);
      var cl := ReadLengths(order, stream, sent);
      var tree := new HuffmanTree();
      ok := tree.Build(cl);
      if ok {
        RunItemsBounded(cl, stream.bits, stream.pos, [], total);
        var lengths;
        ok, lengths := ReadItems(tree, stream, total, cl);
        if ok {
          all := lengths;
        }
      }
    }

    /** Reads the header of a dynamic block and builds both trees from it. */
    method DecodeCanonicalCodes(stream: BitStream) returns (ok: bool, ghost c: Codes)
      requires Valid()
      modifies stream`pos, literalLengthTree.Arrays(), distanceTree.Arrays()
      ensures var r := ParseHeader(format.order, stream.bits, old(stream.pos));
              && ok == r.Parsed?
              && (ok ==> c == Codes(format.alphabet, r.literals, r.distances) && Prepared(c) && stream.pos == r.next)
    {
      hide Describes, LengthsAt, RunItems, ValidOrder, ValidAlphabet, KraftSum, LsbFirst, Window;
      Pow2Values();
      c := Codes(format.alphabet, [], []);
      var literals := stream.ReadBits(5);
      var distances := stream.ReadBits(5);
      var sent := stream.ReadBits(4);
      literals, distances, sent := literals + 257, distances + 1, sent + 4;
      var all;
      ok, all := ReadAllLengths(format.order, stream, sent, literals + distances);
      if ok {
        RunItemsBounded(LengthsAt(format.order, stream.bits, old(stream.pos) + 14, sent), stream.bits,
                        old(stream.pos) + 14 + 3 * sent, [], literals + distances);
        ok := BuildTrees(all[..literals], all[literals..]);
        c := Codes(format.alphabet, all[..literals], all[literals..]);
      }
    }

    // ----- The stream -----

    /** Prepares the trees for a block whose kind was just read. A stored block is left to the caller. */
    method ParseBlock(stream: BitStream, kind: nat, ghost start: nat) returns (found: Found, ghost c: Codes)
      requires Valid() && stream.pos == start + 2 && kind == LsbFirst(Window(stream.bits, start, 2))
      modifies stream`pos, literalLengthTree.Arrays(), distanceTree.Arrays()
      ensures match Prepare(format, stream.bits, start)
              case Ready(codes, next) => found == HuffmanBlock && c == codes && Prepared(c) && stream.pos == next
              case Stored => found == StoredBlock
              case BadBlock => found == InvalidBlock
    {
      hide Describes, LsbFirst, Window, ValidAlphabet, ValidOrder, KraftSum, ParseHeader;
      c := Codes(format.alphabet, format.fixedLiterals, format.fixedDistances);
      if kind == 0 {
        return StoredBlock, c;
      }
      var ok := false;
      if kind == 1 {
        ok := BuildTrees(format.fixedLiterals, format.fixedDistances);
      } else if kind == 2 {
        ok, c := DecodeCanonicalCodes(stream);
      }
      found := if ok then HuffmanBlock else InvalidBlock;
    }

    /** One round of the block loop: the two header fields, the codes, and the tokens. */
    method DecompressBlock(stream: BitStream) returns (found: Found, status: Status, last: bool)
      requires Valid()
      modifies stream`pos, outputBuffer, this`outputPointer, literalLengthTree.Arrays(), distanceTree.Arrays()
      ensures Valid() && last == (Window(stream.bits, old(stream.pos), 1) == [true])
      ensures match Prepare(format, stream.bits, old(stream.pos) + 1)
              case Stored => found == StoredBlock
              case BadBlock => found == InvalidBlock
              case Ready(c, next) =>
                && found == HuffmanBlock && ValidAlphabet(c.alphabet)
                && var o := Run(c, stream.bits, next, old(Output()), outputBuffer.Length);
                   status == StatusOf(o) && (o.Done? ==> Output() == o.output && stream.pos == o.pos)
    {
      hide Describes, LsbFirst, Window, Prepare, Run, ValidOrder, KraftSum;
      ghost var pos, output := stream.pos, Output();
      FirstBit(stream.bits, pos);
      var final := stream.ReadBits(1);
      last := final != 0;
      var kind := stream.ReadBits(2);
      ghost var c;
      found, c := ParseBlock(stream, kind, pos + 1);
      status := Finished;
      if found == HuffmanBlock {
        assert Output() == output;
        status := DecodeBlock(stream, c);
      }
    }

    /** Decompresses blocks up to the final one, or to the first that is stored or broken. */
    method DecompressStream(stream: BitStream) returns (end: Ending)
      requires Valid()
      modifies stream`pos, outputBuffer, this`outputPointer, literalLengthTree.Arrays(), distanceTree.Arrays()
      ensures Valid()
      ensures match RunStream(format, stream.bits, old(stream.pos), old(Output()), outputBuffer.Length)
              case Complete(next, output) => end == Ended && Output() == output && stream.pos == next
              case AtStored => end == MetStored
              case Failed(cause) => end == BlockFailed(StatusOf(cause))
              case Malformed => end == BadHeader
    {
      hide Window, Prepare, Run, ValidFormat, ValidCode;
      ghost var goal := RunStream(format, stream.bits, stream.pos, Output(), outputBuffer.Length);
      while true
        invariant Valid()
        invariant goal == RunStream(format, stream.bits, stream.pos, Output(), outputBuffer.Length)
        decreases if stream.pos < |stream.bits| then |stream.bits| - stream.pos else 0
      {
        ghost var r := Prepare(format, stream.bits, stream.pos + 1);
        PrepareAdvances(format, stream.bits, stream.pos + 1);
        if r.Ready? {
          RunAdvances(r.codes, stream.bits, r.next, Output(), outputBuffer.Length);
        }
        var found, status, last := DecompressBlock(stream);
        if found == StoredBlock {
          return MetStored;
        }
        if found == InvalidBlock {
          return BadHeader;
        }
        if status != Finished {
          return BlockFailed(status);
        }
        if last {
          return Ended;
        }
      }
    }
  }

  datatype Found = HuffmanBlock | StoredBlock | InvalidBlock

  datatype Ending = Ended | MetStored | BadHeader | BlockFailed(status: Status)

  lemma FirstBit(bits: seq<bool>, pos: nat)
    ensures LsbFirst(Window(bits, pos, 1)) != 0 <==> Window(bits, pos, 1) == [true]
  {
    var w := Window(bits, pos, 1);
    assert w == [true] || w == [false];
    assert LsbFirst(w[1..]) == 0;
  }

  lemma AppendIs(done: seq<nat>, item: Item, value: nat)
    requires Appendable(done, item) && value == Value(done, item)
    ensures Append(done, item) == done + seq(Repeat(item), i => value)
  {
  }

  /** Three-bit lengths are valid code lengths. */
  lemma {:induction false} LengthsValid(order: seq<nat>, bits: seq<bool>, pos: nat, n: nat)
    requires ValidOrder(order) && n <= CODE_LENGTH_SYMBOLS
    ensures ValidLengths(LengthsAt(order, bits, pos, n))
    decreases n
  {
    if n > 0 {
      LengthsValid(order, bits, pos, n - 1);
      LsbFirstBit(Window(bits, pos + 3 * (n - 1), 3), 0);
      Pow2Values();
    }
  }
}
