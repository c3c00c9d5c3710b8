/**
 Whole DEFLATE streams of Huffman-coded blocks (Kernel/Library/ZLib.cpp, `DecompressStream` and
 `ParseBlock`; section 3.2.3 of RFC 1951).
 */
module Deflate {
  import opened Bits
  import opened BitStreams
  import opened Inflate
  import opened CodeLengths
  import opened DynamicHeader

  /** The tables that the format fixes. */
  datatype Format = Format(alphabet: Alphabet, order: seq<nat>, fixedLiterals: seq<nat>, fixedDistances: seq<nat>)

  predicate ValidFormat(f: Format) {
    ValidAlphabet(f.alphabet) && ValidOrder(f.order) && ValidCode(f.fixedLiterals) && ValidCode(f.fixedDistances)
  }

  datatype Coding = Fixed | Dynamic(header: Header)

  datatype Block = Block(coding: Coding, tokens: seq<Token>)

  predicate ValidCoding(f: Format, coding: Coding)
    requires ValidFormat(f)
  {
    coding.Dynamic? ==>
      ValidHeader(f.order, coding.header) && Buildable(ExpandItems([], coding.header.items), coding.header.literals)
  }

  /** The codes of a block. */
  function CodesOf(f: Format, coding: Coding): (c: Codes)
    requires ValidFormat(f) && ValidCoding(f, coding)
    ensures ValidCodes(c) && c.alphabet == f.alphabet
  {
    match coding
    case Fixed => Codes(f.alphabet, f.fixedLiterals, f.fixedDistances)
    case Dynamic(h) =>
      var all := ExpandItems([], h.items);
      Codes(f.alphabet, all[..h.literals], all[h.literals..])
  }

  function EncodeCoding(f: Format, coding: Coding): seq<bool>
    requires ValidFormat(f) && ValidCoding(f, coding)
  {
    match coding
    case Fixed => LowBits(1, 2)
    case Dynamic(h) => LowBits(2, 2) + EncodeHeader(f.order, h)
  }

  predicate Emittable(f: Format, b: Block)
    requires ValidFormat(f)
  {
    ValidCoding(f, b.coding) && EncodableBlock(CodesOf(f, b.coding), b.tokens)
  }

  function EncodeBody(f: Format, b: Block): seq<bool>
    requires ValidFormat(f) && Emittable(f, b)
  {
    EncodeCoding(f, b.coding) + EncodeBlock(CodesOf(f, b.coding), b.tokens)
  }

  /** Blocks in order; the bit in front of each says whether it is the last. */
  function EncodeStream(f: Format, blocks: seq<Block>): seq<bool>
    requires ValidFormat(f) && blocks != [] && forall i :: 0 <= i < |blocks| ==> Emittable(f, blocks[i])
    decreases |blocks|
  {
    if |blocks| == 1 then [true] + EncodeBody(f, blocks[0])
    else [false] + EncodeBody(f, blocks[0]) + EncodeStream(f, blocks[1..])
  }

  /**
   The three header bits of section 3.2.3: whether it is the last block, then 01 for fixed and 10 for
   dynamic codes.
   */
  lemma BlockHeaderBits(f: Format, blocks: seq<Block>)
    requires ValidFormat(f) && blocks != [] && forall i :: 0 <= i < |blocks| ==> Emittable(f, blocks[i])
    ensures var bits := EncodeStream(f, blocks);
            && |bits| >= 3 && (bits[0] <==> |blocks| == 1)
            && (blocks[0].coding.Fixed? ==> bits[1] && !bits[2])
            && (blocks[0].coding.Dynamic? ==> !bits[1] && bits[2])
  {
    hide EncodeBlock, EncodeHeader;
    KindBits();
    var body := EncodeBody(f, blocks[0]);
    var coding := EncodeCoding(f, blocks[0].coding);
    assert body[0] == coding[0] && body[1] == coding[1];
    assert EncodeStream(f, blocks)[1] == body[0] && EncodeStream(f, blocks)[2] == body[1];
  }

  lemma KindBits()
    ensures LowBits(0, 2) == [false, false] && LowBits(1, 2) == [true, false]
    ensures LowBits(2, 2) == [false, true] && LowBits(3, 2) == [true, true]
  {
    assert !Bit(0, 0) && !Bit(0, 1) && Bit(1, 0) && !Bit(1, 1) && !Bit(2, 0) && Bit(2, 1) && Bit(3, 0) && Bit(3, 1);
  }

  /** Every block expands inside the capacity, matches reaching back into earlier blocks included. */
  predicate StreamFits(f: Format, blocks: seq<Block>, output: seq<Byte>, capacity: nat)
    requires ValidFormat(f)
    decreases |blocks|
  {
    blocks == [] ||
    (&& ExpandableBlock(f.alphabet, output, blocks[0].tokens)
     && BlockFits(f.alphabet, output, blocks[0].tokens, capacity)
     && StreamFits(f, blocks[1..], ExpandBlock(f.alphabet, output, blocks[0].tokens), capacity))
  }

  function ExpandStream(f: Format, blocks: seq<Block>, output: seq<Byte>, capacity: nat): seq<Byte>
    requires ValidFormat(f) && StreamFits(f, blocks, output, capacity)
    decreases |blocks|
  {
    if blocks == [] then output
    else ExpandStream(f, blocks[1..], ExpandBlock(f.alphabet, output, blocks[0].tokens), capacity)
  }

  // ----- What the decoder does -----

  datatype Preparation = Ready(codes: Codes, next: nat) | Stored | BadBlock

  ghost function Prepare(f: Format, bits: seq<bool>, pos: nat): Preparation
    requires ValidFormat(f)
  {
    var kind := LsbFirst(Window(bits, pos, 2));
    if kind == 0 then Stored
    else if kind == 1 then Ready(Codes(f.alphabet, f.fixedLiterals, f.fixedDistances), pos + 2)
    else if kind == 2 then
      match ParseHeader(f.order, bits, pos + 2)
      case Parsed(literals, distances, next) => Ready(Codes(f.alphabet, literals, distances), next)
      case Rejected => BadBlock
    else BadBlock
  }

  datatype StreamOutcome = Complete(next: nat, output: seq<Byte>) | AtStored | Failed(cause: Outcome) | Malformed

  ghost function RunStream(f: Format, bits: seq<bool>, pos: nat, output: seq<Byte>, capacity: nat): StreamOutcome
    requires ValidFormat(f)
    decreases if pos < |bits| then |bits| - pos else 0
  {
    var last := Window(bits, pos, 1) == [true];
    match Prepare(f, bits, pos + 1)
    case Stored => AtStored
    case BadBlock => Malformed
    case Ready(c, p) =>
      BlockAdvances(f, bits, pos, c, p, output, capacity);
      var o := Run(c, bits, p, output, capacity);
      if !o.Done? then Failed(o)
      else if last then Complete(o.pos, o.output)
      else RunStream(f, bits, o.pos, o.output, capacity)
  }

  lemma BlockAdvances(f: Format, bits: seq<bool>, pos: nat, c: Codes, p: nat, output: seq<Byte>, capacity: nat)
    requires ValidFormat(f) && Prepare(f, bits, pos + 1) == Ready(c, p)
    ensures ValidAlphabet(c.alphabet)
    ensures var o := Run(c, bits, p, output, capacity); o.Done? ==> pos < |bits| && pos < o.pos
  {
    hide Prepare, Run, ValidFormat;
    PrepareAdvances(f, bits, pos + 1);
    RunAdvances(c, bits, p, output, capacity);
  }

  lemma {:induction false} RunAdvances(c: Codes, bits: seq<bool>, pos: nat, output: seq<Byte>, capacity: nat)
    requires ValidAlphabet(c.alphabet)
    ensures var o := Run(c, bits, pos, output, capacity); o.Done? ==> o.pos >= pos
    decreases capacity - |output|
  {
    hide SymbolAt, LsbFirst, Window, ExpandToken;
    var r := NextToken(c, bits, pos);
    NextTokenValid(c, bits, pos);
    if r.Emit? && Expandable(c.alphabet, output, r.token) && TokenFits(c.alphabet, output, r.token, capacity) {
      ExpandGrows(c.alphabet, output, r.token);
      RunStep(c, bits, pos, output, capacity, r.token, r.next);
      RunAdvances(c, bits, r.next, ExpandToken(c.alphabet, output, r.token), capacity);
    }
  }

  lemma {:induction false} ItemsAdvance(cl: seq<nat>, bits: seq<bool>, pos: nat, done: seq<nat>, total: nat)
    ensures var r := RunItems(cl, bits, pos, done, total); r.Lengths? ==> r.next >= pos
    decreases total - |done|
  {
    hide SymbolAt, LsbFirst, Window, Append, Appendable;
    var r := NextItem(cl, bits, pos);
    if |done| < total && r.Got? && Appendable(done, r.item) {
      ItemsAdvance(cl, bits, r.next, Append(done, r.item), total);
    }
  }

  /** Past the end of the input every block is a stored one, so the loop over the blocks ends. */
  lemma PrepareAdvances(f: Format, bits: seq<bool>, pos: nat)
    requires ValidFormat(f)
    ensures var r := Prepare(f, bits, pos);
            r.Ready? ==> pos < |bits| && r.next > pos && ValidCodes(r.codes) && r.codes.alphabet == f.alphabet
  {
    hide SymbolAt, RunItems, LengthsAt;
    var w := Window(bits, pos, 2);
    if pos >= |bits| {
      assert w == [false, false];
      assert LsbFirst(w[1..][1..]) == 0;
      assert LsbFirst(w[1..]) == 0;
    }
    var literals := LsbFirst(Window(bits, pos + 2, 5)) + 257;
    var distances := LsbFirst(Window(bits, pos + 7, 5)) + 1;
    var sent := Sent(LsbFirst(Window(bits, pos + 12, 4)) + 4);
    ItemsAdvance(LengthsAt(f.order, bits, pos + 16, sent), bits, pos + 16 + 3 * sent, [], literals + distances);
  }

  // ----- Encoding and decoding agree -----

  lemma KindIff(kind: nat, bits: seq<bool>, pos: nat)
    requires kind < 4
    ensures LsbFirst(Window(bits, pos, 2)) == kind <==> Has(bits, pos, LowBits(kind, 2))
  {
    Pow2Values();
    ExtraIff(kind, 2, bits, pos);
  }

  /** The other two kinds: 00 is a stored block, 11 is invalid. */
  lemma OtherKinds(f: Format, bits: seq<bool>, pos: nat)
    requires ValidFormat(f)
    ensures Window(bits, pos, 2) == [false, false] ==> Prepare(f, bits, pos) == Stored
    ensures Window(bits, pos, 2) == [true, true] ==> Prepare(f, bits, pos) == BadBlock
  {
    hide ParseHeader, ValidFormat, LowBits, LsbFirst;
    KindBits();
    KindIff(0, bits, pos);
    KindIff(3, bits, pos);
  }

  lemma PrepareComplete(f: Format, coding: Coding, bits: seq<bool>, pos: nat)
    requires ValidFormat(f) && ValidCoding(f, coding) && Has(bits, pos, EncodeCoding(f, coding))
    ensures Prepare(f, bits, pos) == Ready(CodesOf(f, coding), pos + |EncodeCoding(f, coding)|)
  {
    hide Has, LsbFirst, Window, LowBits, EncodeHeader, ValidHeader, ParseHeader, Buildable, ValidOrder;
    match coding
    case Fixed => KindIff(1, bits, pos);
    case Dynamic(h) =>
      HasAppend(bits, pos, LowBits(2, 2), EncodeHeader(f.order, h));
      KindIff(2, bits, pos);
      HeaderRoundTrip(f.order, h, bits, pos + 2);
  }

  lemma PrepareSound(f: Format, bits: seq<bool>, pos: nat) returns (coding: Coding)
    requires ValidFormat(f) && Prepare(f, bits, pos).Ready?
    ensures ValidCoding(f, coding) && Has(bits, pos, EncodeCoding(f, coding))
    ensures Prepare(f, bits, pos) == Ready(CodesOf(f, coding), pos + |EncodeCoding(f, coding)|)
  {
    hide Has, LsbFirst, Window, LowBits, EncodeHeader, ValidHeader, ParseHeader, Buildable, ValidOrder;
    coding := Fixed;
    if LsbFirst(Window(bits, pos, 2)) == 1 {
      KindIff(1, bits, pos);
    } else {
      KindIff(2, bits, pos);
      var h := HeaderSound(f.order, bits, pos + 2);
      HeaderRoundTrip(f.order, h, bits, pos + 2);
      coding := Dynamic(h);
      HasAppend(bits, pos, LowBits(2, 2), EncodeHeader(f.order, h));
    }
  }

  lemma OneBit(bits: seq<bool>, pos: nat)
    ensures Has(bits, pos, [true]) <==> Window(bits, pos, 1) == [true]
    ensures Has(bits, pos, [false]) <==> Window(bits, pos, 1) != [true]
  {
    var w := Window(bits, pos, 1);
    assert w == [true] || w == [false];
  }

  /** One block of a stream: its codes are found, and its tokens expanded. */
  lemma BodyComplete(f: Format, b: Block, bits: seq<bool>, pos: nat, output: seq<Byte>, capacity: nat)
    requires ValidFormat(f) && Emittable(f, b) && Has(bits, pos, EncodeBody(f, b))
    requires ExpandableBlock(f.alphabet, output, b.tokens) && BlockFits(f.alphabet, output, b.tokens, capacity)
    ensures var r := Prepare(f, bits, pos);
            r.Ready? && Run(CodesOf(f, b.coding), bits, r.next, output, capacity)
                     == Done(pos + |EncodeBody(f, b)|, ExpandBlock(f.alphabet, output, b.tokens))
                     && r.codes == CodesOf(f, b.coding)
  {
    hide Has, EncodeCoding, EncodeBlock, Prepare, ExpandBlock, BlockFits, ExpandableBlock, ValidCoding;
    HasAppend(bits, pos, EncodeCoding(f, b.coding), EncodeBlock(CodesOf(f, b.coding), b.tokens));
    PrepareComplete(f, b.coding, bits, pos);
    BlockRoundTrip(CodesOf(f, b.coding), b.tokens, bits, pos + |EncodeCoding(f, b.coding)|, output, capacity);
  }

  /** Decompression undoes compression, for every list of fixed and dynamic blocks. */
  lemma {:induction false} StreamRoundTrip(f: Format, blocks: seq<Block>, bits: seq<bool>, pos: nat,
                                           output: seq<Byte>, capacity: nat)
    requires ValidFormat(f) && blocks != [] && (forall i :: 0 <= i < |blocks| ==> Emittable(f, blocks[i]))
    requires Has(bits, pos, EncodeStream(f, blocks)) && StreamFits(f, blocks, output, capacity)
    ensures RunStream(f, bits, pos, output, capacity) ==
            Complete(pos + |EncodeStream(f, blocks)|, ExpandStream(f, blocks, output, capacity))
    decreases |blocks|
  {
    hide Has, EncodeBody, Emittable, Prepare, ExpandBlock, BlockFits, ExpandableBlock, ValidFormat, Run;
    var body := EncodeBody(f, blocks[0]);
    OneBit(bits, pos);
    if |blocks| == 1 {
      HasAppend(bits, pos, [true], body);
      BodyComplete(f, blocks[0], bits, pos + 1, output, capacity);
    } else {
      var rest := EncodeStream(f, blocks[1..]);
      HasAppend(bits, pos, [false] + body, rest);
      HasAppend(bits, pos, [false], body);
      BodyComplete(f, blocks[0], bits, pos + 1, output, capacity);
      StreamRoundTrip(f, blocks[1..], bits, pos + 1 + |body|, ExpandBlock(f.alphabet, output, blocks[0].tokens),
                      capacity);
    }
  }

  lemma BodySound(f: Format, bits: seq<bool>, pos: nat, output: seq<Byte>, capacity: nat) returns (b: Block)
    requires ValidFormat(f) && Prepare(f, bits, pos).Ready?
    requires ValidCodes(Prepare(f, bits, pos).codes)
    requires Run(Prepare(f, bits, pos).codes, bits, Prepare(f, bits, pos).next, output, capacity).Done?
    ensures Emittable(f, b) && Has(bits, pos, EncodeBody(f, b))
    ensures ExpandableBlock(f.alphabet, output, b.tokens) && BlockFits(f.alphabet, output, b.tokens, capacity)
    ensures Run(Prepare(f, bits, pos).codes, bits, Prepare(f, bits, pos).next, output, capacity)
         == Done(pos + |EncodeBody(f, b)|, ExpandBlock(f.alphabet, output, b.tokens))
  {
    hide Has, EncodeCoding, EncodeBlock, Prepare, ExpandBlock, BlockFits, ExpandableBlock, ValidCoding, Run;
    var coding := PrepareSound(f, bits, pos);
    var c := CodesOf(f, coding);
    var p := pos + |EncodeCoding(f, coding)|;
    var tokens := BlockSound(c, bits, p, output, capacity);
    b := Block(coding, tokens);
    HasAppend(bits, pos, EncodeCoding(f, coding), EncodeBlock(c, tokens));
  }

  /** Conversely, whatever is decompressed completely is the encoding of blocks that expand to the result. */
  lemma {:induction false} StreamSound(f: Format, bits: seq<bool>, pos: nat, output: seq<Byte>, capacity: nat)
    returns (blocks: seq<Block>)
    requires ValidFormat(f) && RunStream(f, bits, pos, output, capacity).Complete?
    ensures blocks != [] && (forall i :: 0 <= i < |blocks| ==> Emittable(f, blocks[i]))
    ensures Has(bits, pos, EncodeStream(f, blocks)) && StreamFits(f, blocks, output, capacity)
    ensures RunStream(f, bits, pos, output, capacity) ==
            Complete(pos + |EncodeStream(f, blocks)|, ExpandStream(f, blocks, output, capacity))
    decreases if pos < |bits| then |bits| - pos else 0
  {
    hide Has, EncodeBody, Emittable, Prepare, ExpandBlock, BlockFits, ExpandableBlock, Run;
    PrepareAdvances(f, bits, pos + 1);
    var r := Prepare(f, bits, pos + 1);
    var o := Run(r.codes, bits, r.next, output, capacity);
    var b := BodySound(f, bits, pos + 1, output, capacity);
    OneBit(bits, pos);
    if Window(bits, pos, 1) == [true] {
      blocks := [b];
      HasAppend(bits, pos, [true], EncodeBody(f, b));
      assert blocks[1..] == [];
    } else {
      var rest := StreamSound(f, bits, o.pos, o.output, capacity);
      blocks := [b] + rest;
      assert blocks[1..] == rest;
      HasAppend(bits, pos, [false] + EncodeBody(f, b), EncodeStream(f, rest));
      HasAppend(bits, pos, [false], EncodeBody(f, b));
    }
  }
}
