/**
 Expansion of one Huffman-coded block (Kernel/Library/ZLib.cpp, `DecodeBlock`), against the
 LZ77 reading of a token list that sections 3.2.3 to 3.2.6 of RFC 1951 give.
 */
module Inflate {
  import opened Bits
  import opened BitStreams
  import opened CanonicalCode

  const END_OF_BLOCK: nat := 256

  /** The base values and extra-bit counts of the length and the distance symbols. */
  datatype Alphabet = Alphabet(lengthBase: seq<nat>, lengthExtra: seq<nat>,
                               distanceBase: seq<nat>, distanceExtra: seq<nat>)

  predicate ValidAlphabet(a: Alphabet) {
    && |a.lengthBase| == |a.lengthExtra| == 29
    && |a.distanceBase| == |a.distanceExtra| == 30
    && (forall i :: 0 <= i < 29 ==> a.lengthBase[i] >= 3)
    && (forall i :: 0 <= i < 30 ==> a.distanceBase[i] >= 1)
  }

  // ----- Tokens and their encoding -----

  /** A literal byte, or a match given by its two symbols and their extra bits. */
  datatype Token =
    | Literal(byte: nat)
    | Match(lengthSymbol: nat, lengthExtra: nat, distanceSymbol: nat, distanceExtra: nat)

  predicate ValidToken(a: Alphabet, t: Token)
    requires ValidAlphabet(a)
  {
    match t
    case Literal(b) => b < 256
    case Match(ls, le, ds, de) =>
      && ls < 29 && le < Pow2(a.lengthExtra[ls])
      && ds < 30 && de < Pow2(a.distanceExtra[ds])
  }

  function MatchLength(a: Alphabet, t: Token): (r: nat)
    requires ValidAlphabet(a) && t.Match? && ValidToken(a, t)
    ensures r >= 3
  {
    a.lengthBase[t.lengthSymbol] + t.lengthExtra
  }

  function MatchDistance(a: Alphabet, t: Token): (r: nat)
    requires ValidAlphabet(a) && t.Match? && ValidToken(a, t)
    ensures r >= 1
  {
    a.distanceBase[t.distanceSymbol] + t.distanceExtra
  }

  /** The codes of a block: one for literals and lengths, one for distances. */
  datatype Codes = Codes(alphabet: Alphabet, literals: seq<nat>, distances: seq<nat>)

  predicate ValidCode(lens: seq<nat>) {
    ValidLengths(lens) && Kraft(lens)
  }

  predicate ValidCodes(c: Codes) {
    ValidAlphabet(c.alphabet) && ValidCode(c.literals) && ValidCode(c.distances)
  }

  predicate HasCode(lens: seq<nat>, s: nat) {
    s < |lens| && lens[s] > 0
  }

  predicate Encodable(c: Codes, t: Token)
    requires ValidAlphabet(c.alphabet)
  {
    && ValidToken(c.alphabet, t)
    && match t
       case Literal(b) => HasCode(c.literals, b)
       case Match(ls, _, ds, _) => HasCode(c.literals, 257 + ls) && HasCode(c.distances, ds)
  }

  function EncodeToken(c: Codes, t: Token): seq<bool>
    requires ValidAlphabet(c.alphabet) && Encodable(c, t)
  {
    match t
    case Literal(b) => CodeBits(c.literals, b)
    case Match(ls, le, ds, de) =>
      CodeBits(c.literals, 257 + ls) + LowBits(le, c.alphabet.lengthExtra[ls])
      + (CodeBits(c.distances, ds) + LowBits(de, c.alphabet.distanceExtra[ds]))
  }

  predicate EncodableBlock(c: Codes, ts: seq<Token>)
    requires ValidAlphabet(c.alphabet)
  {
    HasCode(c.literals, END_OF_BLOCK) && forall t :: t in ts ==> Encodable(c, t)
  }

  function EncodeBlock(c: Codes, ts: seq<Token>): seq<bool>
    requires ValidAlphabet(c.alphabet) && EncodableBlock(c, ts)
  {
    if ts == [] then CodeBits(c.literals, END_OF_BLOCK)
    else EncodeToken(c, ts[0]) + EncodeBlock(c, ts[1..])
  }

  // ----- LZ77 expansion -----

  type Byte = x: nat | x < 256

  /** Appends `len` bytes, each the one `dist` positions before the end: the copy may overlap itself. */
  function CopyBack(output: seq<Byte>, dist: nat, len: nat): (r: seq<Byte>)
    requires 1 <= dist <= |output|
    ensures |r| == |output| + len && output <= r
    decreases len
  {
    if len == 0 then output
    else CopyBack(output + [output[|output| - dist]], dist, len - 1)
  }

  /** The old bytes stay, and every new one equals the byte `dist` before it. */
  lemma {:induction false} CopyBackPeriodic(output: seq<Byte>, dist: nat, len: nat, i: nat)
    requires 1 <= dist <= |output| && i < |output| + len
    ensures var r := CopyBack(output, dist, len);
            r[i] == if i < |output| then output[i] else r[i - dist]
    decreases len
  {
    if len > 0 {
      var longer := output + [output[|output| - dist]];
      CopyBackPeriodic(longer, dist, len - 1, i);
      if i == |output| {
        CopyBackPeriodic(longer, dist, len - 1, i - dist);
      }
    }
  }

  predicate Expandable(a: Alphabet, output: seq<Byte>, t: Token)
    requires ValidAlphabet(a)
  {
    ValidToken(a, t) && (t.Match? ==> MatchDistance(a, t) <= |output|)
  }

  function ExpandToken(a: Alphabet, output: seq<Byte>, t: Token): (r: seq<Byte>)
    requires ValidAlphabet(a) && Expandable(a, output, t)
  {
    match t
    case Literal(b) => output + [b]
    case Match(_, _, _, _) => CopyBack(output, MatchDistance(a, t), MatchLength(a, t))
  }

  /** Every match of the list refers to bytes that have been written. */
  predicate ExpandableBlock(a: Alphabet, output: seq<Byte>, ts: seq<Token>)
    requires ValidAlphabet(a)
    decreases ts
  {
    ts == [] || (Expandable(a, output, ts[0]) && ExpandableBlock(a, ExpandToken(a, output, ts[0]), ts[1..]))
  }

  function ExpandBlock(a: Alphabet, output: seq<Byte>, ts: seq<Token>): seq<Byte>
    requires ValidAlphabet(a) && ExpandableBlock(a, output, ts)
    decreases ts
  {
    if ts == [] then output else ExpandBlock(a, ExpandToken(a, output, ts[0]), ts[1..])
  }

  /** The reserved capacity takes the token: a literal may fill it, a match must stay strictly inside. */
  predicate TokenFits(a: Alphabet, output: seq<Byte>, t: Token, capacity: nat)
    requires ValidAlphabet(a) && Expandable(a, output, t)
  {
    match t
    case Literal(_) => |output| < capacity
    case Match(_, _, _, _) => |output| + MatchLength(a, t) < capacity
  }

  predicate BlockFits(a: Alphabet, output: seq<Byte>, ts: seq<Token>, capacity: nat)
    requires ValidAlphabet(a) && ExpandableBlock(a, output, ts)
    decreases ts
  {
    ts == []
    || (TokenFits(a, output, ts[0], capacity)
        && BlockFits(a, ExpandToken(a, output, ts[0]), ts[1..], capacity))
  }

  // ----- What the decoder does, as a function of the remaining bits -----

  /** The symbol whose code starts the stream at `pos`, or -1. */
  ghost function SymbolAt(lens: seq<nat>, bits: seq<bool>, pos: nat): (r: int)
    ensures r >= 0 ==> Matches(lens, r, Window(bits, pos, 16))
    ensures r < 0 ==> r == -1 && forall s: nat :: !Matches(lens, s, Window(bits, pos, 16))
  {
    if s: nat :| Matches(lens, s, Window(bits, pos, 16)) then s else -1
  }

  datatype Step = Emit(token: Token, next: nat) | End(next: nat) | Bad

  ghost function NextToken(c: Codes, bits: seq<bool>, pos: nat): Step
    requires ValidAlphabet(c.alphabet)
  {
    var s := SymbolAt(c.literals, bits, pos);
    if s < 0 then Bad
    else
      var p := pos + c.literals[s];
      if s < 256 then Emit(Literal(s), p)
      else if s == END_OF_BLOCK then End(p)
      else if s >= 286 then Bad
      else NextMatch(c, bits, p, s - 257)
  }

  /** Reads the rest of a match after its length symbol. */
  ghost function NextMatch(c: Codes, bits: seq<bool>, pos: nat, ls: nat): Step
    requires ValidAlphabet(c.alphabet) && ls < 29
  {
    var le := LsbFirst(Window(bits, pos, c.alphabet.lengthExtra[ls]));
    var p := pos + c.alphabet.lengthExtra[ls];
    var ds := SymbolAt(c.distances, bits, p);
    if ds < 0 || ds >= 30 then Bad
    else
      var q := p + c.distances[ds];
      Emit(Match(ls, le, ds, LsbFirst(Window(bits, q, c.alphabet.distanceExtra[ds]))), q + c.alphabet.distanceExtra[ds])
  }

  datatype Outcome = Done(pos: nat, output: seq<Byte>) | BadCode | BadDistance | NeedsGrowth

  lemma NextTokenValid(c: Codes, bits: seq<bool>, pos: nat)
    requires ValidAlphabet(c.alphabet)
    ensures NextToken(c, bits, pos).Emit? ==> ValidToken(c.alphabet, NextToken(c, bits, pos).token)
  {
    var s := SymbolAt(c.literals, bits, pos);
    if 257 <= s < 286 {
      NextMatchValid(c, bits, pos + c.literals[s], s - 257);
    }
  }

  lemma NextMatchValid(c: Codes, bits: seq<bool>, pos: nat, ls: nat)
    requires ValidAlphabet(c.alphabet) && ls < 29
    ensures var r := NextMatch(c, bits, pos, ls); r.Emit? ==> ValidToken(c.alphabet, r.token)
  {
    LsbFirstBit(Window(bits, pos, c.alphabet.lengthExtra[ls]), 0);
    var p := pos + c.alphabet.lengthExtra[ls];
    var ds := SymbolAt(c.distances, bits, p);
    if 0 <= ds < 30 {
      LsbFirstBit(Window(bits, p + c.distances[ds], c.alphabet.distanceExtra[ds]), 0);
    }
  }

  ghost function Run(c: Codes, bits: seq<bool>, pos: nat, output: seq<Byte>, capacity: nat): Outcome
    requires ValidAlphabet(c.alphabet)
    decreases capacity - |output|
  {
    NextTokenValid(c, bits, pos);
    match NextToken(c, bits, pos)
    case Bad => BadCode
    case End(p) => Done(p, output)
    case Emit(t, p) =>
      if !Expandable(c.alphabet, output, t) then BadDistance
      else if !TokenFits(c.alphabet, output, t, capacity) then NeedsGrowth
      else
        ExpandGrows(c.alphabet, output, t);
        Run(c, bits, p, ExpandToken(c.alphabet, output, t), capacity)
  }

  lemma ExpandGrows(a: Alphabet, output: seq<Byte>, t: Token)
    requires ValidAlphabet(a) && Expandable(a, output, t)
    ensures |ExpandToken(a, output, t)| == |output| + if t.Match? then MatchLength(a, t) else 1
  {
  }

  // ----- One token: encoding and decoding agree -----

  lemma SymbolAtIff(lens: seq<nat>, s: nat, bits: seq<bool>, pos: nat)
    requires ValidCode(lens)
    ensures SymbolAt(lens, bits, pos) == s <==> HasCode(lens, s) && Has(bits, pos, CodeBits(lens, s))
  {
    if HasCode(lens, s) {
      HasPrefix(bits, pos, CodeBits(lens, s), 16);
      if Has(bits, pos, CodeBits(lens, s)) {
        assert Matches(lens, s, Window(bits, pos, 16));
        MatchUnique(lens, s, SymbolAt(lens, bits, pos), Window(bits, pos, 16));
      }
    }
  }

  lemma ExtraIff(v: nat, n: nat, bits: seq<bool>, pos: nat)
    ensures v < Pow2(n) && Has(bits, pos, LowBits(v, n)) <==> LsbFirst(Window(bits, pos, n)) == v
  {
    var w := Window(bits, pos, n);
    LsbFirstBit(w, 0);
    if v < Pow2(n) {
      LowBitsValue(v, n);
      if LsbFirst(w) == v {
        LsbFirstInjective(w, LowBits(v, n));
      }
    }
  }

  lemma MatchBits(c: Codes, t: Token, bits: seq<bool>, pos: nat)
    requires ValidAlphabet(c.alphabet) && Encodable(c, t) && t.Match?
    ensures var p := pos + c.literals[257 + t.lengthSymbol];
            var q := p + c.alphabet.lengthExtra[t.lengthSymbol];
            var r := q + c.distances[t.distanceSymbol];
            && |EncodeToken(c, t)| == r + c.alphabet.distanceExtra[t.distanceSymbol] - pos
            && (Has(bits, pos, EncodeToken(c, t)) <==>
                && Has(bits, pos, CodeBits(c.literals, 257 + t.lengthSymbol))
                && Has(bits, p, LowBits(t.lengthExtra, c.alphabet.lengthExtra[t.lengthSymbol]))
                && Has(bits, q, CodeBits(c.distances, t.distanceSymbol))
                && Has(bits, r, LowBits(t.distanceExtra, c.alphabet.distanceExtra[t.distanceSymbol])))
  {
    var a := CodeBits(c.literals, 257 + t.lengthSymbol);
    var b := LowBits(t.lengthExtra, c.alphabet.lengthExtra[t.lengthSymbol]);
    var d := CodeBits(c.distances, t.distanceSymbol);
    var e := LowBits(t.distanceExtra, c.alphabet.distanceExtra[t.distanceSymbol]);
    HasAppend(bits, pos, a + b, d + e);
    HasAppend(bits, pos, a, b);
    HasAppend(bits, pos + |a + b|, d, e);
  }

  lemma NextLiteralIff(c: Codes, t: Token, bits: seq<bool>, pos: nat)
    requires ValidCodes(c) && t.Literal?
    ensures var r := NextToken(c, bits, pos);
            if Encodable(c, t) && Has(bits, pos, EncodeToken(c, t)) then r == Emit(t, pos + |EncodeToken(c, t)|)
            else !(r.Emit? && r.token == t)
  {
    SymbolAtIff(c.literals, t.byte, bits, pos);
  }

  lemma NextMatchComplete(c: Codes, t: Token, bits: seq<bool>, pos: nat)
    requires ValidCodes(c) && t.Match? && Encodable(c, t) && Has(bits, pos, EncodeToken(c, t))
    ensures NextMatch(c, bits, pos + c.literals[257 + t.lengthSymbol], t.lengthSymbol)
         == Emit(t, pos + |EncodeToken(c, t)|)
  {
    hide EncodeToken, Has, CodeBits, KraftSum;
    var ls, ds := t.lengthSymbol, t.distanceSymbol;
    var p := pos + c.literals[257 + ls];
    var q := p + c.alphabet.lengthExtra[ls];
    var r := q + c.distances[ds];
    MatchBits(c, t, bits, pos);
    assert LsbFirst(Window(bits, p, c.alphabet.lengthExtra[ls])) == t.lengthExtra by {
      ExtraIff(t.lengthExtra, c.alphabet.lengthExtra[ls], bits, p);
    }
    assert SymbolAt(c.distances, bits, q) == ds by {
      SymbolAtIff(c.distances, ds, bits, q);
    }
    assert LsbFirst(Window(bits, r, c.alphabet.distanceExtra[ds])) == t.distanceExtra by {
      ExtraIff(t.distanceExtra, c.alphabet.distanceExtra[ds], bits, r);
    }
  }

  lemma NextMatchSound(c: Codes, t: Token, bits: seq<bool>, pos: nat)
    requires ValidCodes(c) && t.Match? && t.lengthSymbol < 29
    requires HasCode(c.literals, 257 + t.lengthSymbol)
    requires Has(bits, pos, CodeBits(c.literals, 257 + t.lengthSymbol))
    requires var r := NextMatch(c, bits, pos + c.literals[257 + t.lengthSymbol], t.lengthSymbol);
             r.Emit? && r.token == t
    ensures Encodable(c, t) && Has(bits, pos, EncodeToken(c, t))
  {
    hide EncodeToken, Has, CodeBits, KraftSum;
    var ls, ds := t.lengthSymbol, t.distanceSymbol;
    var p := pos + c.literals[257 + ls];
    var q := p + c.alphabet.lengthExtra[ls];
    NextMatchValid(c, bits, p, ls);
    ExtraIff(t.lengthExtra, c.alphabet.lengthExtra[ls], bits, p);
    SymbolAtIff(c.distances, ds, bits, q);
    ExtraIff(t.distanceExtra, c.alphabet.distanceExtra[ds], bits, q + c.distances[ds]);
    MatchBits(c, t, bits, pos);
  }

  /** The decoder reads token `t` and stops after its encoding exactly when that encoding comes next. */
  lemma NextTokenIff(c: Codes, t: Token, bits: seq<bool>, pos: nat)
    requires ValidCodes(c)
    ensures var r := NextToken(c, bits, pos);
            if Encodable(c, t) && Has(bits, pos, EncodeToken(c, t)) then r == Emit(t, pos + |EncodeToken(c, t)|)
            else !(r.Emit? && r.token == t)
  {
    hide EncodeToken, Has, CodeBits, KraftSum;
    match t
    case Literal(_) =>
      NextLiteralIff(c, t, bits, pos);
    case Match(ls, _, _, _) =>
      var r := NextToken(c, bits, pos);
      if Encodable(c, t) && Has(bits, pos, EncodeToken(c, t)) {
        assert SymbolAt(c.literals, bits, pos) == 257 + ls by {
          MatchBits(c, t, bits, pos);
          SymbolAtIff(c.literals, 257 + ls, bits, pos);
        }
        NextMatchComplete(c, t, bits, pos);
      } else if r.Emit? && r.token == t {
        SymbolAtIff(c.literals, 257 + ls, bits, pos);
        NextMatchSound(c, t, bits, pos);
      }
  }

  lemma RunStep(c: Codes, bits: seq<bool>, pos: nat, output: seq<Byte>, capacity: nat, t: Token, p: nat)
    requires ValidAlphabet(c.alphabet) && NextToken(c, bits, pos) == Emit(t, p)
    requires Expandable(c.alphabet, output, t) && TokenFits(c.alphabet, output, t, capacity)
    ensures Run(c, bits, pos, output, capacity) == Run(c, bits, p, ExpandToken(c.alphabet, output, t), capacity)
  {
  }

  lemma RunEnd(c: Codes, bits: seq<bool>, pos: nat, output: seq<Byte>, capacity: nat)
    requires ValidCodes(c) && HasCode(c.literals, END_OF_BLOCK)
    requires Has(bits, pos, CodeBits(c.literals, END_OF_BLOCK))
    ensures Run(c, bits, pos, output, capacity) == Done(pos + c.literals[END_OF_BLOCK], output)
  {
    SymbolAtIff(c.literals, END_OF_BLOCK, bits, pos);
  }

  // ----- Whole blocks -----

  /**
   Decoding a block undoes encoding it: on the encoding of any token list whose matches stay
   inside the output so far and inside the capacity, the decoder appends the LZ77 expansion
   and stops right behind the end-of-block code, whatever follows.
   */
  lemma {:induction false} BlockRoundTrip(c: Codes, ts: seq<Token>, bits: seq<bool>, pos: nat,
                                          output: seq<Byte>, capacity: nat)
    requires ValidCodes(c) && EncodableBlock(c, ts) && Has(bits, pos, EncodeBlock(c, ts))
    requires ExpandableBlock(c.alphabet, output, ts) && BlockFits(c.alphabet, output, ts, capacity)
    ensures Run(c, bits, pos, output, capacity) == Done(pos + |EncodeBlock(c, ts)|, ExpandBlock(c.alphabet, output, ts))
    decreases ts
  {
    hide EncodeToken, ExpandToken, Encodable, Expandable, TokenFits, NextToken;
    if ts == [] {
      RunEnd(c, bits, pos, output, capacity);
    } else {
      var n := |EncodeToken(c, ts[0])|;
      HasAppend(bits, pos, EncodeToken(c, ts[0]), EncodeBlock(c, ts[1..]));
      NextTokenIff(c, ts[0], bits, pos);
      RunStep(c, bits, pos, output, capacity, ts[0], pos + n);
      BlockRoundTrip(c, ts[1..], bits, pos + n, ExpandToken(c.alphabet, output, ts[0]), capacity);
    }
  }

  /** Conversely, whatever the decoder accepts is the encoding of a token list that it has expanded. */
  lemma {:induction false} BlockSound(c: Codes, bits: seq<bool>, pos: nat, output: seq<Byte>, capacity: nat)
    returns (ts: seq<Token>)
    requires ValidCodes(c) && Run(c, bits, pos, output, capacity).Done?
    ensures EncodableBlock(c, ts) && Has(bits, pos, EncodeBlock(c, ts))
    ensures ExpandableBlock(c.alphabet, output, ts) && BlockFits(c.alphabet, output, ts, capacity)
    ensures Run(c, bits, pos, output, capacity) == Done(pos + |EncodeBlock(c, ts)|, ExpandBlock(c.alphabet, output, ts))
    decreases capacity - |output|
  {
    match NextToken(c, bits, pos)
    case End(p) =>
      ts := [];
      SymbolAtIff(c.literals, END_OF_BLOCK, bits, pos);
    case Emit(t, p) =>
      ExpandGrows(c.alphabet, output, t);
      NextTokenIff(c, t, bits, pos);
      var rest := BlockSound(c, bits, p, ExpandToken(c.alphabet, output, t), capacity);
      ts := [t] + rest;
      assert ts[1..] == rest;
      HasAppend(bits, pos, EncodeToken(c, t), EncodeBlock(c, rest));
  }
}
