/**
 The table-driven Huffman decoder of Kernel/Library/ZLib.cpp: canonical codes of at most
 nine bits are looked up in a 512-entry table, longer ones are found by comparing the
 reversed window with per-length limits.
 */
module Huffman {
  import opened Bits
  import opened BitReversal
  import opened BitStreams
  import opened CanonicalCode

  const FAST_BITS: nat := 9
  const FAST_SIZE: nat := 512

  type u8 = x: nat | x < 0x100
  type u16 = x: nat | x < 0x1_0000

  // ----- The decoding tables -----

  datatype Tables = Tables(fast: seq<u16>, firstCode: seq<u16>, limit: seq<nat>,
                           firstIndex: seq<u16>, symbolLength: seq<u8>, symbolValue: seq<u16>)

  /** The number of symbols whose codes have fewer than `len` bits. */
  function SymbolsBefore(lens: seq<nat>, len: nat): nat {
    if len <= 1 then 0 else SymbolsBefore(lens, len - 1) + Count(lens, len - 1)
  }

  function SymbolIndex(lens: seq<nat>, s: nat): nat
    requires s < |lens|
  {
    SymbolsBefore(lens, lens[s]) + CountBelow(lens, s, lens[s])
  }

  /** Index `x` of the fast table ends in the reversed code of symbol `s`. */
  predicate FastMatch(lens: seq<nat>, s: nat, x: nat) {
    && s < |lens|
    && 1 <= lens[s] <= FAST_BITS
    && Low(x, lens[s]) == ReverseBits(CodeOf(lens, s), lens[s])
  }

  function PackEntry(len: nat, symbol: nat): nat {
    Or(Shl(len, 9), symbol)
  }

  /** What the fast table holds at `x` after the first `n` symbols have been entered. */
  function FastEntry(lens: seq<nat>, n: nat, x: nat): nat
    requires n <= |lens|
  {
    if n == 0 then 0
    else if FastMatch(lens, n - 1, x) then PackEntry(lens[n - 1], n - 1)
    else FastEntry(lens, n - 1, x)
  }

  ghost predicate LengthTables(firstCode: seq<u16>, limit: seq<nat>, firstIndex: seq<u16>, lens: seq<nat>, n: nat)
    requires n <= 16
  {
    && |firstCode| == 16 && |limit| == 17 && |firstIndex| == 16
    && (forall l :: 1 <= l < n ==> firstCode[l] == FirstCode(lens, l))
    && (forall l :: 1 <= l < n ==> limit[l] == Limit(lens, l))
    && (forall l :: 1 <= l < n ==> firstIndex[l] == SymbolsBefore(lens, l))
  }

  ghost predicate SymbolTables(symbolLength: seq<u8>, symbolValue: seq<u16>, lens: seq<nat>, n: nat)
    requires n <= |lens|
  {
    && |symbolLength| == |symbolValue| == MAX_SYMBOLS
    && forall s :: 0 <= s < n && lens[s] > 0 ==>
         SymbolIndex(lens, s) < MAX_SYMBOLS
         && symbolLength[SymbolIndex(lens, s)] == lens[s]
         && symbolValue[SymbolIndex(lens, s)] == s
  }

  ghost predicate FastTable(fast: seq<u16>, lens: seq<nat>, n: nat)
    requires n <= |lens|
  {
    |fast| == FAST_SIZE && forall x :: 0 <= x < FAST_SIZE ==> fast[x] == FastEntry(lens, n, x)
  }

  /** The tables decode the code `lens`; entries that no symbol owns are unconstrained. */
  ghost predicate Describes(t: Tables, lens: seq<nat>) {
    && LengthTables(t.firstCode, t.limit, t.firstIndex, lens, 16) && t.limit[16] == 0x10000
    && SymbolTables(t.symbolLength, t.symbolValue, lens, |lens|)
    && FastTable(t.fast, lens, |lens|)
  }

  lemma PackedEntry(len: nat, symbol: nat)
    requires symbol < 512
    ensures PackEntry(len, symbol) == len * 512 + symbol
    ensures Shr(PackEntry(len, symbol), 9) == len
    ensures And(PackEntry(len, symbol), 511) == symbol
  {
    Pow2Values();
    OrAdd(len, symbol, 9);
    SplitUnique(len, symbol, 9);
    AndMask(len * 512 + symbol, 9);
  }

  /** In a window, a fast-table index match is a match of the code itself. */
  lemma FastMatchIsMatch(lens: seq<nat>, s: nat, w: seq<bool>)
    requires |w| == 16 && s < |lens| && 1 <= lens[s] <= FAST_BITS
    ensures FastMatch(lens, s, And(LsbFirst(w), 511)) <==> Matches(lens, s, w)
  {
    var n := lens[s];
    Pow2Values();
    AndMask(LsbFirst(w), 9);
    LsbFirstTake(w, 9);
    LsbFirstTake(w[..9], n);
    assert w[..9][..n] == w[..n];
    ReverseCode(CodeOf(lens, s), n);
    if CodeBits(lens, s) <= w {
      assert w[..n] == CodeBits(lens, s);
    } else if LsbFirst(w[..n]) == LsbFirst(CodeBits(lens, s)) {
      LsbFirstInjective(w[..n], CodeBits(lens, s));
    }
  }

  /** A non-empty fast entry names a matching symbol; an empty one rules out every short code. */
  lemma {:induction false} FastEntryMeaning(lens: seq<nat>, n: nat, w: seq<bool>)
    requires ValidLengths(lens) && n <= |lens| && |w| == 16
    ensures var e := FastEntry(lens, n, And(LsbFirst(w), 511));
            if e != 0 then
              Matches(lens, And(e, 511), w) && Shr(e, 9) == lens[And(e, 511)] > 0
            else
              forall s: nat :: s < n && 1 <= lens[s] <= FAST_BITS ==> !Matches(lens, s, w)
  {
    if n == 0 {
    } else {
      var s := n - 1;
      FastEntryMeaning(lens, s, w);
      PackedEntry(lens[s], s);
      if 1 <= lens[s] <= FAST_BITS {
        FastMatchIsMatch(lens, s, w);
      }
    }
  }

  /** Windows that no short code starts lie at or above the nine-bit limit. */
  lemma NoShortCode(lens: seq<nat>, w: seq<bool>)
    requires ValidLengths(lens) && Kraft(lens) && |w| == 16
    requires forall s: nat :: s < |lens| && 1 <= lens[s] <= FAST_BITS ==> !Matches(lens, s, w)
    ensures Limit(lens, FAST_BITS) <= MsbFirst(w)
  {
    if MsbFirst(w) < Limit(lens, FAST_BITS) {
      var l := FindLength(lens, MsbFirst(w), FAST_BITS);
      var s := IntervalMatch(lens, l, w);
    }
  }

  lemma {:induction false} SymbolsBeforeMono(lens: seq<nat>, l: nat, m: nat)
    requires 1 <= l <= m
    ensures SymbolsBefore(lens, l) <= SymbolsBefore(lens, m)
    ensures l < m ==> SymbolsBefore(lens, l) + Count(lens, l) <= SymbolsBefore(lens, m)
  {
    if l < m {
      SymbolsBeforeMono(lens, l, m - 1);
    }
  }

  lemma {:induction false} SymbolsBeforeSnoc(lens: seq<nat>, m: nat)
    requires lens != []
    ensures SymbolsBefore(lens, m) ==
            SymbolsBefore(lens[..|lens| - 1], m) + (if 1 <= lens[|lens| - 1] < m then 1 else 0)
  {
    if m > 1 {
      var pre := lens[..|lens| - 1];
      SymbolsBeforeSnoc(lens, m - 1);
      CountBelowPrefix(lens, |pre|, |pre|, m - 1);
    }
  }

  lemma {:induction false} SymbolsBeforeEmpty(m: nat)
    ensures SymbolsBefore([], m) == 0
  {
    if m > 1 {
      SymbolsBeforeEmpty(m - 1);
    }
  }

  lemma {:induction false} SymbolsBeforeBound(lens: seq<nat>, m: nat)
    ensures SymbolsBefore(lens, m) <= |lens|
  {
    if lens == [] {
      SymbolsBeforeEmpty(m);
    } else {
      SymbolsBeforeBound(lens[..|lens| - 1], m);
      SymbolsBeforeSnoc(lens, m);
    }
  }

  lemma SymbolIndexBound(lens: seq<nat>, s: nat)
    requires ValidLengths(lens) && s < |lens| && lens[s] > 0
    ensures SymbolIndex(lens, s) < SymbolsBefore(lens, lens[s] + 1) <= |lens| <= MAX_SYMBOLS
  {
    CountBelowMono(lens, s, |lens|, lens[s]);
    SymbolsBeforeBound(lens, lens[s] + 1);
  }

  /** Symbols never share a slot of the sorted symbol arrays. */
  lemma SymbolIndexInjective(lens: seq<nat>, s: nat, t: nat)
    requires ValidLengths(lens) && s < |lens| && t < |lens| && lens[s] > 0 && lens[t] > 0
    requires SymbolIndex(lens, s) == SymbolIndex(lens, t)
    ensures s == t
  {
    SymbolIndexBound(lens, s);
    SymbolIndexBound(lens, t);
    if lens[s] < lens[t] {
      SymbolsBeforeMono(lens, lens[s] + 1, lens[t]);
    } else if lens[t] < lens[s] {
      SymbolsBeforeMono(lens, lens[t] + 1, lens[s]);
    } else {
      RankInjective(lens, s, t);
    }
  }

  lemma SymbolTablesStep(symbolLength: seq<u8>, symbolValue: seq<u16>, lens: seq<nat>, s: nat)
    requires ValidLengths(lens) && s < |lens| && lens[s] > 0
    requires SymbolTables(symbolLength, symbolValue, lens, s)
    ensures SymbolIndex(lens, s) < MAX_SYMBOLS
    ensures SymbolTables(symbolLength[SymbolIndex(lens, s) := lens[s]],
                         symbolValue[SymbolIndex(lens, s) := s], lens, s + 1)
  {
    SymbolIndexBound(lens, s);
    forall t: nat | t < s && lens[t] > 0
      ensures SymbolIndex(lens, t) != SymbolIndex(lens, s)
    {
      if SymbolIndex(lens, t) == SymbolIndex(lens, s) {
        SymbolIndexInjective(lens, t, s);
      }
    }
  }

  /** One step of the code assignment loop; a code that overflows its length breaks the Kraft inequality. */
  lemma NoLengths(firstCode: seq<u16>, limit: seq<nat>, firstIndex: seq<u16>, lens: seq<nat>)
    requires |firstCode| == 16 && |limit| == 17 && |firstIndex| == 16
    ensures LengthTables(firstCode, limit, firstIndex, lens, 1)
  {
  }

  lemma LastLimit(firstCode: seq<u16>, limit: seq<nat>, firstIndex: seq<u16>, lens: seq<nat>, v: nat)
    requires |limit| == 17 && LengthTables(firstCode, limit, firstIndex, lens, 16)
    ensures LengthTables(firstCode, limit[16 := v], firstIndex, lens, 16)
  {
  }

  lemma FirstCodeStep(lens: seq<nat>, len: nat)
    requires ValidLengths(lens) && 1 <= len <= MAX_BITS
    requires FirstCode(lens, len) <= Pow2(len)
    ensures FirstCode(lens, len) < 0x10000 && SymbolsBefore(lens, len) < 0x10000
    ensures Shl(EndCode(lens, len), 16 - len) == Limit(lens, len)
    ensures Shl(EndCode(lens, len), 1) == FirstCode(lens, len + 1)
    ensures if Count(lens, len) != 0 && EndCode(lens, len) - 1 >= Pow2(len) then !Kraft(lens)
            else FirstCode(lens, len + 1) <= Pow2(len + 1)
  {
    Pow2Values();
    Pow2Mono(len, MAX_BITS);
    SymbolsBeforeBound(lens, len);
    LimitEnd(lens, len);
    if Kraft(lens) {
      KraftFits(lens, len);
    }
  }

  // ----- The tree object -----

  class HuffmanTree {
    const fastLookupTable: array<u16>
    const firstCodeOfLength: array<u16>
    const maxCodeInclusive: array<nat>
    const firstSymbolIndexOfLength: array<u16>
    const symbolBitLengths: array<u8>
    const symbolValues: array<u16>

    ghost predicate Shape() {
      && fastLookupTable.Length == FAST_SIZE
      && firstCodeOfLength.Length == 16 && maxCodeInclusive.Length == 17 && firstSymbolIndexOfLength.Length == 16
      && symbolBitLengths.Length == MAX_SYMBOLS && symbolValues.Length == MAX_SYMBOLS
      && fastLookupTable != firstCodeOfLength && fastLookupTable != firstSymbolIndexOfLength
      && fastLookupTable != symbolValues && firstCodeOfLength != firstSymbolIndexOfLength
      && firstCodeOfLength != symbolValues && firstSymbolIndexOfLength != symbolValues
      && fastLookupTable as object != maxCodeInclusive && firstCodeOfLength as object != maxCodeInclusive
      && firstSymbolIndexOfLength as object != maxCodeInclusive && symbolValues as object != maxCodeInclusive
      && symbolBitLengths as object != maxCodeInclusive && symbolBitLengths as object != fastLookupTable
      && symbolBitLengths as object != firstCodeOfLength && symbolBitLengths as object != symbolValues
      && symbolBitLengths as object != firstSymbolIndexOfLength
    }

    ghost function Arrays(): set<object> {
      {fastLookupTable as object, firstCodeOfLength as object, maxCodeInclusive as object,
       firstSymbolIndexOfLength as object, symbolBitLengths as object, symbolValues as object}
    }

    ghost function Contents(): Tables
      reads Arrays()
    {
      Tables(fastLookupTable[..], firstCodeOfLength[..], maxCodeInclusive[..],
             firstSymbolIndexOfLength[..], symbolBitLengths[..], symbolValues[..])
    }

    ghost predicate LengthsDone(lens: seq<nat>, n: nat)
      requires n <= 16
      reads firstCodeOfLength, maxCodeInclusive, firstSymbolIndexOfLength
    {
      LengthTables(firstCodeOfLength[..], maxCodeInclusive[..], firstSymbolIndexOfLength[..], lens, n)
    }

    ghost predicate SymbolsDone(lens: seq<nat>, n: nat)
      requires n <= |lens|
      reads symbolBitLengths, symbolValues
    {
      SymbolTables(symbolBitLengths[..], symbolValues[..], lens, n)
    }

    ghost predicate FastDone(lens: seq<nat>, n: nat)
      requires n <= |lens|
      reads fastLookupTable
    {
      FastTable(fastLookupTable[..], lens, n)
    }

    constructor ()
      ensures Shape() && fresh(Arrays())
    {
      fastLookupTable := new u16[FAST_SIZE];
      firstCodeOfLength := new u16[16];
      maxCodeInclusive := new nat[17];
      firstSymbolIndexOfLength := new u16[16];
      symbolBitLengths := new u8[MAX_SYMBOLS];
      symbolValues := new u16[MAX_SYMBOLS];
    }

    /** The histogram of the code lengths. */
    static method CountLengths(lens: seq<nat>) returns (counts: seq<nat>)
      requires ValidLengths(lens)
      ensures |counts| == 17 && counts[0] == 0
      ensures forall l :: 1 <= l <= MAX_BITS ==> counts[l] == Count(lens, l)
    {
      counts := seq(17, i => 0);
      for i := 0 to |lens|
        invariant |counts| == 17
        invariant forall l :: 0 <= l < 17 ==> counts[l] == CountBelow(lens, i, l)
      {
        counts := counts[lens[i] := counts[lens[i]] + 1];
      }
      counts := counts[0 := 0];
    }

    /** Rejects lengths with more codes than bit patterns. */
    static method CheckCounts(lens: seq<nat>, counts: seq<nat>) returns (plausible: bool)
      requires ValidLengths(lens) && |counts| == 17
      requires forall l :: 1 <= l <= MAX_BITS ==> counts[l] == Count(lens, l)
      ensures Kraft(lens) ==> plausible
    {
      for length := 1 to 16 {
        if counts[length] > Pow2(length) {
          if Kraft(lens) {
            KraftFits(lens, length);
          }
          return false;
        }
      }
      return true;
    }

    /** Assigns the first code of each length; fails exactly when the lengths are over-subscribed. */
    method AssignFirstCodes(lens: seq<nat>, counts: seq<nat>) returns (ok: bool, next: seq<nat>)
      requires Shape() && ValidLengths(lens) && |counts| == 17
      requires forall l :: 1 <= l <= MAX_BITS ==> counts[l] == Count(lens, l)
      modifies firstCodeOfLength, maxCodeInclusive, firstSymbolIndexOfLength
      ensures ok <==> Kraft(lens)
      ensures ok ==> LengthsDone(lens, 16) && maxCodeInclusive[16] == 0x10000
      ensures ok ==> |next| == 16 && forall l :: 1 <= l <= MAX_BITS ==> next[l] == FirstCode(lens, l)
    {
      hide LengthTables, KraftSum, CountBelow, Shl, Limit;
      NoLengths(firstCodeOfLength[..], maxCodeInclusive[..], firstSymbolIndexOfLength[..], lens);
      var plausible := CheckCounts(lens, counts);
      if !plausible {
        return false, [];
      }
      next := seq(16, i => 0);
      var code, total := 0, 0;
      for length := 1 to 16
        invariant code == FirstCode(lens, length) <= Pow2(length)
        invariant total == SymbolsBefore(lens, length)
        invariant |next| == 16
        invariant forall l :: 1 <= l < length ==> next[l] == FirstCode(lens, l)
        invariant LengthsDone(lens, length)
      {
        FirstCodeStep(lens, length);
        next := next[length := code];
        var end := code + counts[length];
        if counts[length] != 0 && end - 1 >= Pow2(length) {
          return false, [];
        }
        SetLength(lens, length, code, end, total);
        code := Shl(end, 1);
        total := total + counts[length];
      }
      ghost var limits := maxCodeInclusive[..];
      maxCodeInclusive[16] := 0x10000;
      assert maxCodeInclusive[..] == limits[16 := 0x10000];
      LastLimit(firstCodeOfLength[..], limits, firstSymbolIndexOfLength[..], lens, 0x10000);
      KraftAtEnd(lens);
      ok := true;
    }

    method SetLength(ghost lens: seq<nat>, length: nat, code: u16, end: nat, total: u16)
      requires Shape() && 1 <= length <= MAX_BITS && LengthsDone(lens, length)
      requires code == FirstCode(lens, length) && total == SymbolsBefore(lens, length)
      requires Shl(end, 16 - length) == Limit(lens, length)
      modifies firstCodeOfLength, maxCodeInclusive, firstSymbolIndexOfLength
      ensures LengthsDone(lens, length + 1)
    {
      firstCodeOfLength[length] := code;
      firstSymbolIndexOfLength[length] := total;
      maxCodeInclusive[length] := Shl(end, 16 - length);
    }

    /** Enters one short code at every index that ends in its reversed bits. */
    method FillFast(reversed: nat, length: nat, value: u16)
      requires Shape() && length <= FAST_BITS && reversed < Pow2(length)
      modifies fastLookupTable
      ensures forall x :: 0 <= x < FAST_SIZE ==>
                fastLookupTable[x] == if Low(x, length) == reversed then value else old(fastLookupTable[x])
    {
      var p := Pow2(length);
      var i := reversed;
      forall x: nat | x < p
        ensures Low(x, length) == x
      {
        SplitUnique(0, x, length);
      }
      while i < FAST_SIZE
        invariant Low(i, length) == reversed
        invariant forall x :: 0 <= x < FAST_SIZE ==>
                    fastLookupTable[x] == if x < i && Low(x, length) == reversed then value else old(fastLookupTable[x])
        decreases FAST_SIZE - i
      {
        fastLookupTable[i] := value;
        LowPeriodic(i, length);
        i := i + p;
      }
    }

    /** Enters every symbol in the symbol arrays and, if its code is short, in the fast table. */
    method FillSymbols(lens: seq<nat>, first: seq<nat>)
      requires Shape() && ValidLengths(lens) && Kraft(lens)
      requires LengthsDone(lens, 16)
      requires maxCodeInclusive[16] == 0x10000
      requires FastDone(lens, 0)
      requires |first| == 16 && forall l :: 1 <= l <= MAX_BITS ==> first[l] == FirstCode(lens, l)
      modifies fastLookupTable, symbolBitLengths, symbolValues
      ensures Describes(Contents(), lens)
    {
      hide KraftSum, LengthTables;
      var next := first;
      for symbol := 0 to |lens|
        invariant |next| == 16 && LengthsDone(lens, 16)
        invariant FastDone(lens, symbol) && SymbolsDone(lens, symbol)
        invariant forall l :: 1 <= l <= MAX_BITS ==> next[l] == FirstCode(lens, l) + CountBelow(lens, symbol, l)
      {
        var length := lens[symbol];
        if length == 0 {
          continue;
        }
        EnterSymbol(lens, symbol, next[length]);
        next := next[length := next[length] + 1];
      }
    }

    method EnterSymbol(lens: seq<nat>, symbol: nat, code: nat)
      requires Shape() && ValidLengths(lens) && symbol < |lens| && lens[symbol] > 0
      requires code == CodeOf(lens, symbol)
      requires LengthsDone(lens, 16) && FastDone(lens, symbol) && SymbolsDone(lens, symbol)
      modifies fastLookupTable, symbolBitLengths, symbolValues
      ensures FastDone(lens, symbol + 1) && SymbolsDone(lens, symbol + 1)
    {
      var length := lens[symbol];
      FillSymbol(lens, symbol, code - firstCodeOfLength[length] + firstSymbolIndexOfLength[length]);
      if length <= FAST_BITS {
        FillShortCode(lens, symbol, code);
      }
    }

    method FillSymbol(lens: seq<nat>, symbol: nat, index: nat)
      requires Shape() && ValidLengths(lens) && symbol < |lens| && lens[symbol] > 0
      requires index == SymbolIndex(lens, symbol)
      requires SymbolsDone(lens, symbol)
      modifies symbolBitLengths, symbolValues
      ensures SymbolsDone(lens, symbol + 1)
    {
      SymbolIndexBound(lens, symbol);
      SymbolTablesStep(symbolBitLengths[..], symbolValues[..], lens, symbol);
      symbolBitLengths[index] := lens[symbol];
      symbolValues[index] := symbol;
    }

    method FillShortCode(lens: seq<nat>, symbol: nat, code: nat)
      requires Shape() && ValidLengths(lens) && symbol < |lens| && 1 <= lens[symbol] <= FAST_BITS
      requires code == CodeOf(lens, symbol)
      requires FastDone(lens, symbol)
      modifies fastLookupTable
      ensures FastDone(lens, symbol + 1)
    {
      var length := lens[symbol];
      PackedEntry(length, symbol);
      ReverseCode(code, length);
      FillFast(ReverseBits(code, length), length, PackEntry(length, symbol));
    }

    /**
     Builds the tables of a code. It succeeds exactly on the length vectors that satisfy the
     Kraft inequality, whatever the tables held before.
     */
    method Build(lens: seq<nat>) returns (ok: bool)
      requires Shape() && ValidLengths(lens)
      modifies Arrays()
      ensures ok <==> Kraft(lens)
      ensures ok ==> Describes(Contents(), lens)
    {
      forall x | 0 <= x < FAST_SIZE {
        fastLookupTable[x] := 0;
      }
      var counts := CountLengths(lens);
      var next;
      ok, next := AssignFirstCodes(lens, counts);
      if ok {
        FillSymbols(lens, next);
      }
    }

    /**
     Decodes one symbol: the result is the symbol whose code starts the next sixteen bits,
     and exactly its code is consumed; it is -1, consuming nothing, when no code does.
     */
    method Decode(stream: BitStream, ghost lens: seq<nat>) returns (symbol: int)
      requires Shape() && ValidLengths(lens) && Kraft(lens) && Describes(Contents(), lens)
      modifies stream`pos
      ensures symbol >= 0 ==>
                Matches(lens, symbol, Window(stream.bits, old(stream.pos), 16))
                && stream.pos == old(stream.pos) + lens[symbol]
      ensures symbol < 0 ==> symbol == -1 && stream.pos == old(stream.pos)
      ensures symbol < 0 <==> forall s: nat :: !Matches(lens, s, Window(stream.bits, old(stream.pos), 16))
    {
      ghost var w := Window(stream.bits, stream.pos, 16);
      var bits := stream.PeekBits(16);
      Pow2Values();
      AndMask(bits, 9);
      Split(bits, 9);
      FastEntryMeaning(lens, |lens|, w);
      var fastEntry := fastLookupTable[And(bits, 511)];
      if fastEntry != 0 {
        stream.DropBits(Shr(fastEntry, 9));
        return And(fastEntry, 511);
      }
      NoShortCode(lens, w);
      symbol := DecodeSlowPath(stream, lens);
    }

    method DecodeSlowPath(stream: BitStream, ghost lens: seq<nat>) returns (symbol: int)
      requires Shape() && ValidLengths(lens) && Kraft(lens) && Describes(Contents(), lens)
      requires Limit(lens, FAST_BITS) <= MsbFirst(Window(stream.bits, stream.pos, 16))
      modifies stream`pos
      ensures symbol >= 0 ==>
                Matches(lens, symbol, Window(stream.bits, old(stream.pos), 16))
                && stream.pos == old(stream.pos) + lens[symbol]
      ensures symbol < 0 ==> symbol == -1 && stream.pos == old(stream.pos)
      ensures symbol < 0 <==> forall s: nat :: !Matches(lens, s, Window(stream.bits, old(stream.pos), 16))
    {
      ghost var w := Window(stream.bits, stream.pos, 16);
      var bits := stream.PeekBits(16);
      var reversed := ReverseBits(bits, 16);
      ReverseWindow(w);
      MsbFirstBit(w, 0);
      Pow2Values();
      Tiling(lens, w);
      var length := FAST_BITS + 1;
      while reversed >= maxCodeInclusive[length]
        invariant FAST_BITS < length <= 16
        invariant Limit(lens, length - 1) <= reversed
        decreases 16 - length
      {
        length := length + 1;
      }
      if length >= 16 {
        return -1;
      }
      ghost var s := IntervalMatch(lens, length, w);
      var index := Shr(reversed, 16 - length) - firstCodeOfLength[length] + firstSymbolIndexOfLength[length];
      assert index == SymbolIndex(lens, s);
      if index >= MAX_SYMBOLS {
        return -1;
      }
      if symbolBitLengths[index] != length {
        return -1;
      }
      stream.DropBits(length);
      return symbolValues[index];
    }
  }
}
