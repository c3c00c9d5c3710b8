/**
 The header of a block with dynamic Huffman codes (Kernel/Library/ZLib.cpp, `DecodeCanonicalCodes`;
 section 3.2.7 of RFC 1951): run-length coded code lengths, themselves Huffman coded.
 */
module CodeLengths {
  import opened Bits
  import opened BitStreams
  import opened CanonicalCode
  import opened Inflate

  const CODE_LENGTH_SYMBOLS: nat := 19

  /** Entries of the buffer that the code lengths are collected in. */
  const MAX_LENGTHS: nat := 320

  // ----- Run-length items -----

  /** A code length 0..15, or one of the repetitions 16, 17 and 18 with its extra bits. */
  datatype Item = Item(symbol: nat, extra: nat)

  function ExtraBits(symbol: nat): nat {
    if symbol == 16 then 2 else if symbol == 17 then 3 else if symbol == 18 then 7 else 0
  }

  function Repeat(item: Item): (n: nat)
    ensures n >= 1
  {
    if item.symbol < 16 then 1 else if item.symbol == 18 then item.extra + 11 else item.extra + 3
  }

  /** Only the repetition of the previous length needs a previous length. */
  predicate Appendable(done: seq<nat>, item: Item) {
    item.symbol == 16 ==> done != []
  }

  function Value(done: seq<nat>, item: Item): nat
    requires Appendable(done, item)
  {
    if item.symbol < 16 then item.symbol else if item.symbol == 16 then done[|done| - 1] else 0
  }

  function Append(done: seq<nat>, item: Item): (r: seq<nat>)
    requires Appendable(done, item)
    ensures |r| == |done| + Repeat(item)
  {
    done + seq(Repeat(item), i => Value(done, item))
  }

  predicate AllAppendable(done: seq<nat>, items: seq<Item>)
    decreases |items|
  {
    items == [] || (Appendable(done, items[0]) && AllAppendable(Append(done, items[0]), items[1..]))
  }

  function ExpandItems(done: seq<nat>, items: seq<Item>): (r: seq<nat>)
    requires AllAppendable(done, items)
    ensures |r| >= |done| + |items|
    decreases |items|
  {
    if items == [] then done else ExpandItems(Append(done, items[0]), items[1..])
  }

  /** The repetitions of section 3.2.7: the last length 3 to 6 times, a zero 3 to 10 times, a zero 11 to 138 times. */
  lemma RepetitionRows(done: seq<nat>, extra: nat)
    ensures ExtraBits(16) == 2 && ExtraBits(17) == 3 && ExtraBits(18) == 7
    ensures done != [] ==> Append(done, Item(16, extra)) == done + seq(3 + extra, i => done[|done| - 1])
    ensures Append(done, Item(17, extra)) == done + seq(3 + extra, i => 0)
    ensures Append(done, Item(18, extra)) == done + seq(11 + extra, i => 0)
    ensures forall n: nat :: n < 16 ==> ExtraBits(n) == 0 && Append(done, Item(n, 0)) == done + [n]
  {
    forall n: nat | n < 16
      ensures ExtraBits(n) == 0 && Append(done, Item(n, 0)) == done + [n]
    {
      assert Append(done, Item(n, 0)) == done + [n];
    }
  }

  // ----- Encoding and reading -----

  predicate CodeLengthCode(cl: seq<nat>) {
    |cl| == CODE_LENGTH_SYMBOLS && ValidCode(cl)
  }

  predicate Writable(cl: seq<nat>, item: Item) {
    HasCode(cl, item.symbol) && item.extra < Pow2(ExtraBits(item.symbol))
  }

  function EncodeItem(cl: seq<nat>, item: Item): seq<bool>
    requires Writable(cl, item)
  {
    CodeBits(cl, item.symbol) + LowBits(item.extra, ExtraBits(item.symbol))
  }

  function EncodeItems(cl: seq<nat>, items: seq<Item>): seq<bool>
    requires forall i :: 0 <= i < |items| ==> Writable(cl, items[i])
    decreases |items|
  {
    if items == [] then [] else EncodeItem(cl, items[0]) + EncodeItems(cl, items[1..])
  }

  datatype Read = Got(item: Item, next: nat) | Nothing

  ghost function NextItem(cl: seq<nat>, bits: seq<bool>, pos: nat): Read {
    var s := SymbolAt(cl, bits, pos);
    if s < 0 then Nothing
    else
      var p := pos + cl[s];
      Got(Item(s, LsbFirst(Window(bits, p, ExtraBits(s)))), p + ExtraBits(s))
  }

  /** The reader finds an item exactly when the encoding of that item comes next. */
  lemma NextItemIff(cl: seq<nat>, item: Item, bits: seq<bool>, pos: nat)
    requires CodeLengthCode(cl)
    ensures var r := NextItem(cl, bits, pos);
            if Writable(cl, item) && Has(bits, pos, EncodeItem(cl, item))
              then r == Got(item, pos + |EncodeItem(cl, item)|)
            else !(r.Got? && r.item == item)
  {
    hide Has, CodeBits, KraftSum, LsbFirst, SymbolAt;
    var s, n := item.symbol, ExtraBits(item.symbol);
    SymbolAtIff(cl, s, bits, pos);
    if HasCode(cl, s) {
      ExtraIff(item.extra, n, bits, pos + cl[s]);
      HasAppend(bits, pos, CodeBits(cl, s), LowBits(item.extra, n));
    }
  }

  /**
   How the loop ends: with the lengths; on a symbol that no code starts; on a repetition with
   nothing to repeat, where the code reads in front of its buffer; on an item that leaves the
   buffer, which the code writes before it fails; or on an item that exceeds the total.
   */
  datatype ItemsOutcome = Lengths(all: seq<nat>, next: nat) | BadSymbol | NoPrevious | Overrun | WrongCount

  /** The reading loop, from the lengths `done` so far until there are `total`. */
  ghost function RunItems(cl: seq<nat>, bits: seq<bool>, pos: nat, done: seq<nat>, total: nat): ItemsOutcome
    decreases total - |done|
  {
    if |done| >= total then
      if |done| == total then Lengths(done, pos) else WrongCount
    else
      var r := NextItem(cl, bits, pos);
      if r.Nothing? then BadSymbol
      else if !Appendable(done, r.item) then NoPrevious
      else if |done| + Repeat(r.item) > MAX_LENGTHS then Overrun
      else RunItems(cl, bits, r.next, Append(done, r.item), total)
  }

  /** Reading undoes writing, for every list of items that expands to the right number of lengths. */
  lemma {:induction false} ItemsRoundTrip(cl: seq<nat>, items: seq<Item>, bits: seq<bool>, pos: nat, done: seq<nat>,
                                          total: nat)
    requires CodeLengthCode(cl) && (forall i :: 0 <= i < |items| ==> Writable(cl, items[i]))
    requires AllAppendable(done, items) && |ExpandItems(done, items)| == total <= MAX_LENGTHS
    requires Has(bits, pos, EncodeItems(cl, items))
    ensures RunItems(cl, bits, pos, done, total) == Lengths(ExpandItems(done, items), pos + |EncodeItems(cl, items)|)
    decreases |items|
  {
    hide EncodeItem, Writable, NextItem, Has, CodeLengthCode, Append, Appendable;
    if items != [] {
      var n := |EncodeItem(cl, items[0])|;
      HasAppend(bits, pos, EncodeItem(cl, items[0]), EncodeItems(cl, items[1..]));
      NextItemIff(cl, items[0], bits, pos);
      ItemsRoundTrip(cl, items[1..], bits, pos + n, Append(done, items[0]), total);
    }
  }

  /** Conversely, whatever the loop accepts is the encoding of items that expand to its result. */
  lemma {:induction false} ItemsSound(cl: seq<nat>, bits: seq<bool>, pos: nat, done: seq<nat>, total: nat)
    returns (items: seq<Item>)
    requires CodeLengthCode(cl) && RunItems(cl, bits, pos, done, total).Lengths?
    ensures forall i :: 0 <= i < |items| ==> Writable(cl, items[i])
    ensures AllAppendable(done, items) && Has(bits, pos, EncodeItems(cl, items))
    ensures RunItems(cl, bits, pos, done, total) == Lengths(ExpandItems(done, items), pos + |EncodeItems(cl, items)|)
    decreases total - |done|
  {
    hide EncodeItem, Writable, NextItem, Has, CodeLengthCode, Append, Appendable;
    if |done| >= total {
      items := [];
      HasNothing(bits, pos);
    } else {
      var r := NextItem(cl, bits, pos);
      NextItemIff(cl, r.item, bits, pos);
      var rest := ItemsSound(cl, bits, r.next, Append(done, r.item), total);
      items := [r.item] + rest;
      assert items[1..] == rest;
      HasAppend(bits, pos, EncodeItem(cl, r.item), EncodeItems(cl, rest));
    }
  }

  /** The items stay inside the buffer, and one more read while lengths are missing leaves it. */
  ghost predicate Overruns(cl: seq<nat>, items: seq<Item>, last: Item, bits: seq<bool>, pos: nat, done: seq<nat>,
                           total: nat)
  {
    && (forall i :: 0 <= i < |items| ==> Writable(cl, items[i])) && Writable(cl, last)
    && Has(bits, pos, EncodeItems(cl, items) + EncodeItem(cl, last))
    && AllAppendable(done, items) && Appendable(ExpandItems(done, items), last)
    && |ExpandItems(done, items)| < total && |ExpandItems(done, items)| + Repeat(last) > MAX_LENGTHS
  }

  /** On such items the loop ends by leaving the buffer. */
  lemma {:induction false} OverrunComplete(cl: seq<nat>, items: seq<Item>, last: Item, bits: seq<bool>, pos: nat,
                                           done: seq<nat>,
                                           total: nat)
    requires CodeLengthCode(cl) && total <= MAX_LENGTHS && Overruns(cl, items, last, bits, pos, done, total)
    ensures RunItems(cl, bits, pos, done, total) == Overrun
    decreases |items|
  {
    hide EncodeItem, Writable, NextItem, Has, CodeLengthCode, Append, Appendable;
    if items == [] {
      assert EncodeItems(cl, items) + EncodeItem(cl, last) == EncodeItem(cl, last);
      NextItemIff(cl, last, bits, pos);
    } else {
      var first, rest := EncodeItem(cl, items[0]), EncodeItems(cl, items[1..]) + EncodeItem(cl, last);
      assert EncodeItems(cl, items) + EncodeItem(cl, last) == first + rest;
      HasAppend(bits, pos, first, rest);
      NextItemIff(cl, items[0], bits, pos);
      OverrunComplete(cl, items[1..], last, bits, pos + |first|, Append(done, items[0]), total);
    }
  }

  /** And it leaves the buffer on no others. */
  lemma {:induction false} OverrunSound(cl: seq<nat>, bits: seq<bool>, pos: nat, done: seq<nat>, total: nat)
    returns (items: seq<Item>, last: Item)
    requires CodeLengthCode(cl) && total <= MAX_LENGTHS && RunItems(cl, bits, pos, done, total) == Overrun
    ensures Overruns(cl, items, last, bits, pos, done, total)
    decreases total - |done|
  {
    hide EncodeItem, Writable, NextItem, Has, CodeLengthCode, Append, Appendable;
    var r := NextItem(cl, bits, pos);
    NextItemIff(cl, r.item, bits, pos);
    if |done| + Repeat(r.item) > MAX_LENGTHS {
      items, last := [], r.item;
      assert EncodeItems(cl, items) + EncodeItem(cl, last) == EncodeItem(cl, last);
    } else {
      var rest;
      rest, last := OverrunSound(cl, bits, r.next, Append(done, r.item), total);
      items := [r.item] + rest;
      assert items[1..] == rest;
      var tail := EncodeItems(cl, rest) + EncodeItem(cl, last);
      assert EncodeItems(cl, items) + EncodeItem(cl, last) == EncodeItem(cl, r.item) + tail;
      HasAppend(bits, pos, EncodeItem(cl, r.item), tail);
    }
  }

  lemma HasNothing(bits: seq<bool>, pos: nat)
    ensures Has(bits, pos, [])
  {
  }

  /** Lengths stay in range: the trees can always be given the result. */
  lemma {:induction false} RunItemsBounded(cl: seq<nat>, bits: seq<bool>, pos: nat, done: seq<nat>, total: nat)
    requires |cl| == CODE_LENGTH_SYMBOLS && forall i :: 0 <= i < |done| ==> done[i] <= MAX_BITS
    ensures var r := RunItems(cl, bits, pos, done, total);
            r.Lengths? ==> |r.all| == total && forall i :: 0 <= i < total ==> r.all[i] <= MAX_BITS
    decreases total - |done|
  {
    hide SymbolAt, LsbFirst;
    if |done| < total {
      var r := NextItem(cl, bits, pos);
      if r.Got? && Appendable(done, r.item) {
        RunItemsBounded(cl, bits, r.next, Append(done, r.item), total);
      }
    }
  }

  /** Every vector of lengths has an encoding: one plain item per length. */
  function PlainItems(lens: seq<nat>): (items: seq<Item>)
    ensures |items| == |lens| && forall i :: 0 <= i < |items| ==> items[i] == Item(lens[i], 0)
  {
    seq(|lens|, i requires 0 <= i < |lens| => Item(lens[i], 0))
  }

  lemma {:induction false} PlainExpands(done: seq<nat>, lens: seq<nat>)
    requires forall i :: 0 <= i < |lens| ==> lens[i] < 16
    ensures AllAppendable(done, PlainItems(lens)) && ExpandItems(done, PlainItems(lens)) == done + lens
    decreases |lens|
  {
    if lens != [] {
      assert PlainItems(lens)[1..] == PlainItems(lens[1..]);
      assert Append(done, Item(lens[0], 0)) == done + [lens[0]];
      PlainExpands(done + [lens[0]], lens[1..]);
      assert done + [lens[0]] + lens[1..] == done + lens;
    } else {
      assert done + lens == done;
    }
  }
}
