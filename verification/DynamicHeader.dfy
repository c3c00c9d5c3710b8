/** The whole header of a dynamic block: counts, the code-length code, and the code lengths. */
module DynamicHeader {
  import opened Bits
  import opened BitStreams
  import opened CanonicalCode
  import opened Inflate
  import opened CodeLengths

  // ----- The code-length code -----

  /** The order in which the lengths of the code-length code are sent. */
  predicate ValidOrder(order: seq<nat>) {
    && |order| == CODE_LENGTH_SYMBOLS
    && (forall i :: 0 <= i < |order| ==> order[i] < CODE_LENGTH_SYMBOLS)
    && NoneTwice(order)
    && AllOccur(order)
  }

  predicate NoneTwice(order: seq<nat>) {
    forall i, j :: 0 <= i < j < |order| ==> order[i] != order[j]
  }

  predicate AllOccur(order: seq<nat>) {
    forall s: nat :: s < CODE_LENGTH_SYMBOLS ==> s in order
  }

  const CODE_LENGTH_ORDER: seq<nat> := [16, 17, 18, 0, 8, 7, 9, 6, 10, 5, 11, 4, 12, 3, 13, 2, 14, 1, 15]

  lemma OrderOccurs()
    ensures AllOccur(CODE_LENGTH_ORDER)
  {
  }

  lemma OrderNoneTwice()
    ensures NoneTwice(CODE_LENGTH_ORDER)
  {
  }

  lemma OrderValid()
    ensures ValidOrder(CODE_LENGTH_ORDER)
  {
    hide NoneTwice, AllOccur;
    OrderOccurs();
    OrderNoneTwice();
  }

  /** The order of section 3.2.7: the repetitions, zero, then lengths alternately above and below 7.5. */
  lemma OrderIs(j: nat)
    ensures CODE_LENGTH_ORDER[..4] == [16, 17, 18, 0]
    ensures j < 8 ==> CODE_LENGTH_ORDER[4 + 2 * j] == 8 + j
    ensures j < 7 ==> CODE_LENGTH_ORDER[5 + 2 * j] == 7 - j
  {
  }

  /** The lengths after reading `n` of them, three bits each; the others are zero. */
  function LengthsAt(order: seq<nat>, bits: seq<bool>, pos: nat, n: nat): (cl: seq<nat>)
    requires ValidOrder(order) && n <= CODE_LENGTH_SYMBOLS
    ensures |cl| == CODE_LENGTH_SYMBOLS
    decreases n
  {
    if n == 0 then seq(CODE_LENGTH_SYMBOLS, i => 0)
    else LengthsAt(order, bits, pos, n - 1)[order[n - 1] := LsbFirst(Window(bits, pos + 3 * (n - 1), 3))]
  }

  predicate Agree(order: seq<nat>, got: seq<nat>, cl: seq<nat>, n: nat)
    requires ValidOrder(order) && |got| == |cl| == CODE_LENGTH_SYMBOLS && n <= CODE_LENGTH_SYMBOLS
  {
    forall i :: 0 <= i < n ==> got[order[i]] == cl[order[i]]
  }

  predicate Small(order: seq<nat>, cl: seq<nat>, n: nat)
    requires ValidOrder(order) && |cl| == CODE_LENGTH_SYMBOLS && n <= CODE_LENGTH_SYMBOLS
  {
    forall i :: 0 <= i < n ==> cl[order[i]] < 8
  }

  predicate ZeroFrom(order: seq<nat>, cl: seq<nat>, n: nat)
    requires ValidOrder(order) && |cl| == CODE_LENGTH_SYMBOLS
  {
    forall i :: n <= i < CODE_LENGTH_SYMBOLS ==> cl[order[i]] == 0
  }

  lemma EntryStep(order: seq<nat>, before: seq<nat>, cl: seq<nat>, n: nat, v: nat)
    requires ValidOrder(order) && |before| == |cl| == CODE_LENGTH_SYMBOLS && n < CODE_LENGTH_SYMBOLS
    ensures var got := before[order[n] := v];
            && (Agree(order, got, cl, n + 1) <==> Agree(order, before, cl, n) && v == cl[order[n]])
            && (ZeroFrom(order, before, n) ==> ZeroFrom(order, got, n + 1))
    ensures Small(order, cl, n + 1) <==> Small(order, cl, n) && cl[order[n]] < 8
  {
    hide AllOccur;
    var got := before[order[n] := v];
    assert forall i :: 0 <= i < |order| && i != n ==> got[order[i]] == before[order[i]];
    assert got[order[n]] == v;
  }

  function EncodeLengths(order: seq<nat>, cl: seq<nat>, n: nat): (r: seq<bool>)
    requires ValidOrder(order) && |cl| == CODE_LENGTH_SYMBOLS && n <= CODE_LENGTH_SYMBOLS
    ensures |r| == 3 * n
    decreases n
  {
    if n == 0 then [] else EncodeLengths(order, cl, n - 1) + LowBits(cl[order[n - 1]], 3)
  }

  /** The entries that were sent come back, and those that were not are zero. */
  lemma {:induction false} LengthsIff(order: seq<nat>, cl: seq<nat>, bits: seq<bool>, pos: nat, n: nat)
    requires ValidOrder(order) && |cl| == CODE_LENGTH_SYMBOLS && n <= CODE_LENGTH_SYMBOLS
    ensures Small(order, cl, n) && Has(bits, pos, EncodeLengths(order, cl, n)) <==>
            Agree(order, LengthsAt(order, bits, pos, n), cl, n)
    ensures ZeroFrom(order, LengthsAt(order, bits, pos, n), n)
    decreases n
  {
    hide Has, LsbFirst, Window, LowBits, NoneTwice, AllOccur, Agree, Small, ZeroFrom;
    if n == 0 {
      NothingSent(order, cl, bits, pos);
    } else {
      var p := pos + 3 * (n - 1);
      LengthsIff(order, cl, bits, pos, n - 1);
      ThreeBitsIff(cl[order[n - 1]], bits, p);
      HasAppend(bits, pos, EncodeLengths(order, cl, n - 1), LowBits(cl[order[n - 1]], 3));
      EntryStep(order, LengthsAt(order, bits, pos, n - 1), cl, n - 1, LsbFirst(Window(bits, p, 3)));
    }
  }

  lemma NothingSent(order: seq<nat>, cl: seq<nat>, bits: seq<bool>, pos: nat)
    requires ValidOrder(order) && |cl| == CODE_LENGTH_SYMBOLS
    ensures Small(order, cl, 0) && Has(bits, pos, EncodeLengths(order, cl, 0))
    ensures Agree(order, LengthsAt(order, bits, pos, 0), cl, 0) && ZeroFrom(order, LengthsAt(order, bits, pos, 0), 0)
  {
    HasNothing(bits, pos);
  }

  lemma ThreeBitsIff(v: nat, bits: seq<bool>, pos: nat)
    ensures v < 8 && Has(bits, pos, LowBits(v, 3)) <==> LsbFirst(Window(bits, pos, 3)) == v
  {
    ExtraIff(v, 3, bits, pos);
    Pow2Values();
  }

  /** The reader ends up with `cl` exactly when its encoding comes next. */
  lemma LengthsReadIff(order: seq<nat>, cl: seq<nat>, bits: seq<bool>, pos: nat, n: nat)
    requires ValidOrder(order) && |cl| == CODE_LENGTH_SYMBOLS && n <= CODE_LENGTH_SYMBOLS
    ensures LengthsAt(order, bits, pos, n) == cl <==>
            Small(order, cl, n) && ZeroFrom(order, cl, n) && Has(bits, pos, EncodeLengths(order, cl, n))
  {
    hide Has, EncodeLengths, LengthsAt, Small;
    LengthsIff(order, cl, bits, pos, n);
    var got := LengthsAt(order, bits, pos, n);
    if Agree(order, got, cl, n) && ZeroFrom(order, cl, n) {
      forall s: nat | s < CODE_LENGTH_SYMBOLS
        ensures got[s] == cl[s]
      {
        assert s in order;
        var i :| 0 <= i < |order| && order[i] == s;
        assert got[order[i]] == cl[order[i]];
      }
    }
  }

  // ----- The header -----

  /** Numbers of literal and distance lengths, lengths sent for the code-length code, that code, and the items. */
  datatype Header = Header(literals: nat, distances: nat, sent: nat, cl: seq<nat>, items: seq<Item>)

  predicate ValidHeader(order: seq<nat>, h: Header)
    requires ValidOrder(order)
  {
    && 257 <= h.literals < 289 && 1 <= h.distances < 33 && 4 <= h.sent <= CODE_LENGTH_SYMBOLS
    && CodeLengthCode(h.cl) && Small(order, h.cl, h.sent) && ZeroFrom(order, h.cl, h.sent)
    && (forall i :: 0 <= i < |h.items| ==> Writable(h.cl, h.items[i]))
    && AllAppendable([], h.items) && |ExpandItems([], h.items)| == h.literals + h.distances
  }

  function EncodeCounts(h: Header): (r: seq<bool>)
    requires h.literals >= 257 && h.distances >= 1 && h.sent >= 4
    ensures |r| == 14
  {
    LowBits(h.literals - 257, 5) + LowBits(h.distances - 1, 5) + LowBits(h.sent - 4, 4)
  }

  function EncodeHeader(order: seq<nat>, h: Header): (r: seq<bool>)
    requires ValidOrder(order) && ValidHeader(order, h)
  {
    EncodeCounts(h) + EncodeLengths(order, h.cl, h.sent) + EncodeItems(h.cl, h.items)
  }

  datatype Parse = Parsed(literals: seq<nat>, distances: seq<nat>, next: nat) | Rejected

  /** The two codes, if both can be built. */
  predicate Buildable(all: seq<nat>, n: nat) {
    n <= |all| && ValidLengths(all[..n]) && Kraft(all[..n]) && ValidLengths(all[n..]) && Kraft(all[n..])
  }

  ghost function ParseHeader(order: seq<nat>, bits: seq<bool>, pos: nat): Parse
    requires ValidOrder(order)
  {
    var literals := LsbFirst(Window(bits, pos, 5)) + 257;
    var distances := LsbFirst(Window(bits, pos + 5, 5)) + 1;
    var sent := LsbFirst(Window(bits, pos + 10, 4)) + 4;
    ParseCodes(order, bits, pos + 14, literals, distances, sent)
  }

  /** Four bits give at most 19. */
  function Sent(sent: nat): nat {
    if sent <= CODE_LENGTH_SYMBOLS then sent else CODE_LENGTH_SYMBOLS
  }

  ghost function ParseCodes(order: seq<nat>, bits: seq<bool>, pos: nat, literals: nat, distances: nat, sent: nat): Parse
    requires ValidOrder(order)
  {
    var cl := LengthsAt(order, bits, pos, Sent(sent));
    if !(ValidLengths(cl) && Kraft(cl)) then Rejected
    else
      match RunItems(cl, bits, pos + 3 * Sent(sent), [], literals + distances)
      case Lengths(all, next) =>
        if Buildable(all, literals) then Parsed(all[..literals], all[literals..], next) else Rejected
      case _ => Rejected
  }

  lemma CountsIff(h: Header, bits: seq<bool>, pos: nat)
    requires h.literals >= 257 && h.distances >= 1 && h.sent >= 4
    ensures h.literals < 289 && h.distances < 33 && h.sent < 20 && Has(bits, pos, EncodeCounts(h)) <==>
            && LsbFirst(Window(bits, pos, 5)) + 257 == h.literals
            && LsbFirst(Window(bits, pos + 5, 5)) + 1 == h.distances
            && LsbFirst(Window(bits, pos + 10, 4)) + 4 == h.sent
  {
    hide Has, LsbFirst, Window, LowBits;
    var a, b, c := LowBits(h.literals - 257, 5), LowBits(h.distances - 1, 5), LowBits(h.sent - 4, 4);
    Pow2Values();
    ExtraIff(h.literals - 257, 5, bits, pos);
    ExtraIff(h.distances - 1, 5, bits, pos + 5);
    ExtraIff(h.sent - 4, 4, bits, pos + 10);
    HasAppend(bits, pos, a + b, c);
    HasAppend(bits, pos, a, b);
  }

  /** Parsing undoes encoding: the header's lengths come back, if they make two codes. */
  lemma HeaderRoundTrip(order: seq<nat>, h: Header, bits: seq<bool>, pos: nat)
    requires ValidOrder(order) && ValidHeader(order, h) && Has(bits, pos, EncodeHeader(order, h))
    ensures var all := ExpandItems([], h.items);
            ParseHeader(order, bits, pos) ==
            if Buildable(all, h.literals) then Parsed(all[..h.literals], all[h.literals..],
                                                      pos + |EncodeHeader(order, h)|)
            else Rejected
  {
    hide Has, LsbFirst, Window, LowBits, EncodeCounts, EncodeLengths, EncodeItems, LengthsAt, RunItems, Buildable,
         ValidOrder;
    var a, b, c := EncodeCounts(h), EncodeLengths(order, h.cl, h.sent), EncodeItems(h.cl, h.items);
    HasAppend(bits, pos, a + b, c);
    HasAppend(bits, pos, a, b);
    CountsIff(h, bits, pos);
    LengthsReadIff(order, h.cl, bits, pos + 14, h.sent);
    ItemsRoundTrip(h.cl, h.items, bits, pos + 14 + 3 * h.sent, [], h.literals + h.distances);
  }

  /** Conversely, every header that is accepted is the encoding of one whose lengths were found. */
  lemma HeaderSound(order: seq<nat>, bits: seq<bool>, pos: nat) returns (h: Header)
    requires ValidOrder(order) && ParseHeader(order, bits, pos).Parsed?
    ensures ValidHeader(order, h) && Has(bits, pos, EncodeHeader(order, h))
    ensures var all := ExpandItems([], h.items);
            ParseHeader(order, bits, pos) == Parsed(all[..h.literals], all[h.literals..],
                                                    pos + |EncodeHeader(order, h)|)
  {
    hide Has, LsbFirst, Window, LowBits, EncodeCounts, EncodeLengths, EncodeItems, LengthsAt, RunItems, ValidOrder,
         Small, ZeroFrom;
    var literals := LsbFirst(Window(bits, pos, 5)) + 257;
    var distances := LsbFirst(Window(bits, pos + 5, 5)) + 1;
    var sent := LsbFirst(Window(bits, pos + 10, 4)) + 4;
    h := Header(literals, distances, sent, [], []);
    CountsIff(h, bits, pos);
    var cl := LengthsAt(order, bits, pos + 14, sent);
    LengthsReadIff(order, cl, bits, pos + 14, sent);
    var items := ItemsSound(cl, bits, pos + 14 + 3 * sent, [], literals + distances);
    h := Header(literals, distances, sent, cl, items);
    RunItemsBounded(cl, bits, pos + 14 + 3 * sent, [], literals + distances);
    CountsIff(h, bits, pos);
    var a, b, c := EncodeCounts(h), EncodeLengths(order, h.cl, h.sent), EncodeItems(h.cl, h.items);
    HasAppend(bits, pos, a + b, c);
    HasAppend(bits, pos, a, b);
  }

  /**
   The three counts of section 3.2.7: five bits plus 257, five bits plus 1, and four bits plus 4
   lengths of the code-length code, which follow right behind.
   */
  lemma ParsedCounts(order: seq<nat>, bits: seq<bool>, pos: nat, sent: nat)
    requires ValidOrder(order) && ParseHeader(order, bits, pos).Parsed?
    requires sent == LsbFirst(Window(bits, pos + 10, 4)) + 4
    ensures sent <= CODE_LENGTH_SYMBOLS
    ensures var p := ParseHeader(order, bits, pos);
            && |p.literals| == LsbFirst(Window(bits, pos, 5)) + 257
            && |p.distances| == LsbFirst(Window(bits, pos + 5, 5)) + 1
            && RunItems(LengthsAt(order, bits, pos + 14, sent), bits, pos + 14 + 3 * sent, [],
                        |p.literals| + |p.distances|) == Lengths(p.literals + p.distances, p.next)
  {
    hide LsbFirst, Window, LengthsAt, RunItems, ValidOrder, Buildable;
    LsbFirstBit(Window(bits, pos + 10, 4), 0);
    Pow2Values();
    ParsedCodes(order, bits, pos + 14, LsbFirst(Window(bits, pos, 5)) + 257, LsbFirst(Window(bits, pos + 5, 5)) + 1,
                sent);
  }

  lemma ParsedCodes(order: seq<nat>, bits: seq<bool>, pos: nat, literals: nat, distances: nat, sent: nat)
    requires ValidOrder(order) && sent <= CODE_LENGTH_SYMBOLS
    requires ParseCodes(order, bits, pos, literals, distances, sent).Parsed?
    ensures var p := ParseCodes(order, bits, pos, literals, distances, sent);
            var r := RunItems(LengthsAt(order, bits, pos, sent), bits, pos + 3 * sent, [], literals + distances);
            |p.literals| == literals && |p.distances| == distances && r == Lengths(p.literals + p.distances, p.next)
  {
    hide LengthsAt, RunItems, ValidOrder, KraftSum;
    RunItemsBounded(LengthsAt(order, bits, pos, sent), bits, pos + 3 * sent, [], literals + distances);
  }

  // ----- Headers that leave the buffer -----

  /** Where a header whose items leave the buffer is read, the loop does so, and the header is rejected. */
  lemma HeaderOverrun(order: seq<nat>, h: Header, last: Item, bits: seq<bool>, pos: nat)
    requires ValidOrder(order) && 257 <= h.literals < 289 && 1 <= h.distances < 33 && 4 <= h.sent <= CODE_LENGTH_SYMBOLS
    requires CodeLengthCode(h.cl) && Small(order, h.cl, h.sent) && ZeroFrom(order, h.cl, h.sent)
    requires Has(bits, pos, EncodeCounts(h) + EncodeLengths(order, h.cl, h.sent))
    requires Overruns(h.cl, h.items, last, bits, pos + 14 + 3 * h.sent, [], h.literals + h.distances)
    ensures LengthsAt(order, bits, pos + 14, h.sent) == h.cl
    ensures RunItems(h.cl, bits, pos + 14 + 3 * h.sent, [], h.literals + h.distances) == Overrun
    ensures ParseHeader(order, bits, pos) == Rejected
  {
    hide Has, LsbFirst, Window, LowBits, EncodeCounts, EncodeLengths, LengthsAt, RunItems, ValidOrder, Overruns;
    HasAppend(bits, pos, EncodeCounts(h), EncodeLengths(order, h.cl, h.sent));
    CountsIff(h, bits, pos);
    LengthsReadIff(order, h.cl, bits, pos + 14, h.sent);
    OverrunComplete(h.cl, h.items, last, bits, pos + 14 + 3 * h.sent, [], h.literals + h.distances);
  }

  lemma {:induction false} KraftOfZeros(lens: seq<nat>)
    requires ValidLengths(lens) && forall i :: 0 <= i < |lens| ==> lens[i] == 0
    ensures KraftSum(lens) == 0
  {
    if lens != [] {
      KraftOfZeros(lens[..|lens| - 1]);
    }
  }

  /** A code in which only the longest repetition of zeros has a code, of one bit. */
  function OnlyZeros(): (cl: seq<nat>)
    ensures |cl| == CODE_LENGTH_SYMBOLS && cl[18] == 1 && forall i :: 0 <= i < 18 ==> cl[i] == 0
  {
    seq(18, i => 0) + [1]
  }

  lemma OnlyZerosValid(order: seq<nat>)
    requires ValidOrder(order) && order[2] == 18
    ensures CodeLengthCode(OnlyZeros()) && Small(order, OnlyZeros(), 4) && ZeroFrom(order, OnlyZeros(), 4)
    ensures HasCode(OnlyZeros(), 18)
  {
    hide AllOccur;
    var cl := OnlyZeros();
    assert cl[..18] == seq(18, i => 0);
    KraftOfZeros(cl[..18]);
    Pow2Values();
    assert forall i :: 0 <= i < |order| && i != 2 ==> order[i] != 18;
  }

  /** Three of the longest repetitions, 414 lengths in all, with 320 announced: 94 entries behind the buffer. */
  lemma OverrunExample() returns (h: Header, bits: seq<bool>)
    ensures ValidOrder(CODE_LENGTH_ORDER) && h.literals + h.distances == 320 && h.sent == 4
    ensures LengthsAt(CODE_LENGTH_ORDER, bits, 14, 4) == h.cl
    ensures RunItems(h.cl, bits, 26, [], 320) == Overrun && ParseHeader(CODE_LENGTH_ORDER, bits, 0) == Rejected
  {
    hide RunItems, ParseHeader, LengthsAt;
    OrderValid();
    OrderIs(0);
    assert CODE_LENGTH_ORDER[..4][2] == 18;
    h, bits := OverrunFor(CODE_LENGTH_ORDER);
  }

  lemma OverrunFor(order: seq<nat>) returns (h: Header, bits: seq<bool>)
    requires ValidOrder(order) && order[2] == 18
    ensures h.literals + h.distances == MAX_LENGTHS && h.sent == 4 && LengthsAt(order, bits, 14, 4) == h.cl
    ensures RunItems(h.cl, bits, 26, [], MAX_LENGTHS) == Overrun && ParseHeader(order, bits, 0) == Rejected
  {
    hide Has, CodeBits, LowBits, EncodeCounts, EncodeLengths, LengthsAt, RunItems, ValidOrder, Small, ZeroFrom,
         KraftSum,
         CodeLengthCode, ParseHeader;
    var cl, item := OnlyZeros(), Item(18, 127);
    OnlyZerosValid(order);
    Pow2Values();
    h := Header(288, 32, 4, cl, [item, item]);
    var front := EncodeCounts(h) + EncodeLengths(order, cl, 4);
    var back := EncodeItems(cl, h.items) + EncodeItem(cl, item);
    bits := front + back;
    HasItself(bits);
    HasAppend(bits, 0, front, back);
    TwoExpand(item);
    HeaderOverrun(order, h, item, bits, 0);
  }

  lemma TwoExpand(item: Item)
    requires item == Item(18, 127)
    ensures AllAppendable([], [item, item]) && |ExpandItems([], [item, item])| == 276
  {
    var one := Append([], item);
    assert [item, item][1..] == [item] && [item][1..] == [];
    assert ExpandItems(one, [item]) == ExpandItems(Append(one, item), []);
  }
}
