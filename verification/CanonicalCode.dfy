/**
 The canonical prefix codes of section 3.2.2 of RFC 1951: a code is given by the bit
 length of each symbol (0 for an unused symbol). This module is the reference that the
 decoder's tables are proved against.
 */
module CanonicalCode {
  import opened Bits

  const MAX_BITS: nat := 15
  const MAX_SYMBOLS: nat := 288

  predicate ValidLengths(lens: seq<nat>) {
    && |lens| <= MAX_SYMBOLS
    && forall s :: 0 <= s < |lens| ==> lens[s] <= MAX_BITS
  }

  /** The number of symbols below `n` whose code has `len` bits. */
  function CountBelow(lens: seq<nat>, n: nat, len: nat): (r: nat)
    requires n <= |lens|
    ensures r <= n
  {
    if n == 0 then 0 else CountBelow(lens, n - 1, len) + (if lens[n - 1] == len then 1 else 0)
  }

  function Count(lens: seq<nat>, len: nat): nat {
    CountBelow(lens, |lens|, len)
  }

  /** The numerically smallest code of `len` bits (step 2 of section 3.2.2). */
  function FirstCode(lens: seq<nat>, len: nat): nat
    decreases len, 0
  {
    if len <= 1 then 0 else 2 * EndCode(lens, len - 1)
  }

  /** One past the largest code of `len` bits. */
  function EndCode(lens: seq<nat>, len: nat): nat
    decreases len, 1
  {
    FirstCode(lens, len) + Count(lens, len)
  }

  /** The code of symbol `s`, as a number (step 3 of section 3.2.2). */
  function CodeOf(lens: seq<nat>, s: nat): nat
    requires s < |lens|
  {
    FirstCode(lens, lens[s]) + CountBelow(lens, s, lens[s])
  }

  /** The code of symbol `s` as it is written to the stream, most significant bit first. */
  function CodeBits(lens: seq<nat>, s: nat): (r: seq<bool>)
    requires s < |lens|
    ensures |r| == lens[s]
  {
    HighBits(CodeOf(lens, s), lens[s])
  }

  /** Symbol `s` is used and its code starts the bit string `w`. */
  predicate Matches(lens: seq<nat>, s: nat, w: seq<bool>) {
    s < |lens| && lens[s] > 0 && CodeBits(lens, s) <= w
  }

  /** The Kraft sum of the code, in units of 2^-15. */
  function KraftSum(lens: seq<nat>): nat
    requires forall s :: 0 <= s < |lens| ==> lens[s] <= MAX_BITS
  {
    if lens == [] then 0
    else
      var last := lens[|lens| - 1];
      KraftSum(lens[..|lens| - 1]) + (if last == 0 then 0 else Pow2(MAX_BITS - last))
  }

  /** The lengths satisfy the Kraft inequality: a prefix code with these lengths exists. */
  predicate Kraft(lens: seq<nat>)
    requires ValidLengths(lens)
  {
    KraftSum(lens) <= Pow2(MAX_BITS)
  }

  function KraftAt(lens: seq<nat>, len: nat): nat
    requires len <= MAX_BITS
  {
    Count(lens, len) * Pow2(MAX_BITS - len)
  }

  /** The part of the Kraft sum that codes of at most `len` bits contribute. */
  function KraftUpTo(lens: seq<nat>, len: nat): nat
    requires len <= MAX_BITS
  {
    if len == 0 then 0 else KraftUpTo(lens, len - 1) + KraftAt(lens, len)
  }

  /** The end, in 16-bit most-significant-first order, of the windows that codes of at most `len` bits cover. */
  function Limit(lens: seq<nat>, len: nat): nat
    requires len <= MAX_BITS
  {
    2 * KraftUpTo(lens, len)
  }

  // ----- The Kraft sum, symbol by symbol and length by length -----

  lemma {:induction false} CountBelowPrefix(lens: seq<nat>, n: nat, m: nat, len: nat)
    requires n <= m <= |lens|
    ensures CountBelow(lens[..m], n, len) == CountBelow(lens, n, len)
  {
    if n > 0 {
      CountBelowPrefix(lens, n - 1, m, len);
    }
  }

  lemma {:induction false} KraftUpToSnoc(lens: seq<nat>, len: nat)
    requires lens != [] && len <= MAX_BITS
    ensures KraftUpTo(lens, len) ==
            KraftUpTo(lens[..|lens| - 1], len)
            + (if 0 < lens[|lens| - 1] <= len then Pow2(MAX_BITS - lens[|lens| - 1]) else 0)
  {
    if len > 0 {
      var pre := lens[..|lens| - 1];
      KraftUpToSnoc(lens, len - 1);
      CountBelowPrefix(lens, |pre|, |pre|, len);
      var p := Pow2(MAX_BITS - len);
      assert Count(lens, len) == Count(pre, len) + (if lens[|pre|] == len then 1 else 0);
      MulDistrib(Count(pre, len), 1, p);
    }
  }

  lemma {:induction false} KraftUpToEmpty(len: nat)
    requires len <= MAX_BITS
    ensures KraftUpTo([], len) == 0
  {
    if len > 0 {
      KraftUpToEmpty(len - 1);
    }
  }

  lemma {:induction false} KraftByLength(lens: seq<nat>)
    requires forall s :: 0 <= s < |lens| ==> lens[s] <= MAX_BITS
    ensures KraftSum(lens) == KraftUpTo(lens, MAX_BITS)
  {
    if lens == [] {
      KraftUpToEmpty(MAX_BITS);
    } else {
      KraftByLength(lens[..|lens| - 1]);
      KraftUpToSnoc(lens, MAX_BITS);
    }
  }

  lemma {:induction false} KraftUpToMono(lens: seq<nat>, l: nat, m: nat)
    requires l <= m <= MAX_BITS
    ensures KraftUpTo(lens, l) <= KraftUpTo(lens, m)
  {
    if l < m {
      KraftUpToMono(lens, l, m - 1);
    }
  }

  /** The codes of at most `len` bits end exactly where their Kraft sum says. */
  lemma {:induction false} EndCodeKraft(lens: seq<nat>, len: nat)
    requires 1 <= len <= MAX_BITS
    ensures EndCode(lens, len) * Pow2(MAX_BITS - len) == KraftUpTo(lens, len)
  {
    var p := Pow2(MAX_BITS - len);
    var f, c := FirstCode(lens, len), Count(lens, len);
    assert f * p == KraftUpTo(lens, len - 1) by {
      if len > 1 {
        EndCodeKraft(lens, len - 1);
        Regroup(EndCode(lens, len - 1), p);
      }
    }
    MulDistrib(f, c, p);
  }

  lemma MulCancelLe(a: nat, b: nat, d: nat)
    requires d > 0
    ensures a * d <= b * d <==> a <= b
  {
    MulAtLeast(a - b, d);
    MulDistrib(a, b, d);
  }

  /** The Kraft inequality holds for codes of at most `len` bits exactly when they fit in `len` bits. */
  lemma EndCodeFits(lens: seq<nat>, len: nat)
    requires 1 <= len <= MAX_BITS
    ensures EndCode(lens, len) <= Pow2(len) <==> KraftUpTo(lens, len) <= Pow2(MAX_BITS)
  {
    EndCodeKraft(lens, len);
    Pow2Add(len, MAX_BITS - len);
    MulCancelLe(EndCode(lens, len), Pow2(len), Pow2(MAX_BITS - len));
  }

  lemma KraftFits(lens: seq<nat>, len: nat)
    requires ValidLengths(lens) && Kraft(lens) && 1 <= len <= MAX_BITS
    ensures EndCode(lens, len) <= Pow2(len)
  {
    KraftByLength(lens);
    KraftUpToMono(lens, len, MAX_BITS);
    EndCodeFits(lens, len);
  }

  /** The Kraft inequality holds exactly when the first code past the last length fits. */
  lemma KraftAtEnd(lens: seq<nat>)
    requires ValidLengths(lens)
    ensures FirstCode(lens, MAX_BITS + 1) <= Pow2(MAX_BITS + 1) <==> Kraft(lens)
  {
    KraftByLength(lens);
    EndCodeFits(lens, MAX_BITS);
  }

  // ----- Ranks -----

  lemma {:induction false} CountBelowMono(lens: seq<nat>, n: nat, m: nat, len: nat)
    requires n <= m <= |lens|
    ensures CountBelow(lens, n, len) <= CountBelow(lens, m, len)
    ensures n < m && lens[n] == len ==> CountBelow(lens, n, len) < CountBelow(lens, m, len)
  {
    if n < m {
      CountBelowMono(lens, n, m - 1, len);
    }
  }

  lemma RankInjective(lens: seq<nat>, s: nat, t: nat)
    requires s < |lens| && t < |lens| && lens[s] == lens[t]
    requires CountBelow(lens, s, lens[s]) == CountBelow(lens, t, lens[s])
    ensures s == t
  {
    var lo, hi := if s <= t then s else t, if s <= t then t else s;
    CountBelowMono(lens, lo, hi, lens[s]);
  }

  /** The symbol of rank `k` among those of `len` bits. */
  lemma {:induction false} Select(lens: seq<nat>, n: nat, len: nat, k: nat) returns (s: nat)
    requires n <= |lens| && k < CountBelow(lens, n, len)
    ensures s < n && lens[s] == len && CountBelow(lens, s, len) == k
  {
    if lens[n - 1] == len && CountBelow(lens, n - 1, len) == k {
      s := n - 1;
    } else {
      s := Select(lens, n - 1, len, k);
    }
  }

  lemma CodeFits(lens: seq<nat>, s: nat)
    requires ValidLengths(lens) && Kraft(lens)
    requires s < |lens| && lens[s] > 0
    ensures FirstCode(lens, lens[s]) <= CodeOf(lens, s) < EndCode(lens, lens[s]) <= Pow2(lens[s])
  {
    KraftFits(lens, lens[s]);
    CountBelowMono(lens, s, |lens|, lens[s]);
  }

  // ----- Tiling of the 16-bit windows -----

  lemma LimitEnd(lens: seq<nat>, len: nat)
    requires 1 <= len <= MAX_BITS
    ensures EndCode(lens, len) * Pow2(16 - len) == Limit(lens, len)
    ensures FirstCode(lens, len) * Pow2(16 - len) == Limit(lens, len - 1)
  {
    EndCodeKraft(lens, len);
    var p := Pow2(MAX_BITS - len);
    Regroup(EndCode(lens, len), p);
    if len > 1 {
      EndCodeKraft(lens, len - 1);
      Regroup(EndCode(lens, len - 1), 2 * p);
    }
  }

  /** A 16-bit window starts with the code of `s` exactly when its leading bits are that number. */
  lemma MatchesValue(lens: seq<nat>, s: nat, w: seq<bool>)
    requires ValidLengths(lens) && Kraft(lens) && |w| == 16
    requires s < |lens| && lens[s] > 0
    ensures Matches(lens, s, w) <==> Shr(MsbFirst(w), 16 - lens[s]) == CodeOf(lens, s)
  {
    var n := lens[s];
    CodeFits(lens, s);
    HighBitsValue(CodeOf(lens, s), n);
    MsbFirstTake(w, n);
    if CodeBits(lens, s) <= w {
      assert w[..n] == CodeBits(lens, s);
    } else if Shr(MsbFirst(w), 16 - n) == CodeOf(lens, s) {
      MsbFirstInjective(CodeBits(lens, s), w[..n]);
    }
  }

  /** Codes of `len` bits cover exactly the windows in [Limit(len - 1), Limit(len)). */
  lemma MatchInterval(lens: seq<nat>, s: nat, w: seq<bool>)
    requires ValidLengths(lens) && Kraft(lens) && |w| == 16
    requires Matches(lens, s, w)
    ensures Limit(lens, lens[s] - 1) <= MsbFirst(w) < Limit(lens, lens[s])
  {
    MatchesValue(lens, s, w);
    CodeFits(lens, s);
    LimitEnd(lens, lens[s]);
    ShrBounds(MsbFirst(w), 16 - lens[s], FirstCode(lens, lens[s]), EndCode(lens, lens[s]));
  }

  lemma IntervalMatch(lens: seq<nat>, len: nat, w: seq<bool>) returns (s: nat)
    requires ValidLengths(lens) && Kraft(lens) && |w| == 16
    requires 1 <= len <= MAX_BITS && Limit(lens, len - 1) <= MsbFirst(w) < Limit(lens, len)
    ensures Matches(lens, s, w) && lens[s] == len
    ensures CountBelow(lens, s, len) == Shr(MsbFirst(w), 16 - len) - FirstCode(lens, len)
  {
    LimitEnd(lens, len);
    ShrBounds(MsbFirst(w), 16 - len, FirstCode(lens, len), EndCode(lens, len));
    s := Select(lens, |lens|, len, Shr(MsbFirst(w), 16 - len) - FirstCode(lens, len));
    MatchesValue(lens, s, w);
  }

  /** At most one code starts any window. */
  lemma MatchUnique(lens: seq<nat>, s: nat, t: nat, w: seq<bool>)
    requires ValidLengths(lens) && Kraft(lens) && |w| == 16
    requires Matches(lens, s, w) && Matches(lens, t, w)
    ensures s == t
  {
    MatchInterval(lens, s, w);
    MatchInterval(lens, t, w);
    if lens[s] < lens[t] {
      KraftUpToMono(lens, lens[s], lens[t] - 1);
    } else if lens[t] < lens[s] {
      KraftUpToMono(lens, lens[t], lens[s] - 1);
    } else {
      MatchesValue(lens, s, w);
      MatchesValue(lens, t, w);
      RankInjective(lens, s, t);
    }
  }

  /** The codes are prefix-free. */
  lemma PrefixFree(lens: seq<nat>, s: nat, t: nat)
    requires ValidLengths(lens) && Kraft(lens)
    requires s < |lens| && t < |lens| && lens[s] > 0 && lens[t] > 0
    requires CodeBits(lens, s) <= CodeBits(lens, t)
    ensures s == t
  {
    var w := CodeBits(lens, t) + seq(16 - lens[t], i => false);
    MatchUnique(lens, s, t, w);
  }

  lemma {:induction false} FindLength(lens: seq<nat>, v: nat, len: nat) returns (l: nat)
    requires len <= MAX_BITS && v < Limit(lens, len)
    ensures 1 <= l <= len && Limit(lens, l - 1) <= v < Limit(lens, l)
  {
    if Limit(lens, len - 1) <= v {
      l := len;
    } else {
      l := FindLength(lens, v, len - 1);
    }
  }

  /** The codes tile an initial segment of the windows: some code matches exactly below the last limit. */
  lemma Tiling(lens: seq<nat>, w: seq<bool>)
    requires ValidLengths(lens) && Kraft(lens) && |w| == 16
    ensures (exists s: nat :: Matches(lens, s, w)) <==> MsbFirst(w) < Limit(lens, MAX_BITS)
  {
    if MsbFirst(w) < Limit(lens, MAX_BITS) {
      var l := FindLength(lens, MsbFirst(w), MAX_BITS);
      var s := IntervalMatch(lens, l, w);
    }
    forall s: nat | Matches(lens, s, w)
      ensures MsbFirst(w) < Limit(lens, MAX_BITS)
    {
      MatchInterval(lens, s, w);
      KraftUpToMono(lens, lens[s], MAX_BITS);
    }
  }
}
